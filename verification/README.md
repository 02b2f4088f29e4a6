# Verification of linux-server-learn

A Dafny model of five parts of the repository that hold state over many calls: the hashed timing wheel, the
incremental HTTP request parser (with the smaller CR LF scanner of the CGI process pool), the work queue of the
thread pool, the sorted timer list with the event loop that closes idle connections, and the timer heap.

Each part has the same shape. A value model says what an operation does to a plain sequence, map or record, and
carries the results: invariants over whole runs, refinements, round trips. A class then has the source's own fields
and loops, changed in place, and every method is proved to compute the value model's function of the old state. So a
lemma about runs of the value model is a statement about runs of the class; for the wheel, the event loop with its
timer list, and heap insertion it is also stated of one object over many calls. The thread pool is concurrent: its value
model takes one access to shared state per step, and the methods of its class are the statements of one thread, with
any number of steps of the other threads between any two accesses; each is proved to be a run of the value model.

| files | of the source | main results |
|---|---|---|
| `WheelModel`, `TimeWheel`, `WheelRun` | `time_wheel_timer.h` | the wheel refines a bag of countdowns over every run; exact firing time; conservation |
| `HttpModel`, `HttpChunks`, `HttpReplies`, `HttpGrammar`, `HttpRefusals`, `HttpParser` | `parse_http.cpp` | the first verdict does not depend on how the bytes are split; the accepted and the refused language; which bytes make the later replies depend on the split; print/parse round trip; frame |
| `CgiScanner` | `processpool_cgi.cpp` | the incremental scan is first-occurrence search on all bytes received |
| `PoolModel`, `PoolDraining`, `ThreadPool` | `threadpool.h`, `locker.h` | in every interleaving: semaphore accounting, what the mutex protects, exactly-once FIFO; when a running or stopped pool drains |
| `SortedModel`, `SortedList` | `lst_timer.h` | order and contents over every run; postponing is remove and insert; the exact range in which `adjust_timer` keeps order |
| `IdleModel`, `IdleServer` | `close_inactivate_conn.cpp` | one timer per open connection; a tick closes exactly the idle ones; how late, if alarms are answered promptly |
| `MinHeap` | `min_heap.cpp` | heapify, insertion as meant, growth; why insertion as written fails |
| `Common` | | optional values, sequences with one element more or less |

What comes from outside is a parameter: the clock readings, what `recv` delivers, the descriptors `accept` returns,
the interleaving of the threads. Callbacks are events: `tick` returns the timers whose callback it called, in order.
Calls to `delete` are kept in a ghost set, so that no node is released twice or while it is linked.

What the proofs found about the source:

- `lst_timer.h:125-149`: a tick that empties the list leaves `tail` dangling. The invariant therefore speaks of `tail`
  only while the list has nodes, and every operation is proved under that weaker invariant.
- `lst_timer.h:65-90`: `adjust_timer` keeps the list sorted exactly when the new expiry is not below that of the timer
  in front (`AdjustSortedIff`); `AdvancingUnsorts` is an input for which it does not. The event loop only postpones.
- `threadpool.h:72`: the `>` lets `max_requests + 1` requests into the queue, and that many are reached
  (`BoundIsReached`).
- `threadpool.h:94-96`: a worker looks at `m_stop` before it waits, so a stopped pool may leave accepted requests
  unserved (`StopLeavesRequest` is a run that does). Every run of it to rest serves everything if and only if the
  requests queued, and those that calls already made may still push, are no more than the workers that are past line 94
  and have not popped (`StoppedAlwaysDrainsIff`).
- `parse_http.cpp:255-258`: after BAD_REQUEST the loop goes on. At a bad byte it is stuck for good (`StuckForGood`);
  behind a bad request line a good request is accepted if it arrives by itself and never looked at if it arrives
  together with that line (`SplitShowsAfterBad`). The first reply is independent of how the bytes are split. All of them
  are if and only if no proper prefix of the bytes ends in a bad line end (a lone LF, or a CR without its LF), or is a
  bad request line followed by bytes that are themselves accepted or refused (`SplitFreeInBytes`).
- `min_heap.cpp:98-106`: the loop opens a hole and never stores the timer there, so that for every heap and every
  timer the entries are wrong (`AsWrittenLosesTimer`). `AddTimer` is the insertion as meant. A heap of capacity 0, which
  line 37 accepts, does not grow at line 135 and ends with more entries than slots (`AddTimerAsWritten`).
- `parse_http.cpp:55-64`: the look-back for a CR in an earlier receive is never taken (`LookBackNeverTaken`), because
  line 43 leaves `checked_index` on a trailing CR.
- `parse_http.cpp:123`: a header line that begins with a NUL byte ends the request as an empty one does; the grammar
  of `AcceptedLanguage` covers this, and `AcceptedNulFree` is the language for input without NULs.

## Model

| member | source | states |
|---|---|---|
| WheelModel.WrapIsModulo | time_wheel_timer.h:71 | the wrap-around written as a comparison is `% N` on the sums that occur |
| WheelModel.GapIsModulo | time_wheel_timer.h:152 | the distance of a slot from the current one is `(time_slot - cur_slot) mod N` |
| WheelModel.TicksFor | time_wheel_timer.h:60-68 | one tick for a timeout below the slot interval, otherwise the whole intervals that fit into it |
| WheelModel.VisitSlot | time_wheel_timer.h:118-151 | in the visited slot, an entry survives exactly if it had a rotation left, one lower; it is due exactly if it had none |
| WheelModel.VisitKeepsDistinct | time_wheel_timer.h:118-151 | a visit fires no timer twice and keeps the slot free of duplicates |
| WheelModel.DueInListOrder | time_wheel_timer.h:118-151 | of two timers due in one visit, the one in front in the list fires first |
| WheelModel.HalfwayNext | time_wheel_timer.h:118-151 | what one pass of the removing loop does to the slot that earlier passes have half rewritten |
| WheelModel.AddRefines | time_wheel_timer.h:54-86 | adding puts one countdown of `max(1, timeout / SI)` ticks into the bag and changes no other, for any cursor and any multiple of N |
| WheelModel.DelRefines | time_wheel_timer.h:88-113 | deleting takes exactly this timer's countdown out of the bag |
| WheelModel.TickRefines | time_wheel_timer.h:114-153 | a tick, though it visits one slot, fires exactly the zero countdowns, each once, and decrements every other one |
| WheelModel.DelIsCut | time_wheel_timer.h:94-112 | deleting by identity is cutting one entry out of the one slot the timer is in |
| WheelModel.RefinesOneBag | time_wheel_timer.h:60-72 | rotation and slot determine the countdown: a wheel refines at most one bag |
| WheelModel.StepRefines | time_wheel_timer.h:54-153 | every legal operation keeps the wheel refining the bag |
| WheelModel.RunRefines | time_wheel_timer.h:54-153 | over every legal run, wheel and bag stay related, and tick by tick the same timers fire, each once |
| WheelModel.BagFiringTime | time_wheel_timer.h:60-72 | a countdown nobody touches is fired by exactly one tick of a run, the one its value counts off |
| WheelModel.FiringTimeFrom | time_wheel_timer.h:60-72 | on any run, a timer added with `timeout >= 0` and left alone fires in tick call `max(1, timeout / SI) + 1` after its add, once, and is linked exactly until then |
| WheelModel.FiringTime | time_wheel_timer.h:34-72 | so on any run from an empty wheel |
| WheelModel.Conservation | time_wheel_timer.h:54-153 | over every run, timers there before and created = still linked + deleted + fired, as multisets |
| TimeWheel.LinkFirst | time_wheel_timer.h:74-84 | the new node becomes the head of a well-formed chain of it and the old nodes |
| TimeWheel.Unlink | time_wheel_timer.h:95-111 | head or not, last or not, the chain left is the old one without the node, links mirrored; also at 129-149 |
| TimeWheel.TwTimer.constructor | time_wheel_timer.h:21-21 | rotation and slot as given, links null |
| TimeWheel.TimeWheel.constructor | time_wheel_timer.h:34-40 | every slot null, the first one current, nothing linked, created or released |
| TimeWheel.TimeWheel.Place | time_wheel_timer.h:60-71 | the rotation and slot the source computes are those of the value model |
| TimeWheel.TimeWheel.Create | time_wheel_timer.h:60-85 | the new node is linked where the model says, and only it is created |
| TimeWheel.TimeWheel.AddTimer | time_wheel_timer.h:54-86 | null and nothing changed for a negative timeout; otherwise a fresh timer, with the countdowns read off the fields being the old ones and its own |
| TimeWheel.TimeWheel.Remove | time_wheel_timer.h:94-112 | one node leaves its slot's list and is released, the wheel's shape kept |
| TimeWheel.TimeWheel.DelTimer | time_wheel_timer.h:88-113 | exactly this timer's countdown is gone and exactly this node released; nothing for null |
| TimeWheel.TimeWheel.Age | time_wheel_timer.h:121-125 | one rotation less for this node only |
| TimeWheel.TimeWheel.Visit | time_wheel_timer.h:119-150 | one pass of the loop keeps the shape of all lists and goes to the node that was behind |
| TimeWheel.TimeWheel.Walk | time_wheel_timer.h:116-151 | the walk visits each node of the slot once, however many it removes, and fires in list order |
| TimeWheel.TimeWheel.Advance | time_wheel_timer.h:152 | the cursor moves one slot round |
| TimeWheel.TimeWheel.Tick | time_wheel_timer.h:114-153 | on the heap: the countdowns read off the fields are ticked, the fired timers are the zeros, each once, and exactly those are released |
| TimeWheel.TimeWheel.Destroy | time_wheel_timer.h:41-53 | in the end every created node is released, none twice |
| TimeWheel.TimeWheel.CountdownsAreTheBag | time_wheel_timer.h:22-28 | `rotation * N + (time_slot - cur_slot) mod N` over the linked nodes is the bag the wheel refines |
| WheelRun.Obey | time_wheel_timer.h:54-153 | one call, answered as it should be, is one operation of the value model |
| WheelRun.Run | time_wheel_timer.h:54-153 | on one object, over any sequence of calls, each answered as it should be: the countdowns read off the nodes are those of the run, every timer left alone fires once and when its timeout says, and created = linked + deleted + fired |
| HttpModel.ParseLine | parse_http.cpp:35-67 | the buffer keeps its length, the index only advances, a line that was completed ends in a NUL, anything else leaves the buffer alone |
| HttpModel.Content | parse_http.cpp:140-187 | the indices stay ordered and the length is kept |
| HttpChunks.MoreBytesLine | parse_http.cpp:35-67 | more bytes do not change a line that was decided, and an open one resumes where it stopped, also between CR and LF |
| HttpChunks.MoreBytes | parse_http.cpp:140-187 | a decisive verdict stands whatever follows; after NO_REQUEST the call on more bytes equals the resumed call |
| HttpChunks.ContentIdles | parse_http.cpp:145-182 | after NO_REQUEST another call without new bytes changes nothing |
| HttpChunks.ChunksDoNotMatter | parse_http.cpp:230-259 | fed in any chunks, the first decisive verdict, both indices, the state, the reported URL and the consumed buffer are those of one call on the whole input |
| HttpChunks.SplitsAgree | parse_http.cpp:230-259 | two splits of the same bytes agree in all of these |
| HttpReplies.FirstReply | parse_http.cpp:230-259 | the first reply of the receive loop is the first verdict, and there is no other unless it is BAD_REQUEST |
| HttpReplies.RepliesAgree | parse_http.cpp:230-259 | two splits of the same bytes give the same first reply, and the same replies unless it is BAD_REQUEST |
| HttpReplies.StuckForGood | parse_http.cpp:179-186 | at a bad byte every later receive is answered with BAD_REQUEST and no byte is looked at any more |
| HttpReplies.FirstReplyToAll | parse_http.cpp:230-259 | the first reply to a part of the input is that to all of it |
| HttpChunks.LookBackNeverTaken | parse_http.cpp:55-64 | from a state the parser leaves, the look-back branch never succeeds, and no CR is left before `checked_index` |
| HttpChunks.LineWrites | parse_http.cpp:47-51 | completing a line overwrites its CR and LF and nothing else |
| HttpChunks.RequestLineWrites | parse_http.cpp:69-119 | parsing a request line overwrites blanks inside it with NULs and nothing else |
| HttpChunks.DoneWrites | parse_http.cpp:147-178 | string scans end inside the line just completed, and so do the writes |
| HttpChunks.ContentFrame | parse_http.cpp:140-187 | whatever the verdict: indices ordered, NULs only over blanks and line ends of checked lines, unchecked bytes as received, no CR before `checked_index` |
| HttpChunks.FeedFrame | parse_http.cpp:230-259 | the same over whole runs of receives |
| HttpGrammar.RequestLineLanguage | parse_http.cpp:69-119 | a line passes exactly if it is method GET in any case, blanks, a target with a path, blanks, HTTP/1.1 in any case |
| HttpGrammar.RequestLineInLetters | parse_http.cpp:69-119 | the same letter by letter, without the parser's own comparison: `G`/`g`, `E`/`e`, `T`/`t`, spaces or tabs, a word that begins with `/`, or with `http://` in any case and has a `/` behind it, spaces or tabs, `HTTP/1.1` in any case |
| HttpGrammar.UrlInLetters | parse_http.cpp:106-116 | the URL reported is the target, or what begins at its first `/` behind the scheme |
| HttpGrammar.GoodLineParses | parse_http.cpp:69-119 | on a line of five parts the scans stop where the parts meet, and the URL is the target's path |
| HttpGrammar.ParsedLineIsGood | parse_http.cpp:69-119 | a line that passes splits into such parts |
| HttpGrammar.LineHandedOver | parse_http.cpp:145-148 | a line without CR and LF, ended by CR LF, is handed over as its text up to a NUL, and the bytes behind it are untouched |
| HttpGrammar.HeaderLineRead | parse_http.cpp:160-171 | a header line without text is the verdict, any other is passed over and keeps the URL |
| HttpGrammar.HeadersGiveVerdict | parse_http.cpp:160-171 | a header section of non-empty lines and an empty one gives GET_REQUEST and keeps the URL |
| HttpGrammar.VerdictNeedsHeaders | parse_http.cpp:160-171 | GET_REQUEST is given for no other header section |
| HttpGrammar.VerdictIsAccepted | parse_http.cpp:140-187 | wherever a request line is expected, GET_REQUEST is the verdict exactly on a request of the grammar |
| HttpGrammar.AcceptedLanguage | parse_http.cpp:69-187 | for every input and every split, the first verdict is GET_REQUEST exactly for the requests of the grammar |
| HttpGrammar.AcceptedNulFree | parse_http.cpp:69-187 | without NULs: request line, CR LF, non-empty CR LF lines, an empty line, no bare CR or LF before it |
| HttpGrammar.AfterBadRequest | parse_http.cpp:145-186 | BAD_REQUEST leaves the parser stuck at a bad byte, or at the next line, expecting a request line |
| HttpRefusals.BadByteSticks | parse_http.cpp:41-64 | at a bad line end, in the request line or the header section, the parser refuses and is stuck |
| HttpRefusals.BadLinePassed | parse_http.cpp:151-157 | at a line that is no request line it refuses and goes on behind it |
| HttpRefusals.VerdictIsRefused | parse_http.cpp:140-187 | wherever a request line is expected, BAD_REQUEST is the verdict exactly on bytes that begin with a bad line, or with a good beginning up to a bad line end |
| HttpRefusals.RefusedLanguage | parse_http.cpp:69-187 | for every input and every split, the first verdict is BAD_REQUEST exactly on what the grammar refuses |
| HttpRefusals.SplitFreeInBytes | parse_http.cpp:230-259 | the replies are the same for every split if and only if no proper prefix of the bytes ends at a bad line end, or is a bad request line followed by bytes that are accepted or refused |
| HttpGrammar.SplitShowsAfterBad | parse_http.cpp:255-258 | for every bad line and every good request: two replies if they arrive apart, one if they arrive together |
| HttpGrammar.RoundTrip | parse_http.cpp:69-187 | a printed request, origin form or `http://host` and path, any headers, any chunks, is accepted and exactly its path recovered |
| HttpParser.CutString | parse_http.cpp:71-76 | writing a NUL at a blank splits the C string into the word and what is behind |
| HttpParser.Connection.constructor | parse_http.cpp:189-229 | a zeroed buffer of 4096 bytes, all indices 0, request line expected |
| HttpParser.Connection.ParseLine | parse_http.cpp:35-67 | the loop over the buffer computes the value model, and bytes not received stay untouched |
| HttpParser.Connection.CutWord | parse_http.cpp:71-76 | `strpbrk` and the NUL written through it, also at 93-98 |
| HttpParser.Connection.SkipGap | parse_http.cpp:90-90 | `strspn` moves the pointer to the first non-blank |
| HttpParser.Connection.ReadTarget | parse_http.cpp:106-115 | scheme, host and `strchr`, as pointer moves in the buffer |
| HttpParser.Connection.ParseRequestLine | parse_http.cpp:69-119 | verdict, edited bytes, state and URL are the value model's on the C string at `temp`; it passes exactly on a request line of the grammar |
| HttpParser.Connection.ParseHeaders | parse_http.cpp:121-138 | GET_REQUEST exactly for an empty string |
| HttpParser.Connection.HandleLine | parse_http.cpp:147-177 | one completed line in either state |
| HttpParser.Connection.ParseContent | parse_http.cpp:140-187 | the loop computes `Content` of the state it finds, in place, and touches nothing above `read_index` |
| HttpParser.Connection.Receive | parse_http.cpp:232-243 | at least one byte and no more than fit are appended |
| HttpParser.Connection.Serve | parse_http.cpp:223-259 | the whole loop, going on after BAD_REQUEST: the replies and the state are those the value model gives for the chunks received; the first reply, or none, is the verdict on the first 4096 bytes sent, and the state too unless that is BAD_REQUEST |
| CgiScanner.CgiConn.constructor | processpool_cgi.cpp:11-18 | an empty buffer of 1024 bytes |
| CgiScanner.CgiConn.Scan | processpool_cgi.cpp:44-50 | started at the first new byte, the scan finds the first CR LF of the whole buffer, also one split over receives, or there is none |
| CgiScanner.CgiConn.Receive | processpool_cgi.cpp:26-42 | some bytes are appended, the last place is kept free |
| CgiScanner.CgiConn.Process | processpool_cgi.cpp:19-61 | a call does what the first CR LF of all bytes sent so far means; if it returns to wait, there is none in what it has |
| CgiScanner.MeantOnce | processpool_cgi.cpp:19-61 | that meaning leaves exactly one result open |
| CgiScanner.MeantPlainly | processpool_cgi.cpp:19-61 | in plain words: a program is named exactly if there is a CR LF among the first 1023 bytes, by what is in front of the first, up to a NUL; otherwise the call waits exactly if there is room and the peer may send more |
| CgiScanner.FirstCrlfUnique | processpool_cgi.cpp:44-50 | there is one first CR LF |
| CgiScanner.CgiConn.ProcessAll | processpool_cgi.cpp:19-61 | call after call on one connection, each with an ending of its own, until one does not return to wait: that one's result is what all the bytes mean, and there was no CR LF in what any call before had scanned |
| CgiScanner.CallsDoNotMatter | processpool_cgi.cpp:19-61 | the calls end with the result that one call with all the bytes at once gives on another connection |
| PoolModel.FreshInv | threadpool.h:31-59 | a new pool satisfies the invariant |
| PoolModel.Fresh | threadpool.h:31-59 | a new pool has the bound and the numbers of threads it is made for, an empty queue and a semaphore of 0, and nothing has happened |
| PoolModel.ExclusiveStep | locker.h:37-61 | every step keeps the mutex with the one thread in the locked region |
| PoolModel.BalancedStep | threadpool.h:68-112 | every step keeps queue length = semaphore + pushed but not posted + woken but not popped |
| PoolModel.OthersKeepQueue | threadpool.h:71-79 | while a thread is in the locked region no other thread changes the queue |
| PoolModel.StableStep | threadpool.h:71-105 | resting on the mutex: a producer that has passed line 72 still finds room at line 77, and line 104 takes out what line 103 has read |
| PoolModel.ServedStep | threadpool.h:91-112 | every step keeps each popped request dropped as null, in the hands of the one worker that has read it, or processed once |
| PoolModel.ClaimMeansWork | threadpool.h:96-104 | a worker that has been woken finds the queue non-empty until it has popped |
| PoolModel.InvStep | threadpool.h:68-112 | every step keeps the whole invariant |
| PoolModel.RunInv | threadpool.h:68-112 | every interleaving of any number of threads keeps it |
| PoolModel.SemaphoreAccounting | threadpool.h:68-112 | in every reachable state the accounting holds, lines 99 to 101 are unreachable, neither `front` nor `pop_front` meets an empty list, and no wake-up is lost |
| PoolModel.MutexProtects | threadpool.h:71-105 | in every reachable state one thread at most is in the locked region, and what it has tested or read is still so |
| PoolModel.ExactlyOnceFifo | threadpool.h:68-112 | in every reachable state: popped is a prefix of accepted, the queue is within `max_requests + 1`, each call of `process` is for a non-null accepted request, no two for the same, and nothing popped is lost |
| PoolModel.AnswersAreTrue | threadpool.h:68-81 | in every reachable state, `append` has returned true once for each accepted request whose producer is not still on its way out |
| PoolDraining.MeasureDrops | threadpool.h:68-112 | every step inside `append` or `run` lowers an explicit measure |
| PoolDraining.RunsEnd | threadpool.h:68-112 | without new calls every run ends within the measure of its first state |
| PoolDraining.ComesToRest | threadpool.h:68-112 | from any state some run without new calls comes to rest |
| PoolDraining.LockedCanMove | threadpool.h:71-105 | whoever holds the mutex has an enabled step |
| PoolDraining.QuietMeansDrained | threadpool.h:68-112 | a pool at rest, stopped or not, with a worker still in the loop has an empty queue, every accepted non-null request processed, and `append` returned true for each |
| PoolDraining.RunningDrains | threadpool.h:68-112 | every run of a running pool with a worker that comes to rest, whatever the interleaving, has drained it |
| PoolDraining.StepUsesWorkers | threadpool.h:94-104 | in a stopped pool, queue length less the workers that still pop changes by new pushes only |
| PoolDraining.StoppedDrainsIff | threadpool.h:94-104 | a run of a stopped pool to rest has drained it if and only if the requests queued, with those accepted on the way, were no more than the workers that still popped |
| PoolDraining.RunAccepts | threadpool.h:71-80 | a run accepts no more than the calls that have not come to the test, find room at it or have passed it |
| PoolDraining.SomeRunLeaves | threadpool.h:68-112 | if these and the queue are more than the workers that still pop, some run leaves a request |
| PoolDraining.StoppedAlwaysDrainsIff | threadpool.h:68-112 | so every run of a stopped pool to rest drains it if and only if they are not more, a condition on the stopped state alone, with any producers inside `append` |
| PoolDraining.StoppedIdleDrainsIff | threadpool.h:94-104 | with nobody inside `append` one run to rest is as good as any |
| PoolDraining.CanDrain | threadpool.h:68-112 | every running pool with a worker, and every stopped one that meets the condition, is drained by going on |
| PoolDraining.StopLeavesRequest | threadpool.h:94-96 | a run from a fresh pool that leaves an accepted request unserved for good |
| PoolDraining.BoundIsReached | threadpool.h:72-77 | the bound `max_requests + 1` is reached |
| ThreadPool.Sem.constructor | locker.h:12-18 | a semaphore of value 0 |
| ThreadPool.Sem.TryWait | locker.h:23-26 | passes exactly at a positive value, and takes one off |
| ThreadPool.Sem.Post | locker.h:27-30 | adds one |
| ThreadPool.Locker.TryLock | locker.h:51-54 | succeeds exactly if nobody holds the mutex |
| ThreadPool.Locker.Unlock | locker.h:55-58 | only the holder's unlock, and then nobody holds it |
| ThreadPool.WorkPool.Create | threadpool.h:31-43 | refused exactly without threads or without room; otherwise a fresh pool |
| ThreadPool.WorkPool.Others | threadpool.h:68-112 | any steps of the other threads keep the invariant and leave this thread where it stands |
| ThreadPool.WorkPool.Append | threadpool.h:68-81 | the statements of one call, others in between, are a run of the pool; it returns true only after its request was accepted, false only through line 74, and no answer only while somebody holds the mutex at line 71 |
| ThreadPool.WorkPool.Enter | threadpool.h:71 | the call and the lock, which fails only if somebody holds the mutex |
| ThreadPool.WorkPool.Refuse | threadpool.h:74-75 | the thread holds the mutex it unlocks |
| ThreadPool.WorkPool.Push | threadpool.h:77-78 | the request is accepted next after all accepted before, and the mutex given up by its holder |
| ThreadPool.WorkPool.Announce | threadpool.h:79-80 | the wake-up follows the unlock |
| ThreadPool.WorkPool.Run | threadpool.h:91-112 | a run of the pool; the loop is left only stopped, and otherwise all the passes asked for are made unless the worker is blocked at a semaphore of 0 or a held mutex |
| ThreadPool.WorkPool.Turn | threadpool.h:94-111 | one pass ends at the stop flag, blocked at a semaphore of 0 or a held mutex, with a null request dropped, or with its request processed |
| ThreadPool.WorkPool.WakeUp | threadpool.h:96-97 | semaphore first, then mutex; blocked only at a value of 0, or while somebody holds it |
| ThreadPool.WorkPool.Front | threadpool.h:98-103 | the queue is not empty at line 98 nor at line 103, whatever the others did in between |
| ThreadPool.WorkPool.PopFront | threadpool.h:104-105 | what is popped is what was read |
| ThreadPool.WorkPool.Handle | threadpool.h:106-110 | a null request is dropped, any other is processed by this thread |
| SortedModel.Position | lst_timer.h:134-139 | the number of timers in front that expire by then: all before it do, the next does not |
| SortedModel.InsertSorted | lst_timer.h:45-64 | inserting keeps order |
| SortedModel.WalkIsInsert | lst_timer.h:151-175 | the walk that never looks at the head finds the right place whenever the head is not later |
| SortedModel.PostponeReinserts | lst_timer.h:65-90 | for a raised expiry, staying or moving, the result is removing the timer and inserting it anew |
| SortedModel.AdjustSortedIff | lst_timer.h:65-90 | for any new expiry, the list stays sorted if and only if it is not below that of the timer in front |
| SortedModel.AdvancingUnsorts | lst_timer.h:71-75 | a list that advancing a timer leaves unsorted |
| SortedModel.TickFiresExpired | lst_timer.h:125-149 | a tick fires exactly the timers with `expire <= cur`, in list order, and keeps exactly the others |
| SortedModel.RunSorted | lst_timer.h:45-149 | every run of add, postpone, delete and tick keeps order |
| SortedModel.RunConserves | lst_timer.h:45-149 | over every run, the list holds the timers added and not removed, as multisets |
| SortedList.ChainPut | lst_timer.h:157-174 | the four link assignments put the node into a mirrored chain |
| SortedList.ChainCut | lst_timer.h:97-122 | the neighbours' assignments take it out of one |
| SortedList.SortTimerList.constructor | lst_timer.h:34-34 | an empty list |
| SortedList.SortTimerList.FindPlace | lst_timer.h:153-167 | the walk stops in front of the first later timer behind the head |
| SortedList.SortTimerList.InsertWalking | lst_timer.h:151-175 | the timer goes there, `tail` following if it is the end, whatever its links held |
| SortedList.SortTimerList.AddTimer | lst_timer.h:45-64 | the list's timers are the old ones with the new inserted by expiry; a stale `tail` does no harm |
| SortedList.SortTimerList.Unlink | lst_timer.h:97-123 | only node, head, last or middle, the rest stays a mirrored chain with a right `tail` |
| SortedList.SortTimerList.DelTimer | lst_timer.h:91-124 | exactly this timer is taken out and released; nothing for null |
| SortedList.SortTimerList.AdjustTimer | lst_timer.h:65-90 | the pointer code computes `Adjust`, on unsorted lists too, and keeps the same nodes; nothing for null |
| SortedList.SortTimerList.AdjustAt | lst_timer.h:71-89 | the timer stays if it is last or before its successor, and is walked to its place otherwise |
| SortedList.SortTimerList.Reinsert | lst_timer.h:77-89 | unlinking and walking anew keeps all nodes |
| SortedList.SortTimerList.FireNext | lst_timer.h:140-147 | the head is called back, taken out and released, the walk going on at the new head |
| SortedList.SortTimerList.FireExpired | lst_timer.h:132-148 | the loop stops at the first timer that has not expired, having released exactly those before it |
| SortedList.SortTimerList.Tick | lst_timer.h:125-149 | fired and left are a split of the list at that timer; exactly the fired are released; `tail` is not reset |
| SortedList.SortTimerList.Destroy | lst_timer.h:35-44 | every node left is released, none twice |
| IdleModel.NewestGoesLast | close_inactivate_conn.cpp:147-150 | with a clock that has not gone back, a timer set now goes to the end |
| IdleModel.AcceptRepresents | close_inactivate_conn.cpp:133-151 | accepting appends the connection's timer, and the list still is the table of last activities |
| IdleModel.DataRepresents | close_inactivate_conn.cpp:208-216 | data moves the connection's timer to the end with its new deadline |
| IdleModel.CutRepresents | close_inactivate_conn.cpp:188-207 | closing takes exactly its timer out |
| IdleModel.ExpireRepresents | close_inactivate_conn.cpp:62-66 | a tick takes out exactly the connections idle for `3 * TIMESLOT` or more |
| IdleModel.HandleRepresents | close_inactivate_conn.cpp:129-228 | every legal event keeps one timer per open connection, deadline `lastActivity + 3 * TIMESLOT`, in order of last activity |
| IdleModel.RunRepresents | close_inactivate_conn.cpp:121-229 | so does every legal run |
| IdleModel.RunsCompose | close_inactivate_conn.cpp:121-229 | list, table and closings of one run after another are those of the two together |
| IdleModel.ClosedWhenIdle | close_inactivate_conn.cpp:121-229 | over every run, a connection without further activity is closed by exactly one tick, the first at its deadline or later; one that is not open by none |
| IdleModel.ClosesInTime | close_inactivate_conn.cpp:62-66 | if every alarm is answered by a tick at most a delay after it was due, such a connection is closed at most one `TIMESLOT` and the delay after its deadline |
| IdleModel.AlarmsStaySet | close_inactivate_conn.cpp:62-66 | while the clock does not go back, the next alarm is never set later than a connection's deadline |
| IdleServer.ConnsAdjust | close_inactivate_conn.cpp:212-215 | the list operations do the same by descriptor as by node |
| IdleServer.WakeupMeans | close_inactivate_conn.cpp:131-222 | a new connection gets one timer, due in 15 seconds; data puts the connection's at the end, due in 15 seconds again; end of file and an error take it away; nothing else touches any |
| IdleServer.Server.constructor | close_inactivate_conn.cpp:115-119 | no connections, room for 65535, no flags up, the first alarm in 5 seconds |
| IdleServer.Server.Accept | close_inactivate_conn.cpp:133-151 | table entry, timer and list together |
| IdleServer.Server.Leave | close_inactivate_conn.cpp:190-207 | end of file or an error takes out the timer the table leads to |
| IdleServer.Server.Touch | close_inactivate_conn.cpp:208-216 | data postpones that timer, as `adjust_timer` requires |
| IdleServer.Server.TimeHandler | close_inactivate_conn.cpp:62-74 | the connections closed are exactly those idle for 15 seconds or more, in order, and the next alarm is in 5 seconds |
| IdleServer.Server.React | close_inactivate_conn.cpp:131-222 | one wake-up: that reaction, on the nodes of the list, the descriptor closed, and the flags |
| IdleServer.Server.ReactAll | close_inactivate_conn.cpp:129-223 | the wake-ups of a batch, in order, are the run of their events |
| IdleServer.Server.Batch | close_inactivate_conn.cpp:123-228 | a batch and the tick behind it are the run of its events: the list, the table and what is closed; the flags, and the alarm set exactly with a tick |
| IdleServer.Server.OneRound | close_inactivate_conn.cpp:121-229 | one pass of the outer loop takes the run on by its events |
| IdleServer.Server.Run | close_inactivate_conn.cpp:121-229 | the outer loop until SIGTERM: the list, the table, what is closed and the next alarm are those of the run of all events; a connection without further activity is closed by exactly one tick, the first at its deadline or later, and in time if alarms are answered promptly |
| MinHeap.RootIsLeast | min_heap.cpp:49-75 | in heap order the first entry is a minimum |
| MinHeap.LeastChild | min_heap.cpp:116-120 | the child chosen is one of the two and none is earlier |
| MinHeap.SiftDownRepairs | min_heap.cpp:110-131 | with order everywhere from `lo` on but at the hole, percolating restores it, keeps all entries and moves nothing in front |
| MinHeap.HeapifyMakesHeap | min_heap.cpp:64-74 | of any entries: heap order, an earliest in front, the same multiset |
| MinHeap.LiftOnce | min_heap.cpp:98-106 | one pass of the sift-up loop keeps order everywhere but at the moving hole |
| MinHeap.LiftRepairs | min_heap.cpp:98-106 | where the loop stops, storing the timer completes a heap of all the entries |
| MinHeap.InsertKeepsHeap | min_heap.cpp:85-107 | insertion as meant: heap order, and exactly the new timer added |
| MinHeap.InsertAllKeepsHeap | min_heap.cpp:85-107 | the same over any sequence of insertions |
| MinHeap.HoleKeepsOccupant | min_heap.cpp:98-106 | as written, the hole ends with what was there before |
| MinHeap.AsWrittenLosesTimer | min_heap.cpp:98-107 | so for every heap and timer the entries are never the old ones and the new |
| MinHeap.TimeHeap.constructor | min_heap.cpp:37-48 | an empty heap of this capacity |
| MinHeap.TimeHeap.InOrder | min_heap.cpp:110-131 | what heap order means on the array: no timer expires before the one at half its index, nor before the first |
| MinHeap.TimeHeap.FromTimers | min_heap.cpp:49-75 | refused exactly if the capacity is too small; otherwise a heap of exactly the given timers |
| MinHeap.TimeHeap.PercolateAll | min_heap.cpp:70-73 | the downward loop computes `Heapify` in place |
| MinHeap.TimeHeap.PercolateDown | min_heap.cpp:110-131 | the hole loop computes `SiftDown` in place and leaves the unused slots alone |
| MinHeap.TimeHeap.PickChild | min_heap.cpp:116-120 | it compares the right pair of children |
| MinHeap.TimeHeap.LiftParents | min_heap.cpp:97-106 | the sift-up loop computes `Lift` in place |
| MinHeap.TimeHeap.AddTimer | min_heap.cpp:85-107 | as meant, across growth: heap order, exactly one timer more, within capacity |
| MinHeap.TimeHeap.AddAll | min_heap.cpp:85-151 | one call after the other on one heap, across any number of doublings: heap order, and exactly the timers added |
| MinHeap.TimeHeap.AddTimerAsWritten | min_heap.cpp:85-107 | as written: what the array holds afterwards, which is not the multiset it should be; of capacity 0, more entries than slots |
| MinHeap.TimeHeap.Resize | min_heap.cpp:133-151 | twice the room, the same entries in the same places, for any capacity |

## Left out

- Integer widths: `int` and `time_t` are unbounded here; overflow of `rotation`, `expire`, `2 * capacity` or the clock is not modelled.
- Memory: `new` never fails.
- All `printf` output, but for the URL at `parse_http.cpp:116`, which is kept as the parser's result; in particular the host name of a `Host:` header.
- The bodies of callbacks and of `process()`, and callbacks that re-enter a timer container; the only callback in the repository closes a descriptor.
- `parse_http.cpp:233-237` and the socket set-up: a failed `recv` ends the loop like the end of the input; its message is not modelled.
- The `default` branch at `parse_http.cpp:173-176`: a state can only be one of the two.
- `strpbrk`, `strspn`, `strchr` and the case-insensitive comparisons are functions on the C string; the library's own loops are not modelled.
- `processpool_cgi.cpp:57-79`: the name of the program is the result; `access`, `fork`, `dup` and `execl` are not modelled, nor is `removefd` beyond the connection being given up.
- `threadpool.h:71`: `m_queuelocker.locker()` is modelled as `lock()`, which it is meant to be.
- `sem_wait`, `sem_post` and the mutex calls do not fail; they block or succeed.
- `cond` in `locker.h`: the pool does not use it.
- `lst_timer.h:77-88`: the unlinking inside `adjust_timer` is the assignments of `del_timer`; both are one method here.
- A descriptor that is reported again in the same batch after it was closed: events are for open connections, as epoll reports each descriptor once per call.
- A clock that goes back: the order by last activity needs that it does not.
- The heap's destructor and the time a `heap_timer` reads in its constructor.
- `http_conn.cpp`, `http_conn.h`, `web_server.cpp`: the parser repeats `parse_http.cpp`, and the rest is sockets and files.
- `processpool.h`, the chat servers, `deadlock.cpp`, `pv.cpp`, `thread_fork.cpp` and the `test_*` programs: process control and system calls with little state of their own.
- The pool's destructor, and the creation and detaching of threads; `m_stop` can be set at any moment by a step of its own.
- Fairness of the scheduler: draining is stated of every run that comes to rest, with a measure that every step lowers.
- Blocking for ever: `Append` and `Turn` return without an answer when the thread is still blocked, and `Run` is watched for a given number of passes.
- `close_inactivate_conn.cpp`: epoll registration, failed `accept`, descriptors of 65535 and more, the shadowed `epollfd`, the receive buffer and the address; when a signal is delivered is up to the wake-ups given; that alarms come promptly is a condition of `ClosesInTime`, not a result.
- MinHeap.TimeHeap.AddTimer: proved for the insertion as meant, and for a timer only in a heap with capacity, since in one of capacity 0 the store would be outside the array; `AddTimerAsWritten` is the source's, for every capacity.
- The bodies of `tick`, `add_timer`, `adjust_timer`, `append`, `run` and the constructors are split over several methods each; the source has one body.
- PoolDraining.CanDrain: for a stopped pool the condition is the one under which every run drains; a pool in which only some runs do, because a full queue refuses a call in time, is not characterised.
- SortedList: what runs of the list come to is stated of one object through the event loop that uses it (`IdleServer.Server.Run`), not by a method of its own.
