/** The work queue of threadpool.h as an interleaved step system: any number of producers inside `append` and of
    workers inside `run`, one mutex, one counting semaphore, one bounded FIFO. A step is one access to shared
    state, so what a thread has tested or read may be out of date when it acts on it; that it is not is proved,
    and rests on the mutex. Line 71 of the source reads `m_queuelocker.locker()` where `lock()` is meant, and is
    modelled as `lock()`. Locking and waiting are taken not to fail, only to block. */
module PoolModel {
  import opened Common

  /** Where a producer stands; a request is a pointer, possibly null. */
  datatype Producer<R> =
    | Idle                          // not inside append
    | ToLock(request: Option<R>)    // line 71
    | ToTest(request: Option<R>)    // line 72
    | ToRefuse                      // line 74
    | ToPush(request: Option<R>)    // line 77
    | ToUnlock                      // line 78
    | ToPost                        // line 79

  /** Where a worker stands, and the request in its local variable; the ticket says which of all accepted
      requests, counted from 0, it has read. */
  datatype Worker<R> =
    | AtLoop                                          // line 94
    | ToWait                                          // line 96
    | Woken                                           // line 97
    | AtQueue                                         // line 98
    | FoundEmpty                                      // line 100
    | ToFront                                         // line 103
    | ToPop(ticket: nat, request: Option<R>)          // line 104
    | Popped(ticket: nat, request: Option<R>)         // line 105
    | ToCheck(ticket: nat, request: Option<R>)        // line 106
    | ToProcess(ticket: nat, request: Option<R>)      // line 110
    | Finished
    | Broken                                          // front or pop_front of an empty list

  datatype Thread = P(i: nat) | W(i: nat)

  /** A call of `process`. */
  datatype Job<R> = Job(ticket: nat, request: Option<R>)

  /** The pool, with what has happened so far: every request pushed, every request popped, every call of
      `process`, everything a call of `append` returned, each in order. */
  datatype Pool<R> = Pool(
    queue: seq<Option<R>>, sem: nat, owner: Option<Thread>, stop: bool, maxRequests: nat,
    producers: seq<Producer<R>>, workers: seq<Worker<R>>,
    accepted: seq<Option<R>>, popped: seq<Option<R>>, processed: seq<Job<R>>, answers: seq<bool>)

  datatype Action<R> = Call(i: nat, request: Option<R>) | Append(i: nat) | Run(i: nat) | Stop

  /** A fresh pool: `producers` threads outside append, `workers` threads about to enter the loop. */
  function Fresh<R>(maxRequests: nat, producers: nat, workers: nat): (s: Pool<R>)
    ensures s.maxRequests == maxRequests && s.queue == [] && s.sem == 0 && s.owner == None && !s.stop
    ensures |s.producers| == producers && forall i :: 0 <= i < producers ==> s.producers[i].Idle?
    ensures |s.workers| == workers && forall i :: 0 <= i < workers ==> s.workers[i].AtLoop?
    ensures s.accepted == [] && s.popped == [] && s.processed == [] && s.answers == []
  {
    Pool([], 0, None, false, maxRequests, seq(producers, i => Idle), seq(workers, i => AtLoop), [], [], [], [])
  }

  predicate Enabled<R>(s: Pool<R>, a: Action<R>) {
    match a
    case Call(i, _) => i < |s.producers| && s.producers[i].Idle?
    case Append(i) => i < |s.producers| && !s.producers[i].Idle? && (s.producers[i].ToLock? ==> s.owner == None)
    case Run(i) =>
      && i < |s.workers| && !s.workers[i].Finished? && !s.workers[i].Broken?
      && (s.workers[i].ToWait? ==> s.sem > 0) && (s.workers[i].Woken? ==> s.owner == None)
    case Stop => !s.stop
  }

  function AppendStep<R>(s: Pool<R>, i: nat): Pool<R>
    requires Enabled(s, Append(i))
  {
    match s.producers[i]
    case ToLock(r) => s.(producers := s.producers[i := ToTest(r)], owner := Some(P(i)))
    case ToTest(r) => s.(producers := s.producers[i := if |s.queue| > s.maxRequests then ToRefuse else ToPush(r)])
    case ToRefuse => s.(producers := s.producers[i := Idle], owner := None, answers := s.answers + [false])
    case ToPush(r) => s.(producers := s.producers[i := ToUnlock], queue := s.queue + [r], accepted := s.accepted + [r])
    case ToUnlock => s.(producers := s.producers[i := ToPost], owner := None)
    case ToPost => s.(producers := s.producers[i := Idle], sem := s.sem + 1, answers := s.answers + [true])
  }

  function RunStep<R>(s: Pool<R>, i: nat): Pool<R>
    requires Enabled(s, Run(i))
  {
    match s.workers[i]
    case AtLoop => s.(workers := s.workers[i := if s.stop then Finished else ToWait])
    case ToWait => s.(workers := s.workers[i := Woken], sem := s.sem - 1)
    case Woken => s.(workers := s.workers[i := AtQueue], owner := Some(W(i)))
    case AtQueue => s.(workers := s.workers[i := if s.queue == [] then FoundEmpty else ToFront])
    case FoundEmpty => s.(workers := s.workers[i := AtLoop], owner := None)
    case ToFront => s.(workers := s.workers[i := if s.queue == [] then Broken else ToPop(|s.popped|, s.queue[0])])
    case ToPop(k, r) =>
      if s.queue == [] then s.(workers := s.workers[i := Broken])
      else s.(workers := s.workers[i := Popped(k, r)], queue := s.queue[1..], popped := s.popped + [s.queue[0]])
    case Popped(k, r) => s.(workers := s.workers[i := ToCheck(k, r)], owner := None)
    case ToCheck(k, r) => s.(workers := s.workers[i := if r == None then AtLoop else ToProcess(k, r)])
    case ToProcess(k, r) => s.(workers := s.workers[i := AtLoop], processed := s.processed + [Job(k, r)])
  }

  function Step<R>(s: Pool<R>, a: Action<R>): Pool<R>
    requires Enabled(s, a)
  {
    match a
    case Call(i, r) => s.(producers := s.producers[i := ToLock(r)])
    case Append(i) => AppendStep(s, i)
    case Run(i) => RunStep(s, i)
    case Stop => s.(stop := true)
  }

  // ---------- Counting threads ----------

  function Count<T>(s: seq<T>, f: T -> bool): nat {
    if s == [] then 0 else (if f(s[0]) then 1 else 0) + Count(s[1..], f)
  }

  lemma {:induction false} CountUpdate<T>(s: seq<T>, i: nat, x: T, f: T -> bool)
    requires i < |s|
    ensures Count(s[i := x], f) == Count(s, f) - (if f(s[i]) then 1 else 0) + (if f(x) then 1 else 0)
  {
    if i == 0 {
      assert s[0 := x][1..] == s[1..];
    } else {
      assert s[i := x][1..] == s[1..][i - 1 := x];
      CountUpdate(s[1..], i - 1, x, f);
    }
  }

  lemma {:induction false} CountLast<T>(s: seq<T>, x: T, f: T -> bool)
    ensures Count(s + [x], f) == Count(s, f) + (if f(x) then 1 else 0)
  {
    if s == [] {
      assert Count([x][1..], f) == 0 && s + [x] == [x];
    } else {
      assert (s + [x])[1..] == s[1..] + [x];
      CountLast(s[1..], x, f);
    }
  }

  lemma {:induction false} CountSome<T>(s: seq<T>, i: nat, f: T -> bool)
    requires i < |s| && f(s[i])
    ensures Count(s, f) > 0
  {
    if i > 0 {
      CountSome(s[1..], i - 1, f);
    }
  }

  lemma {:induction false} CountNone<T>(s: seq<T>, f: T -> bool)
    requires forall i :: 0 <= i < |s| ==> !f(s[i])
    ensures Count(s, f) == 0
  {
    if s != [] {
      CountNone(s[1..], f);
    }
  }

  /** A producer that has pushed and not yet posted. */
  predicate Owes<R>(p: Producer<R>) {
    p.ToUnlock? || p.ToPost?
  }

  /** A worker that has been let through by the semaphore and not yet popped. */
  predicate Claims<R>(w: Worker<R>) {
    w.Woken? || w.AtQueue? || w.ToFront? || w.ToPop?
  }

  function Owing<R>(s: Pool<R>): nat {
    Count(s.producers, Owes)
  }

  function Claiming<R>(s: Pool<R>): nat {
    Count(s.workers, Claims)
  }

  // ---------- The invariant ----------

  predicate ProducerLocked<R>(p: Producer<R>) {
    p.ToTest? || p.ToRefuse? || p.ToPush? || p.ToUnlock?
  }

  predicate WorkerLocked<R>(w: Worker<R>) {
    w.AtQueue? || w.FoundEmpty? || w.ToFront? || w.ToPop? || w.Popped? || w.Broken?
  }

  predicate Locked<R>(s: Pool<R>, t: Thread) {
    match t
    case P(i) => i < |s.producers| && ProducerLocked(s.producers[i])
    case W(i) => i < |s.workers| && WorkerLocked(s.workers[i])
  }

  /** The mutex belongs to the one thread that is in the locked region, if any. */
  ghost predicate Exclusive<R>(s: Pool<R>) {
    forall t :: Locked(s, t) <==> s.owner == Some(t)
  }

  /** queue length = semaphore value + pushed but not posted + woken but not popped. */
  predicate Balanced<R>(s: Pool<R>) {
    && |s.queue| == s.sem + Owing(s) + Claiming(s)
    && forall i :: 0 <= i < |s.workers| ==> !s.workers[i].FoundEmpty? && !s.workers[i].Broken?
  }

  /** What a thread has found out in the locked region is still so. */
  ghost predicate Stable<R>(s: Pool<R>) {
    && (forall i :: 0 <= i < |s.producers| && s.producers[i].ToPush? ==> |s.queue| <= s.maxRequests)
    && (forall i :: 0 <= i < |s.workers| && s.workers[i].ToPop? ==>
          s.queue != [] && s.workers[i].request == s.queue[0] && s.workers[i].ticket == |s.popped|)
  }

  ghost predicate Fifo<R>(s: Pool<R>) {
    s.accepted == s.popped + s.queue && |s.queue| <= s.maxRequests + 1
  }

  /** A worker that has a popped request. */
  predicate Busy<R>(w: Worker<R>) {
    w.Popped? || w.ToCheck? || w.ToProcess?
  }

  predicate Holds<R>(w: Worker<R>, k: nat) {
    Busy(w) && w.ticket == k
  }

  ghost predicate HeldBySome<R>(s: Pool<R>, k: nat) {
    exists i :: 0 <= i < |s.workers| && Holds(s.workers[i], k)
  }

  ghost predicate Processed<R>(s: Pool<R>, k: nat) {
    exists l :: 0 <= l < |s.processed| && s.processed[l].ticket == k
  }

  /** A worker has what was popped under its ticket, and nobody else has it or has had it. */
  ghost predicate Own<R>(s: Pool<R>, i: nat)
    requires i < |s.workers| && Busy(s.workers[i])
  {
    var w := s.workers[i];
    && w.ticket < |s.popped| && s.popped[w.ticket] == w.request && !Processed(s, w.ticket)
    && (w.ToProcess? ==> w.request.Some?)
    && forall j :: 0 <= j < |s.workers| && Holds(s.workers[j], w.ticket) ==> j == i
  }

  /** The l-th call of `process` was for a popped request that is not null, and for no other call's. */
  ghost predicate Proper<R>(s: Pool<R>, l: nat)
    requires l < |s.processed|
  {
    var job := s.processed[l];
    && job.ticket < |s.popped| && s.popped[job.ticket] == job.request && job.request.Some?
    && forall m :: 0 <= m < |s.processed| && s.processed[m].ticket == job.ticket ==> m == l
  }

  /** Every popped request is null, or in the hands of exactly one worker, or was processed exactly once. */
  ghost predicate Served<R>(s: Pool<R>) {
    && (forall i :: 0 <= i < |s.workers| && Busy(s.workers[i]) ==> Own(s, i))
    && (forall l :: 0 <= l < |s.processed| ==> Proper(s, l))
    && (forall k :: 0 <= k < |s.popped| && s.popped[k].Some? ==> Processed(s, k) || HeldBySome(s, k))
  }

  predicate Granted(answer: bool) {
    answer
  }

  /** Each accepted request was answered with true, or its producer has still to answer. */
  predicate Answered<R>(s: Pool<R>) {
    |s.accepted| == Count(s.answers, Granted) + Owing(s)
  }

  /** Workers leave the loop only once the pool is stopped. */
  predicate Alive<R>(s: Pool<R>) {
    !s.stop ==> forall i :: 0 <= i < |s.workers| ==> !s.workers[i].Finished?
  }

  ghost predicate Inv<R>(s: Pool<R>) {
    Exclusive(s) && Balanced(s) && Stable(s) && Fifo(s) && Served(s) && Answered(s) && Alive(s)
  }

  // ---------- Every step keeps it ----------

  lemma FreshInv<R>(maxRequests: nat, producers: nat, workers: nat)
    ensures Inv(Fresh<R>(maxRequests, producers, workers))
  {
    var s: Pool<R> := Fresh(maxRequests, producers, workers);
    CountNone(s.producers, Owes);
    CountNone(s.workers, Claims);
  }

  /** One thread moves; it takes the free mutex, gives up the one it has, or does neither. */
  lemma OneThreadMoves<R>(s: Pool<R>, s': Pool<R>, t: Thread)
    requires Exclusive(s)
    requires forall u :: u != t ==> (Locked(s', u) <==> Locked(s, u))
    requires || (s'.owner == s.owner && (Locked(s', t) <==> Locked(s, t)))
             || (s.owner == None && s'.owner == Some(t) && Locked(s', t))
             || (Locked(s, t) && !Locked(s', t) && s'.owner == None)
    ensures Exclusive(s')
  {
    assert Locked(s, t) <==> s.owner == Some(t);
  }

  lemma AppendExclusive<R>(s: Pool<R>, i: nat)
    requires Exclusive(s) && Enabled(s, Append(i))
    ensures Exclusive(AppendStep(s, i))
  {
    hide Exclusive;
    OneThreadMoves(s, AppendStep(s, i), P(i));
  }

  lemma RunExclusive<R>(s: Pool<R>, i: nat)
    requires Exclusive(s) && Enabled(s, Run(i))
    ensures Exclusive(RunStep(s, i))
  {
    hide Exclusive;
    OneThreadMoves(s, RunStep(s, i), W(i));
  }

  lemma ExclusiveStep<R>(s: Pool<R>, a: Action<R>)
    requires Exclusive(s) && Enabled(s, a)
    ensures Exclusive(Step(s, a))
  {
    hide Exclusive;
    match a
    case Call(i, _) => OneThreadMoves(s, Step(s, a), P(i));
    case Append(i) => AppendExclusive(s, i);
    case Run(i) => RunExclusive(s, i);
    case Stop => OneThreadMoves(s, Step(s, a), P(|s.producers|));
  }

  /** A woken worker finds the queue non-empty, up to its pop. */
  lemma ClaimMeansWork<R>(s: Pool<R>, i: nat)
    requires Balanced(s) && i < |s.workers| && Claims(s.workers[i])
    ensures s.queue != []
  {
    CountSome(s.workers, i, Claims);
  }

  lemma AppendBalanced<R>(s: Pool<R>, i: nat)
    requires Balanced(s) && Enabled(s, Append(i))
    ensures Balanced(AppendStep(s, i))
  {
    hide Count;
    CountUpdate(s.producers, i, AppendStep(s, i).producers[i], Owes);
  }

  lemma RunBalanced<R>(s: Pool<R>, i: nat)
    requires Balanced(s) && Enabled(s, Run(i))
    ensures Balanced(RunStep(s, i))
  {
    hide Count;
    if Claims(s.workers[i]) {
      ClaimMeansWork(s, i);
    }
    CountUpdate(s.workers, i, RunStep(s, i).workers[i], Claims);
  }

  lemma BalancedStep<R>(s: Pool<R>, a: Action<R>)
    requires Balanced(s) && Enabled(s, a)
    ensures Balanced(Step(s, a))
  {
    match a
    case Call(i, r) => CountUpdate(s.producers, i, ToLock(r), Owes);
    case Append(i) => AppendBalanced(s, i);
    case Run(i) => RunBalanced(s, i);
    case Stop =>
  }

  /** The thread that takes a step. */
  function Mover<R>(a: Action<R>): Option<Thread> {
    match a
    case Call(i, _) => Some(P(i))
    case Append(i) => Some(P(i))
    case Run(i) => Some(W(i))
    case Stop => None
  }

  /** Nobody moves the queue under a thread in the locked region. */
  lemma OthersKeepQueue<R>(s: Pool<R>, a: Action<R>, t: Thread)
    requires Exclusive(s) && Enabled(s, a) && Locked(s, t) && Mover(a) != Some(t)
    ensures Step(s, a).queue == s.queue && Step(s, a).popped == s.popped
  {
    if Mover(a).Some? {
      assert Locked(s, Mover(a).value) <==> s.owner == Mover(a);
    }
  }

  /** Here the mutex is needed: what was found out before is acted on when it is still so. */
  lemma StableStep<R>(s: Pool<R>, a: Action<R>)
    requires Exclusive(s) && Stable(s) && Enabled(s, a)
    ensures Stable(Step(s, a))
  {
    var s' := Step(s, a);
    forall i | 0 <= i < |s'.producers| && s'.producers[i].ToPush?
      ensures |s'.queue| <= s'.maxRequests
    {
      ProducerStable(s, a, i);
    }
    forall i | 0 <= i < |s'.workers| && s'.workers[i].ToPop?
      ensures s'.queue != [] && s'.workers[i].request == s'.queue[0] && s'.workers[i].ticket == |s'.popped|
    {
      WorkerStable(s, a, i);
    }
  }

  lemma ProducerStable<R>(s: Pool<R>, a: Action<R>, i: nat)
    requires Exclusive(s) && Stable(s) && Enabled(s, a)
    requires i < |Step(s, a).producers| && Step(s, a).producers[i].ToPush?
    ensures |Step(s, a).queue| <= s.maxRequests
  {
    hide Exclusive;
    if Mover(a) != Some(P(i)) {
      assert s.producers[i] == Step(s, a).producers[i];
      OthersKeepQueue(s, a, P(i));
    }
  }

  lemma WorkerStable<R>(s: Pool<R>, a: Action<R>, i: nat)
    requires Exclusive(s) && Stable(s) && Enabled(s, a)
    requires i < |Step(s, a).workers| && Step(s, a).workers[i].ToPop?
    ensures var s' := Step(s, a);
            s'.queue != [] && s'.workers[i].request == s'.queue[0] && s'.workers[i].ticket == |s'.popped|
  {
    hide Exclusive;
    if Mover(a) != Some(W(i)) {
      assert s.workers[i] == Step(s, a).workers[i];
      OthersKeepQueue(s, a, W(i));
    }
  }

  lemma FifoStep<R>(s: Pool<R>, a: Action<R>)
    requires Stable(s) && Fifo(s) && Enabled(s, a)
    ensures Fifo(Step(s, a))
  {
  }

  lemma ServedStep<R>(s: Pool<R>, a: Action<R>)
    requires Stable(s) && Served(s) && Enabled(s, a)
    ensures Served(Step(s, a))
  {
    hide Served, Stable;
    if a.Run? && s.workers[a.i].ToPop? && s.queue != [] {
      ServedPop(s, a.i);
    } else if a.Run? && s.workers[a.i].ToProcess? {
      ServedProcess(s, a.i);
    } else {
      ServedFrame(s, Step(s, a));
    }
  }

  /** The same requests stay in the same hands, but for null ones, which may be dropped. */
  lemma ServedFrame<R>(s: Pool<R>, s': Pool<R>)
    requires Served(s) && s'.popped == s.popped && s'.processed == s.processed && |s'.workers| == |s.workers|
    requires forall i :: 0 <= i < |s.workers| && Busy(s'.workers[i]) ==>
               && Busy(s.workers[i])
               && s'.workers[i].ticket == s.workers[i].ticket && s'.workers[i].request == s.workers[i].request
               && (s'.workers[i].ToProcess? ==> s.workers[i].ToProcess? || s.workers[i].request.Some?)
    requires forall i :: 0 <= i < |s.workers| && Busy(s.workers[i]) && !Busy(s'.workers[i]) ==>
               s.workers[i].request == None
    ensures Served(s')
  {
    forall k | 0 <= k < |s.popped| && s.popped[k].Some?
      ensures Processed(s', k) || HeldBySome(s', k)
    {
      if Processed(s, k) {
        var l :| 0 <= l < |s.processed| && s.processed[l].ticket == k;
        assert s'.processed[l].ticket == k;
      } else {
        assert HeldBySome(s, k);
        var i :| 0 <= i < |s.workers| && Holds(s.workers[i], k);
        assert Own(s, i) && Holds(s'.workers[i], k);
      }
    }
    forall i | 0 <= i < |s'.workers| && Busy(s'.workers[i])
      ensures Own(s', i)
    {
      assert Own(s, i);
    }
    forall l | 0 <= l < |s'.processed|
      ensures Proper(s', l)
    {
      assert Proper(s, l);
    }
  }

  /** The worker takes out what it has read. */
  lemma ServedPop<R>(s: Pool<R>, i: nat)
    requires Stable(s) && Served(s) && Enabled(s, Run(i)) && s.workers[i].ToPop? && s.queue != []
    ensures Served(RunStep(s, i))
  {
    var s', n := RunStep(s, i), |s.popped|;
    assert s'.workers[i] == Popped(n, s.queue[0]);
    forall l | 0 <= l < |s.processed|
      ensures Proper(s', l) && s.processed[l].ticket < n
    {
      assert Proper(s, l);
    }
    forall j | 0 <= j < |s'.workers| && Busy(s'.workers[j])
      ensures Own(s', j)
    {
      assert forall m :: 0 <= m < |s.workers| && Busy(s.workers[m]) ==> Own(s, m);
    }
    forall k | 0 <= k < |s'.popped| && s'.popped[k].Some?
      ensures Processed(s', k) || HeldBySome(s', k)
    {
      if k == n {
        assert Holds(s'.workers[i], k);
      } else if !Processed(s, k) {
        assert HeldBySome(s, k);
        var j :| 0 <= j < |s.workers| && Holds(s.workers[j], k);
        assert Holds(s'.workers[j], k);
      }
    }
  }

  lemma ServedProcess<R>(s: Pool<R>, i: nat)
    requires Served(s) && Enabled(s, Run(i)) && s.workers[i].ToProcess?
    ensures Served(RunStep(s, i))
  {
    var s', k0 := RunStep(s, i), s.workers[i].ticket;
    assert Own(s, i) && s'.processed == s.processed + [Job(k0, s.workers[i].request)];
    forall k
      ensures Processed(s', k) <==> k == k0 || Processed(s, k)
    {
      ProcessedOneMore(s, s', k);
    }
    forall l | 0 <= l < |s'.processed|
      ensures Proper(s', l)
    {
      assert l < |s.processed| ==> Proper(s, l) && Processed(s, s.processed[l].ticket);
    }
    forall j | 0 <= j < |s'.workers| && Busy(s'.workers[j])
      ensures Own(s', j)
    {
      assert Own(s, j) && !Holds(s.workers[j], k0);
    }
    forall k | 0 <= k < |s'.popped| && s'.popped[k].Some?
      ensures Processed(s', k) || HeldBySome(s', k)
    {
      if !Processed(s', k) {
        assert HeldBySome(s, k);
        var j :| 0 <= j < |s.workers| && Holds(s.workers[j], k);
        assert Holds(s'.workers[j], k);
      }
    }
  }

  lemma ProcessedOneMore<R>(s: Pool<R>, s': Pool<R>, k: nat)
    requires |s'.processed| == |s.processed| + 1 && s'.processed[..|s.processed|] == s.processed
    ensures Processed(s', k) <==> k == s'.processed[|s.processed|].ticket || Processed(s, k)
  {
    if Processed(s', k) {
      var l :| 0 <= l < |s'.processed| && s'.processed[l].ticket == k;
      assert l < |s.processed| ==> s.processed[l] == s'.processed[l];
    }
    if Processed(s, k) {
      var l :| 0 <= l < |s.processed| && s.processed[l].ticket == k;
      assert s'.processed[l] == s.processed[l];
    }
  }

  lemma AppendAnswered<R>(s: Pool<R>, i: nat)
    requires Answered(s) && Enabled(s, Append(i))
    ensures Answered(AppendStep(s, i))
  {
    hide Count;
    CountUpdate(s.producers, i, AppendStep(s, i).producers[i], Owes);
    CountLast(s.answers, s.producers[i].ToPost?, Granted);
  }

  lemma AnsweredStep<R>(s: Pool<R>, a: Action<R>)
    requires Answered(s) && Enabled(s, a)
    ensures Answered(Step(s, a))
  {
    hide Count;
    match a
    case Call(i, r) => CountUpdate(s.producers, i, ToLock(r), Owes);
    case Append(i) => AppendAnswered(s, i);
    case Run(_) =>
    case Stop =>
  }

  lemma AliveStep<R>(s: Pool<R>, a: Action<R>)
    requires Alive(s) && Enabled(s, a)
    ensures Alive(Step(s, a))
  {
  }

  lemma InvStep<R>(s: Pool<R>, a: Action<R>)
    requires Inv(s) && Enabled(s, a)
    ensures Inv(Step(s, a))
  {
    ExclusiveStep(s, a);
    BalancedStep(s, a);
    StableStep(s, a);
    FifoStep(s, a);
    ServedStep(s, a);
    AnsweredStep(s, a);
    AliveStep(s, a);
  }

  // ---------- Runs ----------

  predicate Legal<R>(s: Pool<R>, acts: seq<Action<R>>)
    decreases |acts|
  {
    acts == [] || (Enabled(s, acts[0]) && Legal(Step(s, acts[0]), acts[1..]))
  }

  function After<R>(s: Pool<R>, acts: seq<Action<R>>): Pool<R>
    requires Legal(s, acts)
    decreases |acts|
  {
    if acts == [] then s else After(Step(s, acts[0]), acts[1..])
  }

  lemma {:induction false} RunInv<R>(s: Pool<R>, acts: seq<Action<R>>)
    requires Inv(s) && Legal(s, acts)
    ensures Inv(After(s, acts))
    decreases |acts|
  {
    hide Inv;
    if acts != [] {
      InvStep(s, acts[0]);
      RunInv(Step(s, acts[0]), acts[1..]);
    }
  }

  lemma {:induction false} RunsCompose<R>(s: Pool<R>, xs: seq<Action<R>>, ys: seq<Action<R>>)
    requires Legal(s, xs) && Legal(After(s, xs), ys)
    ensures Legal(s, xs + ys) && After(s, xs + ys) == After(After(s, xs), ys)
    decreases |xs|
  {
    if xs == [] {
      assert xs + ys == ys;
    } else {
      assert (xs + ys)[0] == xs[0] && (xs + ys)[1..] == xs[1..] + ys;
      RunsCompose(Step(s, xs[0]), xs[1..], ys);
    }
  }

  /** `s` is what some interleaving makes of a fresh pool. */
  ghost predicate Reachable<R(!new)>(s: Pool<R>) {
    exists maxRequests, producers, workers, acts ::
      && Legal(Fresh<R>(maxRequests, producers, workers), acts)
      && s == After(Fresh<R>(maxRequests, producers, workers), acts)
  }

  lemma ReachableInv<R(!new)>(s: Pool<R>)
    requires Reachable(s)
    ensures Inv(s)
  {
    hide Inv;
    var m, p, w, acts :| Legal(Fresh<R>(m, p, w), acts) && s == After(Fresh<R>(m, p, w), acts);
    FreshInv<R>(m, p, w);
    RunInv(Fresh<R>(m, p, w), acts);
  }

  /** Main result: in every reachable interleaving the semaphore accounts for the queue; so a woken worker never
      takes the branch for an empty queue, nor reads or pops from an empty one, and queued work always has a
      wake-up under way. */
  lemma SemaphoreAccounting<R(!new)>(s: Pool<R>)
    requires Reachable(s)
    ensures |s.queue| == s.sem + Owing(s) + Claiming(s)
    ensures forall i :: 0 <= i < |s.workers| ==> !s.workers[i].FoundEmpty? && !s.workers[i].Broken?
    ensures forall i :: 0 <= i < |s.workers| && Claims(s.workers[i]) ==> s.queue != []
  {
    ReachableInv(s);
    forall i | 0 <= i < |s.workers| && Claims(s.workers[i])
      ensures s.queue != []
    {
      ClaimMeansWork(s, i);
    }
  }

  /** Main result: in every reachable interleaving at most one thread is in the locked region, a producer about to
      push still finds room, and a worker about to pop still finds in front what it has read. */
  lemma MutexProtects<R(!new)>(s: Pool<R>)
    requires Reachable(s)
    ensures forall t, u :: Locked(s, t) && Locked(s, u) ==> t == u
    ensures forall i :: 0 <= i < |s.producers| && s.producers[i].ToPush? ==> |s.queue| <= s.maxRequests
    ensures forall i :: 0 <= i < |s.workers| && s.workers[i].ToPop? ==>
              s.queue != [] && s.workers[i].request == s.queue[0]
  {
    ReachableInv(s);
  }

  /** Main result: requests are popped in the order they were accepted; the queue stays within the bound its `>`
      test allows; each call of `process` is for a request that is not null and was popped, no two calls are for
      the same one, and none is for one a worker still has; a popped request that is not null is processed or in
      a worker's hands. */
  lemma ExactlyOnceFifo<R(!new)>(s: Pool<R>)
    requires Reachable(s)
    ensures s.accepted == s.popped + s.queue && |s.queue| <= s.maxRequests + 1
    ensures forall l :: 0 <= l < |s.processed| ==>
              var job := s.processed[l];
              job.request.Some? && job.ticket < |s.popped| && s.accepted[job.ticket] == job.request
    ensures forall l, m :: 0 <= l < m < |s.processed| ==> s.processed[l].ticket != s.processed[m].ticket
    ensures forall i, j :: 0 <= i < j < |s.workers| && Busy(s.workers[i]) && Busy(s.workers[j]) ==>
              s.workers[i].ticket != s.workers[j].ticket
    ensures forall i :: 0 <= i < |s.workers| && Busy(s.workers[i]) ==> !Processed(s, s.workers[i].ticket)
    ensures forall k :: 0 <= k < |s.popped| && s.popped[k].Some? ==> Processed(s, k) || HeldBySome(s, k)
  {
    ReachableInv(s);
    forall l | 0 <= l < |s.processed|
      ensures Proper(s, l) && s.accepted[s.processed[l].ticket] == s.processed[l].request
    {
      assert Proper(s, l);
    }
    forall i | 0 <= i < |s.workers| && Busy(s.workers[i])
      ensures Own(s, i)
    {
    }
  }

  /** `append` returns true exactly as often as it accepts: in every reachable state, up to the producers that
      have pushed and not yet returned. */
  lemma AnswersAreTrue<R(!new)>(s: Pool<R>)
    requires Reachable(s)
    ensures |s.accepted| == Count(s.answers, Granted) + Owing(s)
  {
    ReachableInv(s);
  }
}
