/** How close_inactivate_conn.cpp uses the timer list: one timer per open connection, set to the last activity
    plus three time slots, and a tick that closes what has expired. The reference is a table of last activities. */
module IdleModel {
  import opened Common
  import opened SortedModel

  const TIMESLOT := 5

  /** The idle time after which a tick closes a connection. */
  const LIMIT := 3 * TIMESLOT

  /** The time at which a connection last active at `now` is to be closed. */
  function Deadline(now: int): int {
    now + LIMIT
  }

  type Fd = nat

  /** The time of the last activity of every open connection. */
  type Activity = map<Fd, int>

  datatype Event = Accept(fd: Fd, now: int) | Data(fd: Fd, now: int) | Close(fd: Fd) | Expire(now: int)

  // ---------- The reference ----------

  ghost function IdleAt(last: Activity, now: int): set<Fd> {
    set fd | fd in last && now - last[fd] >= LIMIT
  }

  ghost function Record(last: Activity, e: Event): Activity {
    match e
    case Accept(fd, now) => last[fd := now]
    case Data(fd, now) => last[fd := now]
    case Close(fd) => last - {fd}
    case Expire(now) => last - IdleAt(last, now)
  }

  /** An accepted descriptor is not open, an event is for one that is, and the clock has not gone back. */
  ghost predicate Legal(last: Activity, e: Event) {
    match e
    case Accept(fd, now) => fd !in last && Reached(last, now)
    case Data(fd, now) => fd in last && Reached(last, now)
    case Close(fd) => fd in last
    case Expire(now) => Reached(last, now)
  }

  ghost predicate Reached(last: Activity, now: int) {
    forall fd :: fd in last ==> last[fd] <= now
  }

  // ---------- The list ----------

  ghost function IndexOf(s: seq<Timer<Fd>>, fd: Fd): (i: nat)
    ensures i <= |s| && (i < |s| ==> s[i].id == fd) && forall j :: 0 <= j < i ==> s[j].id != fd
  {
    if s == [] || s[0].id == fd then 0 else 1 + IndexOf(s[1..], fd)
  }

  /** What the event does to the timer list, by the list's own operations. */
  ghost function Handle(s: seq<Timer<Fd>>, e: Event): seq<Timer<Fd>> {
    match e
    case Accept(fd, now) => Insert(s, Timer(fd, Deadline(now)))
    case Data(fd, now) =>
      var i := IndexOf(s, fd);
      if i < |s| then Adjust(Reset(s, i, Deadline(now)), i) else s
    case Close(fd) => if IndexOf(s, fd) < |s| then Cut(s, IndexOf(s, fd)) else s
    case Expire(now) => Left(s, now)
  }

  /** The list is the table: one timer per open connection, its expiry LIMIT behind the last activity, the
      longest idle first. */
  ghost predicate Represents(s: seq<Timer<Fd>>, last: Activity) {
    Sorted(s) && OnePerFd(s) && Dated(s, last) && Covers(s, last)
  }

  ghost predicate OnePerFd(s: seq<Timer<Fd>>) {
    forall j, k :: 0 <= j < k < |s| ==> s[j].id != s[k].id
  }

  ghost predicate Dated(s: seq<Timer<Fd>>, last: Activity) {
    forall k :: 0 <= k < |s| ==> s[k].id in last && s[k].expire == Deadline(last[s[k].id])
  }

  ghost predicate Covers(s: seq<Timer<Fd>>, last: Activity) {
    forall fd :: fd in last ==> IndexOf(s, fd) < |s|
  }

  lemma IndexIs(s: seq<Timer<Fd>>, fd: Fd, i: nat)
    requires i < |s| && s[i].id == fd && forall j :: 0 <= j < |s| && j != i ==> s[j].id != fd
    ensures IndexOf(s, fd) == i
  {
  }

  lemma Found(s: seq<Timer<Fd>>, fd: Fd, k: nat)
    requires k < |s| && s[k].id == fd
    ensures IndexOf(s, fd) < |s|
  {
  }

  /** With a clock that has not gone back, a timer set now goes to the very end. */
  lemma NewestGoesLast(s: seq<Timer<Fd>>, t: Timer<Fd>)
    requires forall k :: 0 <= k < |s| ==> s[k].expire <= t.expire
    ensures Insert(s, t) == s + [t]
  {
    PositionIs(s, t.expire, |s|);
  }

  lemma AcceptRepresents(s: seq<Timer<Fd>>, last: Activity, fd: Fd, now: int)
    requires Represents(s, last) && fd !in last && Reached(last, now)
    ensures Insert(s, Timer(fd, Deadline(now))) == s + [Timer(fd, Deadline(now))]
    ensures Represents(s + [Timer(fd, Deadline(now))], last[fd := now])
  {
    hide IndexOf, Insert;
    var t := Timer(fd, Deadline(now));
    NewestGoesLast(s, t);
    var r := s + [t];
    forall f | f in last || f == fd
      ensures IndexOf(r, f) < |r|
    {
      Found(r, f, if f == fd then |s| else IndexOf(s, f));
    }
  }

  lemma CutAt<T>(s: seq<T>, i: nat)
    requires i < |s|
    ensures |Cut(s, i)| == |s| - 1
    ensures forall k :: 0 <= k < |s| - 1 ==> Cut(s, i)[k] == s[if k < i then k else k + 1]
  {
  }

  lemma CutRepresents(s: seq<Timer<Fd>>, last: Activity, i: nat)
    requires Represents(s, last) && i < |s|
    ensures Represents(Cut(s, i), last - {s[i].id})
  {
    hide OnePerFd, Dated, Covers, Sorted, Cut;
    CutSorted(s, i);
    CutDated(s, last, i);
    CutCovers(s, last, i);
  }

  lemma CutDated(s: seq<Timer<Fd>>, last: Activity, i: nat)
    requires OnePerFd(s) && Dated(s, last) && i < |s|
    ensures OnePerFd(Cut(s, i)) && Dated(Cut(s, i), last - {s[i].id})
  {
    var r := Cut(s, i);
    CutAt(s, i);
    hide Cut;
    forall j, k | 0 <= j < k < |r|
      ensures r[j].id != r[k].id
    {
      assert s[if j < i then j else j + 1].id != s[if k < i then k else k + 1].id;
    }
    forall k | 0 <= k < |r|
      ensures r[k].id in last && r[k].id != s[i].id && r[k].expire == Deadline(last[r[k].id])
    {
      assert r[k] == s[if k < i then k else k + 1];
    }
  }

  lemma CutCovers(s: seq<Timer<Fd>>, last: Activity, i: nat)
    requires Covers(s, last) && i < |s|
    ensures Covers(Cut(s, i), last - {s[i].id})
  {
    var r := Cut(s, i);
    CutAt(s, i);
    hide IndexOf, Cut;
    forall f | f in last && f != s[i].id
      ensures IndexOf(r, f) < |r|
    {
      var j := IndexOf(s, f);
      Found(r, f, if j < i then j else j - 1);
    }
  }

  /** Activity moves the connection's timer to the very end. */
  lemma DataRepresents(s: seq<Timer<Fd>>, last: Activity, fd: Fd, now: int)
    requires Represents(s, last) && fd in last && Reached(last, now)
    ensures var i := IndexOf(s, fd);
            Adjust(Reset(s, i, Deadline(now)), i) == Cut(s, i) + [Timer(fd, Deadline(now))]
    ensures Represents(Cut(s, IndexOf(s, fd)) + [Timer(fd, Deadline(now))], last[fd := now])
  {
    var i := IndexOf(s, fd);
    InTable(s, last, fd);
    assert Reached(last - {fd}, now) && s[i].expire <= Deadline(now);
    SetAgain(last, fd, now);
    hide IndexOf, Represents, Reached, Cut, Adjust, Insert, Sorted;
    CutRepresents(s, last, i);
    AcceptRepresents(Cut(s, i), last - {fd}, fd, now);
    SortedTable(s, last);
    PostponeReinserts(s, i, Deadline(now));
  }

  lemma SetAgain(last: Activity, fd: Fd, now: int)
    ensures (last - {fd})[fd := now] == last[fd := now]
  {
  }

  lemma SortedTable(s: seq<Timer<Fd>>, last: Activity)
    requires Represents(s, last)
    ensures Sorted(s)
  {
  }

  lemma SuffixRepresents(s: seq<Timer<Fd>>, last: Activity, k: nat, gone: set<Fd>)
    requires Represents(s, last) && k <= |s|
    requires forall fd :: fd in gone <==> fd in last && IndexOf(s, fd) < k
    ensures Represents(s[k..], last - gone)
  {
    hide IndexOf, OnePerFd, Dated, Covers, Sorted;
    SuffixSorted(s, k);
    SuffixDated(s, last, k, gone);
    SuffixCovers(s, last, k, gone);
  }

  lemma SuffixDated(s: seq<Timer<Fd>>, last: Activity, k: nat, gone: set<Fd>)
    requires OnePerFd(s) && Dated(s, last) && k <= |s|
    requires forall fd :: fd in gone ==> fd in last && IndexOf(s, fd) < k
    ensures OnePerFd(s[k..]) && Dated(s[k..], last - gone)
  {
    hide IndexOf;
    var r := s[k..];
    forall j | 0 <= j < |r|
      ensures r[j].id in last - gone
    {
      IndexIs(s, r[j].id, k + j);
    }
  }

  lemma SuffixCovers(s: seq<Timer<Fd>>, last: Activity, k: nat, gone: set<Fd>)
    requires Covers(s, last) && k <= |s|
    requires forall fd :: fd in gone <==> fd in last && IndexOf(s, fd) < k
    ensures Covers(s[k..], last - gone)
  {
    hide IndexOf;
    forall f | f in last - gone
      ensures IndexOf(s[k..], f) < |s[k..]|
    {
      Found(s[k..], f, IndexOf(s, f) - k);
    }
  }

  /** A tick closes exactly the connections that were idle for at least LIMIT. */
  lemma ExpireRepresents(s: seq<Timer<Fd>>, last: Activity, now: int)
    requires Represents(s, last)
    ensures Represents(Left(s, now), last - IdleAt(last, now))
    ensures forall fd :: fd in IdleAt(last, now) <==> exists k :: 0 <= k < |Fired(s, now)| && Fired(s, now)[k].id == fd
  {
    hide IndexOf, Position;
    var k := Position(s, now);
    assert forall j :: k <= j < |s| ==> s[k].expire <= s[j].expire;
    forall fd
      ensures fd in IdleAt(last, now) <==> fd in last && IndexOf(s, fd) < k
    {
    }
    SuffixRepresents(s, last, k, IdleAt(last, now));
    forall fd | fd in IdleAt(last, now)
      ensures exists j :: 0 <= j < |Fired(s, now)| && Fired(s, now)[j].id == fd
    {
      assert Fired(s, now)[IndexOf(s, fd)].id == fd;
    }
  }

  // ---------- Every event, and whole runs ----------

  lemma HandleRepresents(s: seq<Timer<Fd>>, last: Activity, e: Event)
    requires Represents(s, last) && Legal(last, e)
    ensures Represents(Handle(s, e), Record(last, e))
  {
    hide Represents, Reached, Insert, Adjust, Cut, Left, IndexOf;
    match e
    case Accept(fd, now) => AcceptRepresents(s, last, fd, now);
    case Data(fd, now) =>
      InTable(s, last, fd);
      DataRepresents(s, last, fd, now);
    case Close(fd) =>
      InTable(s, last, fd);
      CutRepresents(s, last, IndexOf(s, fd));
    case Expire(now) => ExpireRepresents(s, last, now);
  }

  lemma InTable(s: seq<Timer<Fd>>, last: Activity, fd: Fd)
    requires Represents(s, last) && fd in last
    ensures IndexOf(s, fd) < |s| && s[IndexOf(s, fd)].id == fd
  {
  }

  ghost predicate LegalRun(last: Activity, es: seq<Event>)
    decreases |es|
  {
    es == [] || (Legal(last, es[0]) && LegalRun(Record(last, es[0]), es[1..]))
  }

  ghost function After(s: seq<Timer<Fd>>, es: seq<Event>): seq<Timer<Fd>>
    decreases |es|
  {
    if es == [] then s else After(Handle(s, es[0]), es[1..])
  }

  ghost function Activities(last: Activity, es: seq<Event>): Activity
    decreases |es|
  {
    if es == [] then last else Activities(Record(last, es[0]), es[1..])
  }

  /** One tick of a run: when it came, and which connections it closed, in this order. */
  datatype Closing = Closing(now: int, fds: seq<Fd>)

  ghost function IdsOf(s: seq<Timer<Fd>>): seq<Fd> {
    seq(|s|, k requires 0 <= k < |s| => s[k].id)
  }

  ghost function Closings(s: seq<Timer<Fd>>, es: seq<Event>): seq<Closing>
    decreases |es|
  {
    if es == [] then []
    else
      (if es[0].Expire? then [Closing(es[0].now, IdsOf(Fired(s, es[0].now)))] else [])
      + Closings(Handle(s, es[0]), es[1..])
  }

  lemma OneEventMore(s: seq<Timer<Fd>>, last: Activity, e: Event, es: seq<Event>)
    ensures LegalRun(last, [e] + es) <==> Legal(last, e) && LegalRun(Record(last, e), es)
    ensures After(s, [e] + es) == After(Handle(s, e), es)
    ensures Activities(last, [e] + es) == Activities(Record(last, e), es)
    ensures Closings(s, [e] + es) ==
              (if e.Expire? then [Closing(e.now, IdsOf(Fired(s, e.now)))] else []) + Closings(Handle(s, e), es)
  {
    assert ([e] + es)[1..] == es;
  }

  /** Runs compose: the list, the table and what is closed carry over. */
  lemma {:induction false} RunsCompose(s: seq<Timer<Fd>>, last: Activity, xs: seq<Event>, ys: seq<Event>)
    ensures LegalRun(last, xs + ys) <==> LegalRun(last, xs) && LegalRun(Activities(last, xs), ys)
    ensures After(s, xs + ys) == After(After(s, xs), ys)
    ensures Activities(last, xs + ys) == Activities(Activities(last, xs), ys)
    ensures Closings(s, xs + ys) == Closings(s, xs) + Closings(After(s, xs), ys)
    decreases |xs|
  {
    hide Legal, Record, Handle, Fired, IdsOf;
    if xs == [] {
      assert xs + ys == ys;
    } else {
      var e, zs := xs[0], xs[1..] + ys;
      assert xs + ys == [e] + zs && xs == [e] + xs[1..];
      OneEventMore(s, last, e, zs);
      OneEventMore(s, last, e, xs[1..]);
      hide LegalRun, After, Activities, Closings;
      RunsCompose(Handle(s, e), Record(last, e), xs[1..], ys);
    }
  }

  /** The run does nothing to this connection. */
  ghost predicate Untouched(es: seq<Event>, fd: Fd) {
    forall e :: e in es ==> e.Expire? || e.fd != fd
  }

  /** Main result: after every run the list holds one timer per open connection, in the order of their last
      activities, each set to LIMIT behind it. */
  lemma {:induction false} RunRepresents(s: seq<Timer<Fd>>, last: Activity, es: seq<Event>)
    requires Represents(s, last) && LegalRun(last, es)
    ensures Represents(After(s, es), Activities(last, es))
    decreases |es|
  {
    hide Represents, Handle;
    if es != [] {
      HandleRepresents(s, last, es[0]);
      RunRepresents(Handle(s, es[0]), Record(last, es[0]), es[1..]);
    }
  }

  /** The first tick of the run that comes at `due` or later, counted among its ticks. */
  ghost predicate FirstAt(cs: seq<Closing>, k: nat, due: int) {
    k < |cs| && cs[k].now >= due && forall j :: 0 <= j < k ==> cs[j].now < due
  }

  lemma ClosedNow(s: seq<Timer<Fd>>, last: Activity, now: int, fd: Fd)
    requires Represents(s, last)
    ensures fd in IdsOf(Fired(s, now)) <==> fd in last && now - last[fd] >= 15
  {
    var f := Fired(s, now);
    ExpireRepresents(s, last, now);
    if fd in IdsOf(f) {
      var k :| 0 <= k < |IdsOf(f)| && IdsOf(f)[k] == fd;
      assert f[k].id == fd;
    }
    if fd in IdleAt(last, now) {
      var k :| 0 <= k < |f| && f[k].id == fd;
      assert IdsOf(f)[k] == fd;
    }
  }

  /** Of the ticks in `cs`, the one that closes `fd` is the first at `due` or later; none does if it is not open. */
  ghost predicate ClosedAt(cs: seq<Closing>, fd: Fd, open: bool, due: int) {
    forall k :: 0 <= k < |cs| ==> (fd in cs[k].fds <==> open && FirstAt(cs, k, due))
  }

  lemma OneMoreTick(c: Closing, cs: seq<Closing>, fd: Fd, open: bool, due: int)
    requires fd in c.fds <==> open && c.now >= due
    requires ClosedAt(cs, fd, open && c.now < due, due)
    ensures ClosedAt([c] + cs, fd, open, due)
  {
    var r := [c] + cs;
    forall k | 0 <= k < |r|
      ensures fd in r[k].fds <==> open && FirstAt(r, k, due)
    {
      if k > 0 {
        assert r[k] == cs[k - 1];
        FirstBehind(c, cs, k - 1, due);
      }
    }
  }

  lemma FirstBehind(c: Closing, cs: seq<Closing>, k: nat, due: int)
    ensures FirstAt([c] + cs, k + 1, due) <==> c.now < due && FirstAt(cs, k, due)
  {
    var r := [c] + cs;
    assert r[0] == c && forall j :: 0 <= j < |cs| ==> r[j + 1] == cs[j];
    if FirstAt(r, k + 1, due) {
      forall j | 0 <= j < k
        ensures cs[j].now < due
      {
        assert r[j + 1] == cs[j];
      }
    }
  }

  /** When the connection is due, if it is open. */
  ghost function Due(last: Activity, fd: Fd): int {
    if fd in last then Deadline(last[fd]) else 0
  }

  lemma DueAfter(last: Activity, e: Event, fd: Fd)
    requires e.Expire? || e.fd != fd
    ensures fd in Record(last, e) <==> fd in last && (e.Expire? ==> e.now < Due(last, fd))
    ensures fd in Record(last, e) ==> Due(Record(last, e), fd) == Due(last, fd)
  {
  }

  lemma NeverDue(cs: seq<Closing>, fd: Fd, due: int, due': int)
    requires ClosedAt(cs, fd, false, due)
    ensures ClosedAt(cs, fd, false, due')
  {
  }

  /** Main result: over every run, a connection that sees no more activity is closed by exactly one tick, the
      first that comes LIMIT or more after its last activity; a connection that is not open is closed by none. */
  lemma {:induction false} ClosedWhenIdle(s: seq<Timer<Fd>>, last: Activity, es: seq<Event>, fd: Fd)
    requires Represents(s, last) && LegalRun(last, es) && Untouched(es, fd)
    ensures ClosedAt(Closings(s, es), fd, fd in last, Due(last, fd))
    decreases |es|
  {
    if es != [] {
      var e, s', last' := es[0], Handle(s, es[0]), Record(last, es[0]);
      assert e in es && Untouched(es[1..], fd);
      HandleRepresents(s, last, e);
      if e.Expire? {
        ClosedNow(s, last, e.now, fd);
      }
      hide Represents, Handle, ClosedAt, Record, Fired;
      ClosedWhenIdle(s', last', es[1..], fd);
      DueAfter(last, e, fd);
      var cs' := Closings(s', es[1..]);
      if fd !in last' {
        NeverDue(cs', fd, Due(last', fd), Due(last, fd));
      }
      if e.Expire? {
        OneMoreTick(Closing(e.now, IdsOf(Fired(s, e.now))), cs', fd, fd in last, Due(last, fd));
      } else {
        assert Closings(s, es) == cs';
      }
    }
  }

  // ---------- How late a connection is closed ----------

  /** When the next alarm is due, if it was `due` before these ticks: each sets it anew. */
  function NextAlarm(cs: seq<Closing>, due: int): int {
    if cs == [] then due else cs[|cs| - 1].now + TIMESLOT
  }

  /** Up to the time `end`, every alarm was answered by a tick at most `delay` after it was due. */
  ghost predicate Prompt(cs: seq<Closing>, due: int, end: int, delay: nat)
    decreases |cs|
  {
    if cs == [] then end <= due + delay
    else cs[0].now <= due + delay && Prompt(cs[1..], NextAlarm(cs[..1], due), end, delay)
  }

  lemma {:induction false} FirstInTime(cs: seq<Closing>, deadline: int, due: int, end: int, delay: nat) returns (k: nat)
    requires Prompt(cs, due, end, delay) && due <= deadline + TIMESLOT && deadline + TIMESLOT + delay < end
    ensures FirstAt(cs, k, deadline) && cs[k].now <= deadline + TIMESLOT + delay
    decreases |cs|
  {
    if cs[0].now >= deadline {
      k := 0;
    } else {
      var i := FirstInTime(cs[1..], deadline, cs[0].now + TIMESLOT, end, delay);
      assert cs == [cs[0]] + cs[1..];
      FirstBehind(cs[0], cs[1..], i, deadline);
      k := i + 1;
    }
  }

  /** One of the ticks closes the connection, not before its deadline and at most a slot and the delay after it. */
  ghost predicate ClosedInTime(cs: seq<Closing>, fd: Fd, deadline: int, delay: nat) {
    exists k :: 0 <= k < |cs| && fd in cs[k].fds && deadline <= cs[k].now <= deadline + TIMESLOT + delay
  }

  /** Alarms were set no later than any open connection is due. */
  ghost predicate AlarmSet(last: Activity, due: int) {
    forall fd :: fd in last ==> due - TIMESLOT <= Deadline(last[fd])
  }

  /** However long the delay, if the ticks were that prompt long enough. */
  ghost predicate InTime(cs: seq<Closing>, fd: Fd, deadline: int, due: int) {
    forall end: int, delay: nat :: Prompt(cs, due, end, delay) && deadline + TIMESLOT + delay < end ==>
                                     ClosedInTime(cs, fd, deadline, delay)
  }

  /** Main result: with alarms answered promptly, a connection that sees no more activity is closed at most a slot and
      the delay after its deadline. */
  lemma ClosesInTime(s: seq<Timer<Fd>>, last: Activity, es: seq<Event>, fd: Fd, due: int)
    requires Represents(s, last) && LegalRun(last, es) && Untouched(es, fd) && fd in last && AlarmSet(last, due)
    ensures InTime(Closings(s, es), fd, Deadline(last[fd]), due)
  {
    hide Represents, LegalRun, Closings, Untouched, Prompt;
    var cs, deadline := Closings(s, es), Deadline(last[fd]);
    ClosedWhenIdle(s, last, es, fd);
    forall end: int, delay: nat | Prompt(cs, due, end, delay) && deadline + TIMESLOT + delay < end
      ensures ClosedInTime(cs, fd, deadline, delay)
    {
      var k := FirstInTime(cs, deadline, due, end, delay);
    }
  }

  /** The clock: no event before `t`, none before an earlier one. */
  ghost predicate Clocked(es: seq<Event>, t: int)
    decreases |es|
  {
    es == [] || (if es[0].Close? then Clocked(es[1..], t) else t <= es[0].now && Clocked(es[1..], es[0].now))
  }

  /** As long as the clock does not go back, alarms go on being set in time. */
  lemma {:induction false} AlarmsStaySet(s: seq<Timer<Fd>>, last: Activity, es: seq<Event>, due: int, t: int)
    requires AlarmSet(last, due) && due - TIMESLOT <= t && Clocked(es, t)
    ensures AlarmSet(Activities(last, es), NextAlarm(Closings(s, es), due))
    decreases |es|
  {
    if es != [] {
      var e, due' := es[0], if es[0].Expire? then es[0].now + TIMESLOT else due;
      AlarmStep(last, e, due, t);
      assert es == [e] + es[1..];
      OneEventMore(s, last, e, es[1..]);
      hide AlarmSet, Record, Handle, Fired, IdsOf, Activities, Closings, NextAlarm;
      AlarmsStaySet(Handle(s, e), Record(last, e), es[1..], due', if e.Close? then t else e.now);
      if e.Expire? {
        AlarmAfterTick(Closing(e.now, IdsOf(Fired(s, e.now))), Closings(Handle(s, e), es[1..]), due);
      } else {
        assert [] + Closings(Handle(s, e), es[1..]) == Closings(Handle(s, e), es[1..]);
      }
    }
  }

  lemma AlarmAfterTick(c: Closing, cs: seq<Closing>, due: int)
    ensures NextAlarm([c] + cs, due) == NextAlarm(cs, c.now + TIMESLOT)
  {
  }

  lemma AlarmStep(last: Activity, e: Event, due: int, t: int)
    requires AlarmSet(last, due) && due - TIMESLOT <= t && (!e.Close? ==> t <= e.now)
    ensures AlarmSet(Record(last, e), if e.Expire? then e.now + TIMESLOT else due)
  {
  }
}
