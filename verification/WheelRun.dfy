/** A whole run of calls on one timing wheel, as its user makes them: what WheelModel proves of runs, stated of the
    object. */
module WheelRun {
  import opened Common
  import opened WheelModel
  import opened TimeWheel

  /** What the user asks for; a timer to cancel is named by which of the calls of `add_timer` returned it. */
  datatype Command = Start(timeout: int) | Cancel(k: nat) | Pass

  /** What came of it; cancelling a timer that has gone already is left out, as the user must. */
  datatype Outcome =
    | Started(handle: TwTimer?, timeout: int)
    | Cancelled(timer: TwTimer)
    | Ignored
    | Passed(fired: seq<TwTimer>)

  // ---------- What a log says ----------

  ghost function OpOf(e: Outcome): seq<Op<TwTimer>> {
    match e
    case Started(handle, timeout) => if handle == null then [] else [Op<TwTimer>.Add(handle, timeout)]
    case Cancelled(timer) => [Op.Del(timer)]
    case Ignored => []
    case Passed(_) => [Op.Advance]
  }

  ghost function FiringOf(e: Outcome): seq<seq<TwTimer>> {
    if e.Passed? then [e.fired] else []
  }

  function HandleOf(e: Outcome): (h: seq<TwTimer?>)
    ensures e.Started? ==> h == [e.handle]
    ensures !e.Started? ==> h == []
  {
    if e.Started? then [e.handle] else []
  }

  ghost function OpsOf(log: seq<Outcome>): seq<Op<TwTimer>> {
    if log == [] then [] else OpsOf(log[..|log| - 1]) + OpOf(log[|log| - 1])
  }

  ghost function FiringsOf(log: seq<Outcome>): seq<seq<TwTimer>> {
    if log == [] then [] else FiringsOf(log[..|log| - 1]) + FiringOf(log[|log| - 1])
  }

  ghost function HandlesOf(log: seq<Outcome>): seq<TwTimer?> {
    if log == [] then [] else HandlesOf(log[..|log| - 1]) + HandleOf(log[|log| - 1])
  }

  lemma OneMore(log: seq<Outcome>, e: Outcome)
    ensures OpsOf(log + [e]) == OpsOf(log) + OpOf(e) && FiringsOf(log + [e]) == FiringsOf(log) + FiringOf(e)
    ensures HandlesOf(log + [e]) == HandlesOf(log) + HandleOf(e)
  {
    assert (log + [e])[..|log|] == log;
  }

  /** `e` is what the command comes to when the countdowns are `c` and these timers were returned before. */
  ghost predicate Answers(command: Command, e: Outcome, handles: seq<TwTimer?>, c: Bag<TwTimer>) {
    match command
    case Start(timeout) => e.Started? && e.timeout == timeout && (e.handle == null <==> timeout < 0)
    case Cancel(k) =>
      if k < |handles| && handles[k] != null && handles[k] in c then e == Cancelled(handles[k]) else e == Ignored
    case Pass => e.Passed?
  }

  ghost predicate AllAnswered(commands: seq<Command>, log: seq<Outcome>, c: Bag<TwTimer>, si: nat)
    requires 0 < si
  {
    && |log| <= |commands|
    && forall i :: 0 <= i < |log| ==>
                     Answers(commands[i], log[i], HandlesOf(log[..i]), BagAfter(c, si, OpsOf(log[..i])))
  }

  lemma OneAnswerMore(commands: seq<Command>, log: seq<Outcome>, e: Outcome, c: Bag<TwTimer>, si: nat)
    requires 0 < si && |log| < |commands| && AllAnswered(commands, log, c, si)
    requires Answers(commands[|log|], e, HandlesOf(log), BagAfter(c, si, OpsOf(log)))
    ensures AllAnswered(commands, log + [e], c, si)
  {
    var r := log + [e];
    forall i | 0 <= i < |r|
      ensures Answers(commands[i], r[i], HandlesOf(r[..i]), BagAfter(c, si, OpsOf(r[..i])))
    {
      assert r[..i] == log[..i];
      assert i == |log| ==> log[..i] == log;
    }
  }

  /** The log is that of a run from `w` and its countdowns `b` to `w'` and `b'`. */
  ghost predicate Ran(w: Wheel<TwTimer>, b: Bag<TwTimer>, log: seq<Outcome>, w': Wheel<TwTimer>, b': Bag<TwTimer>)
    requires Sized(w)
  {
    && Legal(b, w.si, OpsOf(log)) && w' == After(w, OpsOf(log)) && b' == BagAfter(b, w.si, OpsOf(log))
    && FiringsOf(log) == Fires(w, OpsOf(log))
  }

  ghost predicate RanOnce(w: Wheel<TwTimer>, b: Bag<TwTimer>, e: Outcome, w': Wheel<TwTimer>, b': Bag<TwTimer>)
    requires Sized(w)
  {
    && Legal(b, w.si, OpOf(e)) && w' == After(w, OpOf(e)) && b' == BagAfter(b, w.si, OpOf(e))
    && FiringOf(e) == Fires(w, OpOf(e))
  }

  lemma RanOneMore(w: Wheel<TwTimer>, b: Bag<TwTimer>, log: seq<Outcome>, w': Wheel<TwTimer>, b': Bag<TwTimer>,
                   e: Outcome, w'': Wheel<TwTimer>, b'': Bag<TwTimer>)
    requires Sized(w) && Sized(w') && w'.si == w.si && Ran(w, b, log, w', b') && RanOnce(w', b', e, w'', b'')
    ensures Ran(w, b, log + [e], w'', b'')
  {
    OneMore(log, e);
    RunsCompose(w, OpsOf(log), OpOf(e));
    BagRunsCompose(b, w.si, OpsOf(log), OpOf(e));
  }

  /** What was started by the i-th command and is not cancelled later fires as its timeout says. */
  ghost predicate FiresAsSet(log: seq<Outcome>, i: nat, si: nat)
    requires i < |log| && 0 < si
  {
    var e := log[i];
    e.Started? && e.handle != null && e.timeout >= 0 ==>
      var timer: TwTimer := e.handle;
      LeavesAlone(OpsOf(log[i + 1..]), timer) ==>
        FiresOnce(FiringsOf(log), TickCount(OpsOf(log[..i])), TicksFor(e.timeout, si), timer)
  }

  lemma {:induction false} SplitLog(log: seq<Outcome>, i: nat)
    requires i < |log|
    ensures OpsOf(log) == OpsOf(log[..i]) + (OpOf(log[i]) + OpsOf(log[i + 1..]))
    decreases |log|
  {
    var front, last := log[..|log| - 1], log[|log| - 1];
    assert OpsOf(log) == OpsOf(front) + OpOf(last) && OpsOf([]) == [];
    hide OpsOf, OpOf, FiringsOf, FiringOf, HandlesOf, HandleOf;
    if i + 1 == |log| {
      assert log[i + 1..] == [];
    } else {
      SplitLog(front, i);
      SliceFront(log, i);
      OneMore(front[i + 1..], last);
      Regrouped(OpsOf(log[..i]), OpOf(log[i]), OpsOf(front[i + 1..]), OpOf(last));
    }
  }

  lemma SliceFront<T>(s: seq<T>, i: nat)
    requires i + 1 < |s|
    ensures var front, last := s[..|s| - 1], s[|s| - 1];
            front[..i] == s[..i] && front[i] == s[i] && s[i + 1..] == front[i + 1..] + [last]
  {
  }

  lemma Regrouped<T>(a: seq<T>, b: seq<T>, c: seq<T>, d: seq<T>)
    ensures a + (b + c) + d == a + (b + (c + d))
  {
  }

  lemma RunFires(w: Wheel<TwTimer>, b: Bag<TwTimer>, log: seq<Outcome>, w': Wheel<TwTimer>, b': Bag<TwTimer>, i: nat)
    requires WellFormed(w) && Refines(w, b) && Ran(w, b, log, w', b') && i < |log|
    ensures FiresAsSet(log, i, w.si)
  {
    hide Refines, WellFormed, Legal, Fires, After, BagAfter, FiresOnce, TickCount, LeavesAlone, OpsOf, FiringsOf;
    var e := log[i];
    if e.Started? && e.handle != null && e.timeout >= 0 {
      var timer: TwTimer := e.handle;
      if LeavesAlone(OpsOf(log[i + 1..]), timer) {
        SplitLog(log, i);
        FiringTimeFrom(w, b, OpsOf(log[..i]), timer, e.timeout, OpsOf(log[i + 1..]));
      }
    }
  }

  // ---------- The run ----------

  /** The user knows which of the timers returned have gone. */
  ghost predicate Known(c: Bag<TwTimer>, handles: seq<TwTimer?>, gone: set<TwTimer>) {
    forall k :: 0 <= k < |handles| && handles[k] != null ==> (handles[k] in c <==> handles[k] !in gone)
  }

  lemma StartRan(w: Wheel<TwTimer>, b: Bag<TwTimer>, timer: TwTimer, timeout: nat)
    requires Sized(w) && timer !in b
    ensures RanOnce(w, b, Started(timer, timeout), AddTimer(w, timer, timeout), b[timer := TicksFor(timeout, w.si)])
  {
    assert [Op<TwTimer>.Add(timer, timeout)][1..] == [];
  }

  lemma CancelRan(w: Wheel<TwTimer>, b: Bag<TwTimer>, timer: TwTimer)
    requires Sized(w) && timer in b
    ensures RanOnce(w, b, Cancelled(timer), DelTimer(w, timer), b - {timer})
  {
    assert [Op<TwTimer>.Del(timer)][1..] == [];
  }

  lemma PassRan(w: Wheel<TwTimer>, b: Bag<TwTimer>)
    requires Sized(w)
    ensures RanOnce(w, b, Passed(FiredBy(w)), WheelModel.Tick(w), BagTick(b))
  {
    assert [Op<TwTimer>.Advance][1..] == [];
  }

  lemma NothingRan(w: Wheel<TwTimer>, b: Bag<TwTimer>, e: Outcome)
    requires Sized(w) && OpOf(e) == [] && FiringOf(e) == []
    ensures RanOnce(w, b, e, w, b)
  {
  }

  /** The wheel and what its user knows of it. */
  ghost predicate Ready(wheel: TimeWheel, handles: seq<TwTimer?>, gone: set<TwTimer>)
    reads wheel, wheel.slots, wheel.nodes
  {
    && wheel.Valid() && wheel.Accounted() && Sized(wheel.model) && wheel.model.si == wheel.SI
    && Known(wheel.Countdowns(), handles, gone)
  }

  lemma KnownAfterPass(b: Bag<TwTimer>, handles: seq<TwTimer?>, gone: set<TwTimer>, fired: seq<TwTimer>)
    requires Known(b, handles, gone) && SameFiring(fired, BagFired(b))
    ensures Known(BagTick(b), handles, gone + set t | t in fired)
  {
  }

  /** `add_timer`. */
  method ObeyStart(wheel: TimeWheel, timeout: int, handles: seq<TwTimer?>, gone: set<TwTimer>)
    returns (e: Outcome, gone': set<TwTimer>)
    requires Ready(wheel, handles, gone)
    modifies wheel, wheel.slots, wheel.nodes
    ensures Ready(wheel, handles + HandleOf(e), gone') && Answers(Start(timeout), e, handles, old(wheel.Countdowns()))
    ensures RanOnce(old(wheel.model), old(wheel.Countdowns()), e, wheel.model, wheel.Countdowns())
    ensures forall t :: t in wheel.nodes ==> t in old(wheel.nodes) || fresh(t)
  {
    wheel.CountdownsOfNodes();
    hide TimeWheel.Valid, TimeWheel.Accounted, TimeWheel.Countdowns, TicksFor, WheelModel.AddTimer, RanOnce;
    ghost var w, b := wheel.model, wheel.Countdowns();
    var timer := wheel.AddTimer(timeout);
    e, gone' := Started(timer, timeout), gone;
    wheel.CountdownsOfNodes();
    wheel.ModelWellFormed();
    if timer != null {
      StartRan(w, b, timer, timeout);
    } else {
      NothingRan(w, b, e);
    }
  }

  /** `del_timer`, of a timer that has not gone. */
  method ObeyCancel(wheel: TimeWheel, k: nat, handles: seq<TwTimer?>, gone: set<TwTimer>)
    returns (e: Outcome, gone': set<TwTimer>)
    requires Ready(wheel, handles, gone)
    modifies wheel, wheel.slots, wheel.nodes
    ensures Ready(wheel, handles + HandleOf(e), gone') && Answers(Cancel(k), e, handles, old(wheel.Countdowns()))
    ensures RanOnce(old(wheel.model), old(wheel.Countdowns()), e, wheel.model, wheel.Countdowns())
    ensures forall t :: t in wheel.nodes ==> t in old(wheel.nodes) || fresh(t)
  {
    wheel.CountdownsOfNodes();
    hide TimeWheel.Valid, TimeWheel.Accounted, TimeWheel.Countdowns, WheelModel.DelTimer, RanOnce;
    ghost var w, b := wheel.model, wheel.Countdowns();
    if k < |handles| && handles[k] != null && handles[k] !in gone {
      wheel.DelTimer(handles[k]);
      e, gone' := Cancelled(handles[k]), gone + {handles[k]};
      wheel.CountdownsOfNodes();
      wheel.ModelWellFormed();
      CancelRan(w, b, handles[k]);
    } else {
      e, gone' := Ignored, gone;
      NothingRan(w, b, e);
    }
  }

  /** `tick`. */
  method ObeyPass(wheel: TimeWheel, handles: seq<TwTimer?>, gone: set<TwTimer>)
    returns (e: Outcome, gone': set<TwTimer>)
    requires Ready(wheel, handles, gone)
    modifies wheel, wheel.slots, wheel.nodes
    ensures Ready(wheel, handles + HandleOf(e), gone') && Answers(Pass, e, handles, old(wheel.Countdowns()))
    ensures RanOnce(old(wheel.model), old(wheel.Countdowns()), e, wheel.model, wheel.Countdowns())
    ensures forall t :: t in wheel.nodes ==> t in old(wheel.nodes) || fresh(t)
  {
    wheel.CountdownsOfNodes();
    hide TimeWheel.Valid, TimeWheel.Accounted, TimeWheel.Countdowns, WheelModel.Tick, FiredBy, RanOnce;
    hide Known, SameFiring, BagTick, BagFired;
    ghost var w, b := wheel.model, wheel.Countdowns();
    var fired := wheel.Tick();
    e, gone' := Passed(fired), gone + set t | t in fired;
    assert handles + HandleOf(e) == handles;
    KnownAfterPass(b, handles, gone, fired);
    wheel.CountdownsOfNodes();
    wheel.ModelWellFormed();
    PassRan(w, b);
  }

  /** One call, whatever it is. */
  method Obey(wheel: TimeWheel, command: Command, handles: seq<TwTimer?>, gone: set<TwTimer>)
    returns (e: Outcome, gone': set<TwTimer>)
    requires Ready(wheel, handles, gone)
    modifies wheel, wheel.slots, wheel.nodes
    ensures Ready(wheel, handles + HandleOf(e), gone') && Answers(command, e, handles, old(wheel.Countdowns()))
    ensures RanOnce(old(wheel.model), old(wheel.Countdowns()), e, wheel.model, wheel.Countdowns())
    ensures forall t :: t in wheel.nodes ==> t in old(wheel.nodes) || fresh(t)
  {
    hide Ready, RanOnce, Answers;
    match command {
      case Start(timeout) =>
        e, gone' := ObeyStart(wheel, timeout, handles, gone);
      case Cancel(k) =>
        e, gone' := ObeyCancel(wheel, k, handles, gone);
      case Pass =>
        e, gone' := ObeyPass(wheel, handles, gone);
    }
  }

  /** Main result, of the object: over every run of calls, each answered as it should be, the wheel and the countdowns
      read off its nodes are what the calls make of them; every timer left alone fires once, when its timeout says; and
      every timer is still linked, deleted or fired, exactly once. */
  method Run(wheel: TimeWheel, commands: seq<Command>) returns (log: seq<Outcome>)
    requires wheel.Valid() && wheel.Accounted() && Sized(wheel.model) && 0 < wheel.SI
    modifies wheel, wheel.slots, wheel.nodes
    ensures wheel.Valid() && wheel.Accounted() && |log| == |commands|
    ensures AllAnswered(commands, log, old(wheel.Countdowns()), wheel.SI)
    ensures Ran(old(wheel.model), old(wheel.Countdowns()), log, wheel.model, wheel.Countdowns())
    ensures forall i :: 0 <= i < |log| ==> FiresAsSet(log, i, wheel.SI)
    ensures multiset(old(wheel.Countdowns()).Keys) + Created(OpsOf(log))
         == multiset(wheel.Countdowns().Keys) + Deleted(OpsOf(log)) + AllFired(FiringsOf(log))
  {
    ghost var w, b := wheel.model, wheel.Countdowns();
    wheel.CountdownsAreTheBag();
    log := [];
    var handles: seq<TwTimer?>, gone: set<TwTimer> := [], {};
    for i := 0 to |commands|
      invariant |log| == i && handles == HandlesOf(log) && Ready(wheel, handles, gone)
      invariant AllAnswered(commands, log, b, wheel.SI) && Ran(w, b, log, wheel.model, wheel.Countdowns())
      invariant forall t :: t in wheel.nodes ==> t in old(wheel.nodes) || fresh(t)
    {
      ghost var w', b' := wheel.model, wheel.Countdowns();
      var e;
      e, gone := Obey(wheel, commands[i], handles, gone);
      RanOneMore(w, b, log, w', b', e, wheel.model, wheel.Countdowns());
      OneAnswerMore(commands, log, e, b, wheel.SI);
      OneMore(log, e);
      log, handles := log + [e], handles + HandleOf(e);
    }
    forall i | 0 <= i < |log|
      ensures FiresAsSet(log, i, wheel.SI)
    {
      RunFires(w, b, log, wheel.model, wheel.Countdowns(), i);
    }
    Conservation(w, b, OpsOf(log));
  }
}
