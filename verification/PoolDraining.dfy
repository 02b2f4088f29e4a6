/** When the pool of threadpool.h gets its work done: every run without new calls ends, and what it has then served,
    in a running pool and in a stopped one. */
module PoolDraining {
  import opened Common
  import opened PoolModel

  // ---------- Every run ends ----------

  function Sum<T>(s: seq<T>, f: T -> nat): nat {
    if s == [] then 0 else f(s[0]) + Sum(s[1..], f)
  }

  lemma {:induction false} SumUpdate<T>(s: seq<T>, i: nat, x: T, f: T -> nat)
    requires i < |s|
    ensures Sum(s[i := x], f) == Sum(s, f) - f(s[i]) + f(x)
  {
    if i == 0 {
      assert s[0 := x][1..] == s[1..];
    } else {
      assert s[i := x][1..] == s[1..][i - 1 := x];
      SumUpdate(s[1..], i - 1, x, f);
    }
  }

  /** Steps a producer, or the wake-up it is about to cause, can still take. */
  function ProducerSteps<R>(p: Producer<R>): nat {
    match p
    case Idle => 0
    case ToLock(_) => 15
    case ToTest(_) => 14
    case ToPush(_) => 13
    case ToUnlock => 12
    case ToPost => 11
    case ToRefuse => 1
  }

  function WorkerSteps<R>(w: Worker<R>): nat {
    match w
    case Woken => 9
    case AtQueue => 8
    case ToFront => 7
    case ToPop(_, _) => 6
    case Popped(_, _) => 5
    case ToCheck(_, _) => 4
    case ToProcess(_, _) => 3
    case FoundEmpty => 2
    case AtLoop => 1
    case ToWait => 0
    case Finished => 0
    case Broken => 0
  }

  function Measure<R>(s: Pool<R>): nat {
    10 * s.sem + Sum(s.producers, ProducerSteps) + Sum(s.workers, WorkerSteps)
  }

  lemma AppendDrops<R>(s: Pool<R>, i: nat)
    requires Enabled(s, Append(i))
    ensures Measure(AppendStep(s, i)) < Measure(s)
  {
    hide Sum;
    SumUpdate(s.producers, i, AppendStep(s, i).producers[i], ProducerSteps);
  }

  lemma RunDrops<R>(s: Pool<R>, i: nat)
    requires Enabled(s, Run(i))
    ensures Measure(RunStep(s, i)) < Measure(s)
  {
    hide Sum;
    SumUpdate(s.workers, i, RunStep(s, i).workers[i], WorkerSteps);
  }

  predicate Internal<R>(a: Action<R>) {
    a.Append? || a.Run?
  }

  predicate AllInternal<R>(acts: seq<Action<R>>) {
    forall k :: 0 <= k < |acts| ==> Internal(acts[k])
  }

  /** Every step inside `append` or `run` brings the end nearer. */
  lemma MeasureDrops<R>(s: Pool<R>, a: Action<R>)
    requires Enabled(s, a) && Internal(a)
    ensures Measure(Step(s, a)) < Measure(s)
  {
    match a
    case Append(i) => AppendDrops(s, i);
    case Run(i) => RunDrops(s, i);
  }

  /** Without new calls, every run ends, whatever the interleaving. */
  lemma {:induction false} RunsEnd<R>(s: Pool<R>, acts: seq<Action<R>>)
    requires Legal(s, acts) && AllInternal(acts)
    ensures |acts| + Measure(After(s, acts)) <= Measure(s)
    decreases |acts|
  {
    if acts != [] {
      MeasureDrops(s, acts[0]);
      RunsEnd(Step(s, acts[0]), acts[1..]);
    }
  }

  /** No thread can take a step. */
  ghost predicate Quiet<R>(s: Pool<R>) {
    forall i: nat :: !Enabled(s, Append(i)) && !Enabled(s, Run(i))
  }

  /** And every run can be continued until it ends. */
  lemma {:induction false} ComesToRest<R>(s: Pool<R>) returns (acts: seq<Action<R>>)
    ensures Legal(s, acts) && AllInternal(acts) && Quiet(After(s, acts))
    decreases Measure(s)
  {
    hide Measure;
    if Quiet(s) {
      acts := [];
    } else {
      var i: nat :| Enabled(s, Append(i)) || Enabled(s, Run(i));
      var a: Action<R> := if Enabled(s, Append(i)) then Append(i) else Run(i);
      MeasureDrops(s, a);
      var rest := ComesToRest(Step(s, a));
      acts := [a] + rest;
      assert acts[1..] == rest;
    }
  }

  // ---------- What is left at rest ----------

  /** Everything accepted has been popped, and processed once unless it was null. */
  ghost predicate Drained<R>(s: Pool<R>) {
    && s.queue == [] && s.sem == 0 && s.owner == None && s.popped == s.accepted
    && (forall i :: 0 <= i < |s.producers| ==> s.producers[i].Idle?)
    && (forall i :: 0 <= i < |s.workers| ==> s.workers[i].ToWait? || s.workers[i].Finished?)
    && (forall k :: 0 <= k < |s.accepted| ==> (s.accepted[k].Some? <==> Processed(s, k)))
    && |s.accepted| == Count(s.answers, Granted)
  }

  /** Whoever holds the mutex is never blocked. */
  lemma LockedCanMove<R>(s: Pool<R>, t: Thread)
    requires Locked(s, t) && Balanced(s)
    ensures if t.P? then Enabled(s, Append(t.i)) else Enabled(s, Run(t.i))
  {
  }

  lemma QuietMeansFree<R>(s: Pool<R>)
    requires Exclusive(s) && Balanced(s) && Quiet(s)
    ensures s.owner == None
  {
    if s.owner.Some? {
      LockedCanMove(s, s.owner.value);
    }
  }

  /** At rest, a worker waits for the semaphore in vain, or has left the loop. */
  lemma QuietMeansParked<R>(s: Pool<R>)
    requires Exclusive(s) && Balanced(s) && Quiet(s)
    ensures s.owner == None
    ensures forall i :: 0 <= i < |s.producers| ==> s.producers[i].Idle?
    ensures forall i :: 0 <= i < |s.workers| ==> s.workers[i].Finished? || (s.workers[i].ToWait? && s.sem == 0)
    ensures |s.queue| == s.sem
  {
    QuietMeansFree(s);
    forall i | 0 <= i < |s.producers|
      ensures s.producers[i].Idle?
    {
      assert !Enabled(s, Append(i));
    }
    forall i | 0 <= i < |s.workers|
      ensures s.workers[i].Finished? || (s.workers[i].ToWait? && s.sem == 0)
    {
      assert !Enabled(s, Run(i));
    }
    CountNone(s.producers, Owes);
    CountNone(s.workers, Claims);
  }

  /** At rest, an empty queue means that everything was served. */
  lemma QuietEmptyMeansDrained<R>(s: Pool<R>)
    requires Inv(s) && Quiet(s) && s.queue == []
    ensures Drained(s)
  {
    QuietMeansParked(s);
    CountNone(s.producers, Owes);
    assert s.popped + [] == s.popped;
    forall k | 0 <= k < |s.accepted|
      ensures s.accepted[k].Some? <==> Processed(s, k)
    {
      if s.accepted[k].Some? {
        assert Processed(s, k) || HeldBySome(s, k);
      }
      if Processed(s, k) {
        var l :| 0 <= l < |s.processed| && s.processed[l].ticket == k;
        assert Proper(s, l);
      }
    }
  }

  /** Main result: a pool at rest, stopped or not, has served everything it accepted if some worker is still in
      the loop. */
  lemma QuietMeansDrained<R>(s: Pool<R>)
    requires Inv(s) && Quiet(s) && exists i :: 0 <= i < |s.workers| && !s.workers[i].Finished?
    ensures Drained(s)
  {
    QuietMeansParked(s);
    QuietEmptyMeansDrained(s);
  }

  // ---------- Running pools ----------

  lemma {:induction false} RunKeeps<R>(s: Pool<R>, acts: seq<Action<R>>)
    requires Legal(s, acts) && AllInternal(acts)
    ensures After(s, acts).stop == s.stop && |After(s, acts).workers| == |s.workers|
    ensures (forall i :: 0 <= i < |s.producers| ==> s.producers[i].Idle?) ==> After(s, acts).accepted == s.accepted
    decreases |acts|
  {
    if acts != [] {
      StepKeeps(s, acts[0]);
      RunKeeps(Step(s, acts[0]), acts[1..]);
    }
  }

  lemma StepKeeps<R>(s: Pool<R>, a: Action<R>)
    requires Enabled(s, a) && Internal(a)
    ensures Step(s, a).stop == s.stop && |Step(s, a).workers| == |s.workers|
    ensures (forall i :: 0 <= i < |s.producers| ==> s.producers[i].Idle?) ==>
              Step(s, a).accepted == s.accepted && Step(s, a).producers == s.producers
  {
  }

  /** Main result: whatever the interleaving, a running pool that has a worker and comes to rest is drained. */
  lemma RunningDrains<R>(s: Pool<R>, acts: seq<Action<R>>)
    requires Inv(s) && !s.stop && s.workers != []
    requires Legal(s, acts) && AllInternal(acts) && Quiet(After(s, acts))
    ensures Drained(After(s, acts))
  {
    hide Drained, Quiet;
    RunInv(s, acts);
    RunKeeps(s, acts);
    assert !After(s, acts).workers[0].Finished?;
    QuietMeansDrained(After(s, acts));
  }

  // ---------- Stopped pools ----------

  /** A worker that still pops, or will if the semaphore lets it. */
  predicate Pops<R>(w: Worker<R>) {
    w.ToWait? || Claims(w)
  }

  /** How many requests the workers of a stopped pool still take out. */
  function Popping<R>(s: Pool<R>): nat {
    Count(s.workers, Pops)
  }

  /** In a stopped pool, every pop costs a worker. */
  lemma StepUsesWorkers<R>(s: Pool<R>, a: Action<R>)
    requires Balanced(s) && Enabled(s, a) && Internal(a) && s.stop
    ensures var s' := Step(s, a);
            |s'.queue| - Popping(s') == |s.queue| - Popping(s) + |s'.accepted| - |s.accepted|
  {
    hide Count;
    if a.Run? {
      if Claims(s.workers[a.i]) {
        ClaimMeansWork(s, a.i);
      }
      CountUpdate(s.workers, a.i, RunStep(s, a.i).workers[a.i], Pops);
    }
  }

  lemma {:induction false} RunUsesWorkers<R>(s: Pool<R>, acts: seq<Action<R>>)
    requires Balanced(s) && s.stop && Legal(s, acts) && AllInternal(acts)
    ensures var s' := After(s, acts);
            |s'.queue| - Popping(s') == |s.queue| - Popping(s) + |s'.accepted| - |s.accepted|
    decreases |acts|
  {
    if acts != [] {
      BalancedStep(s, acts[0]);
      StepUsesWorkers(s, acts[0]);
      StepKeeps(s, acts[0]);
      hide Balanced, Popping;
      RunUsesWorkers(Step(s, acts[0]), acts[1..]);
    }
  }

  /** Main result: a stopped pool that comes to rest is drained if and only if the requests queued, and those
      still accepted on the way, were no more than the workers that still pop. */
  lemma StoppedDrainsIff<R>(s: Pool<R>, acts: seq<Action<R>>)
    requires Inv(s) && s.stop && Legal(s, acts) && AllInternal(acts) && Quiet(After(s, acts))
    ensures var s' := After(s, acts);
            Drained(s') <==> |s.queue| + |s'.accepted| - |s.accepted| <= Popping(s)
  {
    var s' := After(s, acts);
    RunInv(s, acts);
    RunUsesWorkers(s, acts);
    QuietMeansParked(s');
    if s'.queue == [] {
      hide Drained, Quiet, Inv;
      QuietEmptyMeansDrained(s');
    } else {
      CountNone(s'.workers, Pops);
    }
  }

  /** With nobody inside `append`, this can be read off the stopped state, and the interleaving has no part in it. */
  lemma StoppedIdleDrainsIff<R>(s: Pool<R>, acts: seq<Action<R>>)
    requires Inv(s) && s.stop && forall i :: 0 <= i < |s.producers| ==> s.producers[i].Idle?
    requires Legal(s, acts) && AllInternal(acts) && Quiet(After(s, acts))
    ensures Drained(After(s, acts)) <==> |s.queue| <= Popping(s)
  {
    RunKeeps(s, acts);
    hide Inv, Drained, Quiet, Popping;
    StoppedDrainsIff(s, acts);
  }

  /** A producer that may still push: it has not come to the test, or has passed it. */
  predicate MayPush<R>(p: Producer<R>) {
    p.ToLock? || p.ToPush?
  }

  /** A producer at the test. */
  predicate Tests<R>(p: Producer<R>) {
    p.ToTest?
  }

  /** How many requests may still be accepted of the calls already made; at the test it is the queue that decides. */
  function Coming<R>(s: Pool<R>): nat {
    Count(s.producers, MayPush) + if |s.queue| <= s.maxRequests then Count(s.producers, Tests) else 0
  }

  /** A step changes how many are coming by what it accepts; only taking the mutex with the queue full loses one. */
  lemma AppendComing<R>(s: Pool<R>, i: nat)
    requires Inv(s) && Enabled(s, Append(i))
    ensures var s' := AppendStep(s, i);
            var lost := if s.producers[i].ToLock? && |s.queue| > s.maxRequests then 1 else 0;
            |s'.accepted| + Coming(s') == |s.accepted| + Coming(s) - lost
  {
    hide Count, Inv;
    var s' := AppendStep(s, i);
    CountUpdate(s.producers, i, s'.producers[i], MayPush);
    CountUpdate(s.producers, i, s'.producers[i], Tests);
    if s.producers[i].ToPush? {
      PushAlone(s, i);
    }
  }

  /** Nobody tests while another thread pushes or pops. */
  lemma PushAlone<R>(s: Pool<R>, i: nat)
    requires Inv(s) && i < |s.producers| && s.producers[i].ToPush?
    ensures Count(s.producers, Tests) == 0
  {
    assert Locked(s, P(i));
    forall j | 0 <= j < |s.producers|
      ensures !Tests(s.producers[j])
    {
      assert Locked(s, P(j)) ==> j == i;
    }
    CountNone(s.producers, Tests);
  }

  lemma PopAlone<R>(s: Pool<R>, i: nat)
    requires Inv(s) && i < |s.workers| && s.workers[i].ToPop?
    ensures Count(s.producers, Tests) == 0
  {
    assert Locked(s, W(i));
    forall j | 0 <= j < |s.producers|
      ensures !Tests(s.producers[j])
    {
      assert !Locked(s, P(j));
    }
    CountNone(s.producers, Tests);
  }

  lemma RunComing<R>(s: Pool<R>, i: nat)
    requires Inv(s) && Enabled(s, Run(i))
    ensures RunStep(s, i).accepted == s.accepted && Coming(RunStep(s, i)) == Coming(s)
  {
    hide Count, Inv;
    if s.workers[i].ToPop? {
      PopAlone(s, i);
    }
  }

  lemma {:induction false} RunAccepts<R>(s: Pool<R>, acts: seq<Action<R>>)
    requires Inv(s) && Legal(s, acts) && AllInternal(acts)
    ensures |After(s, acts).accepted| + Coming(After(s, acts)) <= |s.accepted| + Coming(s)
    decreases |acts|
  {
    hide Inv, Coming;
    if acts != [] {
      match acts[0] {
        case Append(i) => AppendComing(s, i);
        case Run(i) => RunComing(s, i);
      }
      InvStep(s, acts[0]);
      RunAccepts(Step(s, acts[0]), acts[1..]);
    }
  }

  /** More to serve than workers that still pop. */
  predicate TooMany<R>(s: Pool<R>) {
    |s.queue| + Coming(s) > Popping(s)
  }

  lemma StaysTooMany<R>(s: Pool<R>, a: Action<R>)
    requires Inv(s) && s.stop && TooMany(s) && Enabled(s, a) && Internal(a)
    requires a.Append? && s.producers[a.i].ToLock? ==> |s.queue| <= s.maxRequests
    ensures TooMany(Step(s, a))
  {
    hide Coming, Popping;
    StepUsesWorkers(s, a);
    match a
    case Append(i) => AppendComing(s, i);
    case Run(i) => RunComing(s, i);
  }

  /** Every thread is at rest but for producers about to take the mutex. */
  ghost predicate Calm<R>(s: Pool<R>) {
    forall i: nat :: !Enabled(s, Run(i)) && (Enabled(s, Append(i)) ==> s.producers[i].ToLock?)
  }

  /** Then a queue that is not empty is left to nobody. */
  lemma CalmNobodyPops<R>(s: Pool<R>)
    requires Inv(s) && Calm(s) && s.queue != []
    ensures Popping(s) == 0
  {
    if s.owner.Some? {
      LockedCanMove(s, s.owner.value);
    }
    forall i | 0 <= i < |s.producers|
      ensures !Owes(s.producers[i])
    {
      assert Owes(s.producers[i]) ==> Enabled(s, Append(i));
    }
    forall i | 0 <= i < |s.workers|
      ensures !Claims(s.workers[i]) && (s.workers[i].ToWait? ==> s.sem == 0)
    {
      assert !Enabled(s, Run(i));
    }
    CountNone(s.producers, Owes);
    CountNone(s.workers, Claims);
    CountNone(s.workers, Pops);
  }

  /** With more to come than can be served some run leaves a request: the workers go first, and a producer takes the
      mutex only when they are at rest; then it finds room, or nobody is left to make some. */
  lemma {:induction false} SomeRunLeaves<R>(s: Pool<R>) returns (acts: seq<Action<R>>)
    requires Inv(s) && s.stop && TooMany(s)
    ensures Legal(s, acts) && AllInternal(acts) && Quiet(After(s, acts)) && !Drained(After(s, acts))
    decreases Measure(s)
  {
    hide Inv, Measure, TooMany;
    if i: nat :| Enabled(s, Run(i)) {
      acts := LeaveAfter(s, Run(i));
    } else if i: nat :| Enabled(s, Append(i)) && !s.producers[i].ToLock? {
      acts := LeaveAfter(s, Append(i));
    } else if i: nat :| Enabled(s, Append(i)) && |s.queue| <= s.maxRequests {
      acts := LeaveAfter(s, Append(i));
    } else {
      acts := ComesToRest(s);
      LeftAtRest(s, acts);
    }
  }

  lemma {:induction false} LeaveAfter<R>(s: Pool<R>, a: Action<R>) returns (acts: seq<Action<R>>)
    requires Inv(s) && s.stop && TooMany(s) && Enabled(s, a) && Internal(a)
    requires a.Append? && s.producers[a.i].ToLock? ==> |s.queue| <= s.maxRequests
    ensures Legal(s, acts) && AllInternal(acts) && Quiet(After(s, acts)) && !Drained(After(s, acts))
    decreases Measure(s), 0
  {
    hide Inv, Measure, TooMany, Drained, Quiet;
    StaysTooMany(s, a);
    MeasureDrops(s, a);
    InvStep(s, a);
    StepKeeps(s, a);
    var rest := SomeRunLeaves(Step(s, a));
    OneMore(s, a, rest);
    acts := [a] + rest;
  }

  lemma LeftAtRest<R>(s: Pool<R>, acts: seq<Action<R>>)
    requires Inv(s) && s.stop && TooMany(s) && Calm(s)
    requires (exists i: nat :: Enabled(s, Append(i))) ==> |s.queue| > s.maxRequests
    requires Legal(s, acts) && AllInternal(acts) && Quiet(After(s, acts))
    ensures !Drained(After(s, acts))
  {
    if s.queue != [] {
      CalmNobodyPops(s);
      GrowsOnly(s, acts);
      hide Drained, Quiet, Inv;
      StoppedDrainsIff(s, acts);
    } else {
      NobodyComes(s);
    }
  }

  lemma NobodyComes<R>(s: Pool<R>)
    requires Inv(s) && Calm(s) && forall i: nat :: !Enabled(s, Append(i))
    ensures Coming(s) == 0
  {
    if s.owner.Some? {
      LockedCanMove(s, s.owner.value);
    }
    forall i | 0 <= i < |s.producers|
      ensures s.producers[i].Idle?
    {
      assert !Enabled(s, Append(i));
    }
    CountNone(s.producers, MayPush);
    CountNone(s.producers, Tests);
  }

  lemma {:induction false} GrowsOnly<R>(s: Pool<R>, acts: seq<Action<R>>)
    requires Legal(s, acts)
    ensures |s.accepted| <= |After(s, acts).accepted|
    decreases |acts|
  {
    if acts != [] {
      GrowsOnly(Step(s, acts[0]), acts[1..]);
    }
  }

  /** Main result: a stopped pool is drained by every run to rest, whatever the interleaving, if and only if the
      requests queued and those that may still be accepted are no more than the workers that still pop. */
  lemma StoppedAlwaysDrainsIff<R(!new)>(s: Pool<R>)
    requires Inv(s) && s.stop
    ensures |s.queue| + Coming(s) <= Popping(s) <==>
            forall acts :: Legal(s, acts) && AllInternal(acts) && Quiet(After(s, acts)) ==> Drained(After(s, acts))
  {
    hide Inv, Drained, Quiet, Coming, Popping;
    if TooMany(s) {
      var acts := SomeRunLeaves(s);
    } else {
      forall acts | Legal(s, acts) && AllInternal(acts) && Quiet(After(s, acts))
        ensures Drained(After(s, acts))
      {
        RunAccepts(s, acts);
        StoppedDrainsIff(s, acts);
      }
    }
  }

  /** So every running pool with a worker, and every stopped one with no more to serve than workers that still pop, is
      drained by just going on. */
  lemma CanDrain<R(!new)>(s: Pool<R>) returns (acts: seq<Action<R>>)
    requires Inv(s) && (!s.stop ==> s.workers != [])
    requires s.stop ==> |s.queue| + Coming(s) <= Popping(s)
    ensures Legal(s, acts) && AllInternal(acts) && Quiet(After(s, acts)) && Drained(After(s, acts))
  {
    hide Inv, Drained, Quiet, Coming, Popping;
    acts := ComesToRest(s);
    if s.stop {
      StoppedAlwaysDrainsIff(s);
    } else {
      RunningDrains(s, acts);
    }
  }

  /** A run from a fresh pool that leaves an accepted request unserved for good: it is queued, the pool is stopped,
      and the only worker looks at the flag before it waits. */
  lemma StopLeavesRequest<R>(maxRequests: nat, r: R) returns (acts: seq<Action<R>>)
    ensures Legal(Fresh<R>(maxRequests, 1, 1), acts)
    ensures var s := After(Fresh<R>(maxRequests, 1, 1), acts);
            Quiet(s) && s.accepted == s.queue == [Some(r)] && s.answers == [true] && s.processed == []
  {
    var s: Pool<R> := Fresh(maxRequests, 1, 1);
    var fill := FillOne(s, Some(r));
    var s1 := After(s, fill);
    var stop: Action<R> := Stop;
    var run: Action<R> := Run(0);
    OneMore(Step(s1, stop), run, []);
    assert [run] + [] == [run];
    OneMore(s1, stop, [run]);
    RunsCompose(s, fill, [stop] + [run]);
    acts := fill + ([stop] + [run]);
  }

  // ---------- The bound ----------

  /** Producer 0 calls append once, alone. */
  lemma FillOne<R>(s: Pool<R>, r: Option<R>) returns (acts: seq<Action<R>>)
    requires |s.producers| > 0 && s.producers[0].Idle? && s.owner == None && |s.queue| <= s.maxRequests
    ensures Legal(s, acts)
    ensures After(s, acts) == s.(queue := s.queue + [r], accepted := s.accepted + [r], sem := s.sem + 1,
                                    answers := s.answers + [true])
  {
    var s1 := Step(s, Call(0, r));
    var s2 := Step(s1, Append(0));
    var s3 := Step(s2, Append(0));
    var s4 := Step(s3, Append(0));
    var s5 := Step(s4, Append(0));
    var s6 := Step(s5, Append(0));
    assert s6.producers == s.producers;
    hide Step, AppendStep;
    var a: Action<R> := Append(0);
    assert Legal(s6, []);
    OneMore(s5, a, []);
    OneMore(s4, a, [a]);
    OneMore(s3, a, [a, a]);
    OneMore(s2, a, [a, a, a]);
    OneMore(s1, a, [a, a, a, a]);
    OneMore(s, Call(0, r), [a, a, a, a, a]);
    acts := [Call(0, r)] + [a, a, a, a, a];
  }

  lemma OneMore<R>(s: Pool<R>, a: Action<R>, acts: seq<Action<R>>)
    requires Enabled(s, a) && Legal(Step(s, a), acts)
    ensures Legal(s, [a] + acts) && After(s, [a] + acts) == After(Step(s, a), acts)
  {
    assert ([a] + acts)[1..] == acts;
  }

  /** The bound max_requests + 1 is reached: the `>` at line 72 lets one request more in than its name says. */
  lemma {:induction false} BoundIsReached<R>(s: Pool<R>, r: Option<R>) returns (acts: seq<Action<R>>)
    requires |s.producers| > 0 && s.producers[0].Idle? && s.owner == None && |s.queue| <= s.maxRequests + 1
    ensures Legal(s, acts) && |After(s, acts).queue| == s.maxRequests + 1
    decreases s.maxRequests + 1 - |s.queue|
  {
    if |s.queue| == s.maxRequests + 1 {
      acts := [];
    } else {
      var one := FillOne(s, r);
      var rest := BoundIsReached(After(s, one), r);
      RunsCompose(s, one, rest);
      acts := one + rest;
    }
  }
}
