/** threadpool.h and the two primitives of locker.h it uses, as objects whose fields the threads change. `append` and
    one pass of `run` are the statements of one thread; between any two accesses to shared state the other threads
    take any number of steps. What comes of it is a run of PoolModel. The `cond` class of locker.h is not used by
    the pool and not modelled. */
module ThreadPool {
  import opened Common
  import opened PoolModel

  /** A counting semaphore. `TryWait` is sem_wait at the moment it would return, and says whether it would. */
  class Sem {
    var value: nat

    constructor ()
      ensures value == 0
    {
      value := 0;
    }

    method TryWait() returns (passed: bool)
      modifies this
      ensures passed <==> old(value) > 0
      ensures value == if passed then old(value) - 1 else old(value)
    {
      passed := value > 0;
      if passed {
        value := value - 1;
      }
    }

    method Post()
      modifies this
      ensures value == old(value) + 1
    {
      value := value + 1;
    }
  }

  /** A mutex. `TryLock` is pthread_mutex_lock at the moment it would return, and says whether it would. */
  class Locker {
    var holder: Option<Thread>

    constructor ()
      ensures holder == None
    {
      holder := None;
    }

    method TryLock(t: Thread) returns (locked: bool)
      modifies this
      ensures locked <==> old(holder) == None
      ensures holder == if locked then Some(t) else old(holder)
    {
      locked := holder == None;
      if locked {
        holder := Some(t);
      }
    }

    /** Only the thread that holds a mutex may unlock it. */
    method Unlock(t: Thread)
      requires holder == Some(t)
      modifies this
      ensures holder == None
    {
      holder := None;
    }
  }

  // ---------- Whose steps they are ----------

  /** How many steps of a run are those of thread `t`. */
  ghost function Turns<R>(run: seq<Action<R>>, t: Thread): nat {
    if run == [] then 0
    else Turns(run[..|run| - 1], t) + (if Mover(run[|run| - 1]) == Some(t) then 1 else 0)
  }

  /** A thread stands where it stood, and what has happened has happened. */
  ghost predicate Undisturbed<R>(s: Pool<R>, s': Pool<R>, t: Thread) {
    && s.accepted <= s'.accepted && s.processed <= s'.processed
    && match t
       case P(i) => i < |s.producers| ==> i < |s'.producers| && s'.producers[i] == s.producers[i]
       case W(i) => i < |s.workers| ==> i < |s'.workers| && s'.workers[i] == s.workers[i]
  }

  lemma OthersDoNotDisturb<R>(s: Pool<R>, a: Action<R>, t: Thread)
    requires Enabled(s, a) && Mover(a) != Some(t)
    ensures Undisturbed(s, Step(s, a), t)
  {
  }

  lemma OneStepMore<R>(s: Pool<R>, run: seq<Action<R>>, a: Action<R>)
    requires Legal(s, run) && Enabled(After(s, run), a)
    ensures Legal(s, run + [a]) && After(s, run + [a]) == Step(After(s, run), a)
  {
    assert [a][1..] == [];
    RunsCompose(s, run, [a]);
  }

  lemma NothingRan<R>(s: Pool<R>, t: Thread)
    requires Inv(s)
    ensures Leads(s, [], s) && Turns<R>([], t) == 0
  {
  }

  lemma StepKeepsBound<R>(s: Pool<R>, a: Action<R>)
    requires Enabled(s, a)
    ensures Step(s, a).maxRequests == s.maxRequests
  {
  }

  /** Neither line 98 nor line 103 meets an empty queue. */
  lemma FindsWork<R>(s0: Pool<R>, run: seq<Action<R>>, s: Pool<R>, i: nat)
    requires Leads(s0, run, s) && i < |s.workers| && Claims(s.workers[i])
    ensures s.queue != []
  {
    ClaimMeansWork(s, i);
  }

  /** Line 104 meets what line 103 has read. */
  lemma FrontIsRead<R>(s0: Pool<R>, run: seq<Action<R>>, s: Pool<R>, i: nat)
    requires Leads(s0, run, s) && i < |s.workers| && s.workers[i].ToPop?
    ensures s.queue != [] && s.queue[0] == s.workers[i].request
  {
  }

  lemma TurnsOneMore<R>(run: seq<Action<R>>, a: Action<R>, t: Thread)
    ensures Turns(run + [a], t) == Turns(run, t) + if Mover(a) == Some(t) then 1 else 0
  {
    assert (run + [a])[..|run|] == run;
  }

  /** `run` leads from `s0` to `s`, with the invariant. */
  ghost predicate Leads<R>(s0: Pool<R>, run: seq<Action<R>>, s: Pool<R>) {
    Legal(s0, run) && s == After(s0, run) && Inv(s)
  }

  lemma LeadsOn<R>(s0: Pool<R>, xs: seq<Action<R>>, s: Pool<R>, ys: seq<Action<R>>, s': Pool<R>)
    requires Leads(s0, xs, s) && Leads(s, ys, s')
    ensures Leads(s0, xs + ys, s')
  {
    RunsCompose(s0, xs, ys);
  }

  lemma LeadsKeepsInv<R>(s0: Pool<R>, run: seq<Action<R>>, s: Pool<R>)
    requires Leads(s0, run, s)
    ensures Inv(s)
  {
  }

  lemma {:induction false} TurnsOn<R>(xs: seq<Action<R>>, ys: seq<Action<R>>, t: Thread)
    ensures Turns(xs + ys, t) == Turns(xs, t) + Turns(ys, t)
    decreases |ys|
  {
    if ys == [] {
      assert xs + ys == xs;
    } else {
      assert (xs + ys)[..|xs + ys| - 1] == xs + ys[..|ys| - 1];
      TurnsOn(xs, ys[..|ys| - 1], t);
    }
  }

  lemma LockedOwns<R>(s0: Pool<R>, run: seq<Action<R>>, s: Pool<R>, t: Thread)
    requires Leads(s0, run, s) && Locked(s, t)
    ensures s.owner == Some(t)
  {
  }

  /** How a pass of the loop in `run` ends; a thread that is blocked in it may be so for ever. */
  datatype Pass<R> = Left | Blocked | Dropped | Done(request: Option<R>)

  class WorkPool<R(==)> {
    const maxRequest: nat
    const queuelocker: Locker
    const queuestat: Sem
    var workqueue: seq<Option<R>>
    var stop: bool

    /** Where each thread stands in `append` or `run`. */
    var producers: seq<Producer<R>>
    var workers: seq<Worker<R>>

    /** What was pushed, popped, processed and answered so far. */
    var accepted: seq<Option<R>>
    var popped: seq<Option<R>>
    var processed: seq<Job<R>>
    var answers: seq<bool>

    function Value(): PoolModel.Pool<R>
      reads this, queuelocker, queuestat
    {
      PoolModel.Pool(workqueue, queuestat.value, queuelocker.holder, stop, maxRequest,
                     producers, workers, accepted, popped, processed, answers)
    }

    /** Lines 34 to 37 refuse a pool without threads or without room. */
    static method Create(threadNumber: int, maxRequests: int, callers: nat) returns (pool: Option<WorkPool<R>>)
      ensures pool.Some? <==> threadNumber > 0 && maxRequests > 0
      ensures pool.Some? ==> fresh(pool.value) && pool.value.Value() == Fresh(maxRequests, callers, threadNumber)
    {
      if threadNumber <= 0 || maxRequests <= 0 {
        return None;
      }
      var created := new WorkPool<R>(threadNumber, maxRequests, callers);
      return Some(created);
    }

    constructor (threadNumber: nat, maxRequests: nat, callers: nat)
      ensures Value() == Fresh(maxRequests, callers, threadNumber)
      ensures fresh(queuelocker) && fresh(queuestat)
    {
      maxRequest := maxRequests;
      queuelocker := new Locker();
      queuestat := new Sem();
      workqueue, stop := [], false;
      producers, workers := seq(callers, i => Idle), seq(threadNumber, i => AtLoop);
      accepted, popped, processed, answers := [], [], [], [];
    }

    method Become(s: PoolModel.Pool<R>)
      requires s.maxRequests == maxRequest
      modifies this, queuelocker, queuestat
      ensures Value() == s
    {
      workqueue, stop, producers, workers := s.queue, s.stop, s.producers, s.workers;
      accepted, popped, processed, answers := s.accepted, s.popped, s.processed, s.answers;
      queuelocker.holder := s.owner;
      queuestat.value := s.sem;
    }

    /** The threads other than `t` take any number of steps, in any order. */
    method Others(t: Thread, ghost s0: PoolModel.Pool<R>, ghost before: seq<Action<R>>)
      returns (ghost run: seq<Action<R>>)
      requires Leads(s0, before, Value())
      modifies this, queuelocker, queuestat
      ensures Leads(s0, run, Value()) && Turns(run, t) == Turns(before, t) && Undisturbed(old(Value()), Value(), t)
    {
      hide Legal, After, Inv, Enabled, Step, Turns;
      var acts: seq<Action<R>> := *;
      var s := Value();
      run := before;
      for k := 0 to |acts|
        invariant Leads(s0, run, s) && s.maxRequests == maxRequest
        invariant Turns(run, t) == Turns(before, t) && Undisturbed(old(Value()), s, t)
      {
        if Enabled(s, acts[k]) && Mover(acts[k]) != Some(t) {
          OneStepMore(s0, run, acts[k]);
          TurnsOneMore(run, acts[k], t);
          InvStep(s, acts[k]);
          OthersDoNotDisturb(s, acts[k], t);
          StepKeepsBound(s, acts[k]);
          run := run + [acts[k]];
          s := Step(s, acts[k]);
        }
      }
      Become(s);
    }

    /** Thread `t` has just taken step `a` from `s`; before its next one, the others take theirs. */
    method Yield(t: Thread, ghost s0: PoolModel.Pool<R>, ghost before: seq<Action<R>>, ghost s: PoolModel.Pool<R>,
                 ghost a: Action<R>) returns (ghost run: seq<Action<R>>, ghost s': PoolModel.Pool<R>)
      requires Leads(s0, before, s) && Enabled(s, a) && Mover(a) == Some(t) && Value() == Step(s, a)
      modifies this, queuelocker, queuestat
      ensures Value() == s' && Leads(s0, run, s') && Turns(run, t) == Turns(before, t) + 1
      ensures Undisturbed(Step(s, a), s', t)
    {
      hide Legal, After, Inv, Enabled, Step, Turns;
      InvStep(s, a);
      OneStepMore(s0, before, a);
      TurnsOneMore(before, a, t);
      run := Others(t, s0, before + [a]);
      s' := Value();
    }

    /** Lines 71 to 80. No answer means that the call has not come past line 71 yet. */
    method Append(i: nat, request: Option<R>) returns (answer: Option<bool>, ghost run: seq<Action<R>>)
      requires Inv(Value()) && i < |producers| && producers[i].Idle?
      modifies this, queuelocker, queuestat
      ensures Leads(old(Value()), run, Value()) && i < |producers|
      ensures answer == None ==> Turns(run, P(i)) == 1 && producers[i] == ToLock(request) && queuelocker.holder.Some?
      ensures answer == Some(true) ==> Turns(run, P(i)) == 6 && producers[i].Idle?
      ensures answer == Some(true) ==> exists k :: |old(accepted)| <= k < |accepted| && accepted[k] == request
      ensures answer == Some(false) ==> Turns(run, P(i)) == 4 && producers[i].Idle?
    {
      hide Leads, Inv, Turns, RunStep;
      ghost var s0 := Value();
      var locked;
      locked, run := Enter(i, request);
      if !locked {
        return None, run;
      }
      ghost var s, a := Value(), Action.Append(i);
      if |workqueue| > maxRequest {
        producers := producers[i := ToRefuse];
        run, s := Yield(P(i), s0, run, s, a);
        run := Refuse(i, s0, run);
        return Some(false), run;
      }
      producers := producers[i := ToPush(request)];
      run, s := Yield(P(i), s0, run, s, a);
      run := Push(i, request, s0, run);
      run := Announce(i, s0, run);
      return Some(true), run;
    }

    /** The call, and line 71. */
    method Enter(i: nat, request: Option<R>) returns (locked: bool, ghost run: seq<Action<R>>)
      requires Inv(Value()) && i < |producers| && producers[i].Idle?
      modifies this, queuelocker, queuestat
      ensures Leads(old(Value()), run, Value()) && Turns(run, P(i)) == if locked then 2 else 1
      ensures old(accepted) <= accepted && i < |producers|
      ensures producers[i] == if locked then ToTest(request) else ToLock(request)
      ensures !locked ==> queuelocker.holder.Some?
    {
      hide Leads, Inv, Turns, RunStep;
      ghost var s0, s := Value(), Value();
      NothingRan(s0, P(i));
      producers := producers[i := ToLock(request)];
      run, s := Yield(P(i), s0, [], s, Call(i, request));
      locked := queuelocker.TryLock(P(i));
      if locked {
        producers := producers[i := ToTest(request)];
        run, s := Yield(P(i), s0, run, s, Action.Append(i));
      }
    }

    /** Line 74. */
    method Refuse(i: nat, ghost s0: PoolModel.Pool<R>, ghost before: seq<Action<R>>) returns (ghost run: seq<Action<R>>)
      requires Leads(s0, before, Value()) && i < |producers| && producers[i].ToRefuse?
      modifies this, queuelocker, queuestat
      ensures Leads(s0, run, Value()) && Turns(run, P(i)) == Turns(before, P(i)) + 1
      ensures i < |producers| && producers[i].Idle?
    {
      hide Leads, Inv, Turns, RunStep;
      ghost var s, a := Value(), Action.Append(i);
      LockedOwns(s0, before, s, P(i));
      queuelocker.Unlock(P(i));
      producers, answers := producers[i := Idle], answers + [false];
      run, s := Yield(P(i), s0, before, s, a);
    }

    /** Lines 77 and 78. */
    method Push(i: nat, request: Option<R>, ghost s0: PoolModel.Pool<R>, ghost before: seq<Action<R>>)
      returns (ghost run: seq<Action<R>>)
      requires Leads(s0, before, Value()) && i < |producers| && producers[i] == ToPush(request)
      modifies this, queuelocker, queuestat
      ensures Leads(s0, run, Value()) && Turns(run, P(i)) == Turns(before, P(i)) + 2
      ensures i < |producers| && producers[i].ToPost?
      ensures |old(accepted)| < |accepted| && accepted[|old(accepted)|] == request
    {
      hide Leads, Inv, Turns, RunStep;
      ghost var s, a := Value(), Action.Append(i);
      workqueue, accepted := workqueue + [request], accepted + [request];
      producers := producers[i := ToUnlock];
      run, s := Yield(P(i), s0, before, s, a);
      LockedOwns(s0, run, s, P(i));
      queuelocker.Unlock(P(i));
      producers := producers[i := ToPost];
      run, s := Yield(P(i), s0, run, s, a);
    }

    /** Line 79. */
    method Announce(i: nat, ghost s0: PoolModel.Pool<R>, ghost before: seq<Action<R>>)
      returns (ghost run: seq<Action<R>>)
      requires Leads(s0, before, Value()) && i < |producers| && producers[i].ToPost?
      modifies this, queuelocker, queuestat
      ensures Leads(s0, run, Value()) && Turns(run, P(i)) == Turns(before, P(i)) + 1
      ensures i < |producers| && producers[i].Idle? && old(accepted) <= accepted
    {
      hide Leads, Inv, Turns, RunStep;
      ghost var s, a := Value(), Action.Append(i);
      queuestat.Post();
      producers, answers := producers[i := Idle], answers + [true];
      run, s := Yield(P(i), s0, before, s, a);
    }

    /** Lines 94 to 111, watched for a number of passes through the loop: unless the worker leaves it or is blocked,
        it makes them all, and each takes eight steps at least. */
    method Run(i: nat, passes: nat) returns (left: bool, ghost run: seq<Action<R>>)
      requires Inv(Value()) && i < |workers| && workers[i].AtLoop?
      modifies this, queuelocker, queuestat
      ensures Leads(old(Value()), run, Value()) && i < |workers|
      ensures left ==> workers[i].Finished?
      ensures !left ==>
                || (workers[i].ToWait? && queuestat.value == 0)
                || (workers[i].Woken? && queuelocker.holder.Some?)
                || (workers[i].AtLoop? && Turns(run, W(i)) >= 8 * passes)
    {
      hide Legal, After, Inv, Leads, Turns;
      ghost var s0 := Value();
      NothingRan(s0, W(i));
      run := [];
      for n := 0 to passes
        invariant Leads(s0, run, Value()) && i < |workers| && workers[i].AtLoop? && Turns(run, W(i)) >= 8 * n
      {
        ghost var s := Value();
        var pass;
        ghost var more;
        LeadsKeepsInv(s0, run, s);
        pass, more := Turn(i);
        LeadsOn(s0, run, s, more, Value());
        TurnsOn(run, more, W(i));
        run := run + more;
        if pass == Left {
          return true, run;
        } else if pass == Blocked {
          return false, run;
        }
      }
      left := false;
    }

    /** Lines 94 to 111, one pass of the loop. */
    method Turn(i: nat) returns (pass: Pass<R>, ghost run: seq<Action<R>>)
      requires Inv(Value()) && i < |workers| && workers[i].AtLoop?
      modifies this, queuelocker, queuestat
      ensures Leads(old(Value()), run, Value()) && i < |workers|
      ensures pass == Left ==> Turns(run, W(i)) == 1 && workers[i].Finished?
      ensures pass == Blocked ==>
                || (Turns(run, W(i)) == 1 && workers[i].ToWait? && queuestat.value == 0)
                || (Turns(run, W(i)) == 2 && workers[i].Woken? && queuelocker.holder.Some?)
      ensures pass == Dropped ==> Turns(run, W(i)) == 8 && workers[i].AtLoop?
      ensures pass.Done? ==> Turns(run, W(i)) == 9 && workers[i].AtLoop? && pass.request.Some?
      ensures pass.Done? ==> exists l :: |old(processed)| <= l < |processed| && processed[l].request == pass.request
    {
      hide Leads, Inv, Turns, AppendStep;
      ghost var s0, s, a := Value(), Value(), Action.Run(i);
      NothingRan(s0, W(i));
      if stop {
        workers := workers[i := Finished];
        run, s := Yield(W(i), s0, [], s, a);
        return Left, run;
      }
      workers := workers[i := ToWait];
      run, s := Yield(W(i), s0, [], s, a);
      var locked;
      locked, run := WakeUp(i, s0, run);
      if !locked {
        return Blocked, run;
      }
      var request;
      request, run := Front(i, s0, run);
      run := PopFront(i, request, s0, run);
      pass, run := Handle(i, request, s0, run);
    }

    /** Lines 96 and 97. */
    method WakeUp(i: nat, ghost s0: PoolModel.Pool<R>, ghost before: seq<Action<R>>)
      returns (locked: bool, ghost run: seq<Action<R>>)
      requires Leads(s0, before, Value()) && i < |workers| && workers[i].ToWait?
      modifies this, queuelocker, queuestat
      ensures Leads(s0, run, Value()) && i < |workers| && old(processed) <= processed
      ensures locked ==> workers[i].AtQueue? && Turns(run, W(i)) == Turns(before, W(i)) + 2
      ensures !locked ==>
                || (workers[i].ToWait? && Turns(run, W(i)) == Turns(before, W(i)) && queuestat.value == 0)
                || (workers[i].Woken? && Turns(run, W(i)) == Turns(before, W(i)) + 1 && queuelocker.holder.Some?)
    {
      hide Leads, Inv, Turns, AppendStep;
      ghost var s, a := Value(), Action.Run(i);
      run := before;
      var passed := queuestat.TryWait();
      if !passed {
        return false, run;
      }
      workers := workers[i := Woken];
      run, s := Yield(W(i), s0, run, s, a);
      locked := queuelocker.TryLock(W(i));
      if locked {
        workers := workers[i := AtQueue];
        run, s := Yield(W(i), s0, run, s, a);
      }
    }

    /** Lines 98 and 103. No other thread can have emptied the queue: lines 100 and 101 are never reached. */
    method Front(i: nat, ghost s0: PoolModel.Pool<R>, ghost before: seq<Action<R>>)
      returns (request: Option<R>, ghost run: seq<Action<R>>)
      requires Leads(s0, before, Value()) && i < |workers| && workers[i].AtQueue?
      modifies this, queuelocker, queuestat
      ensures Leads(s0, run, Value()) && Turns(run, W(i)) == Turns(before, W(i)) + 2
      ensures i < |workers| && workers[i].ToPop? && workers[i].request == request && old(processed) <= processed
    {
      hide Leads, Inv, Turns, AppendStep;
      ghost var s, a := Value(), Action.Run(i);
      FindsWork(s0, before, s, i);
      if workqueue == [] {
        assert false;
      }
      workers := workers[i := ToFront];
      run, s := Yield(W(i), s0, before, s, a);
      FindsWork(s0, run, s, i);
      request := workqueue[0];
      workers := workers[i := ToPop(|popped|, request)];
      run, s := Yield(W(i), s0, run, s, a);
    }

    /** Lines 104 and 105. What is taken out is what line 103 has read. */
    method PopFront(i: nat, request: Option<R>, ghost s0: PoolModel.Pool<R>, ghost before: seq<Action<R>>)
      returns (ghost run: seq<Action<R>>)
      requires Leads(s0, before, Value()) && i < |workers| && workers[i].ToPop? && workers[i].request == request
      modifies this, queuelocker, queuestat
      ensures old(workqueue) != [] && old(workqueue)[0] == request
      ensures Leads(s0, run, Value()) && Turns(run, W(i)) == Turns(before, W(i)) + 2
      ensures i < |workers| && workers[i].ToCheck? && workers[i].request == request && old(processed) <= processed
    {
      hide Leads, Inv, Turns, AppendStep;
      ghost var s, a := Value(), Action.Run(i);
      FrontIsRead(s0, before, s, i);
      popped := popped + [workqueue[0]];
      workqueue := workqueue[1..];
      workers := workers[i := Popped(workers[i].ticket, request)];
      run, s := Yield(W(i), s0, before, s, a);
      LockedOwns(s0, run, s, W(i));
      queuelocker.Unlock(W(i));
      workers := workers[i := ToCheck(workers[i].ticket, request)];
      run, s := Yield(W(i), s0, run, s, a);
    }

    /** Lines 106 to 110. */
    method Handle(i: nat, request: Option<R>, ghost s0: PoolModel.Pool<R>, ghost before: seq<Action<R>>)
      returns (pass: Pass<R>, ghost run: seq<Action<R>>)
      requires Leads(s0, before, Value()) && i < |workers| && workers[i].ToCheck? && workers[i].request == request
      modifies this, queuelocker, queuestat
      ensures Leads(s0, run, Value()) && i < |workers| && workers[i].AtLoop?
      ensures pass == if request == None then Dropped else Done(request)
      ensures Turns(run, W(i)) == Turns(before, W(i)) + if request == None then 1 else 2
      ensures request.Some? ==> exists l :: |old(processed)| <= l < |processed| && processed[l].request == request
    {
      hide Leads, Inv, Turns, AppendStep;
      ghost var s, a := Value(), Action.Run(i);
      if request == None {
        workers := workers[i := AtLoop];
        run, s := Yield(W(i), s0, before, s, a);
        return Dropped, run;
      }
      workers := workers[i := ToProcess(workers[i].ticket, request)];
      run, s := Yield(W(i), s0, before, s, a);
      ghost var l := |processed|;
      processed := processed + [Job(workers[i].ticket, request)];
      workers := workers[i := AtLoop];
      run, s := Yield(W(i), s0, run, s, a);
      assert processed[l].request == request;
      return Done(request), run;
    }
  }
}
