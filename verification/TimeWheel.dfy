/** The timing wheel of time_wheel_timer.h as it is: an array of slot heads, doubly linked nodes updated in
    place, and a tick that removes nodes from the list it is walking. Every method is proved against the value
    model of WheelModel. The slot count N and the slot interval SI are parameters. */
module TimeWheel {
  import opened Common
  import opened WheelModel

  /** tw_timer. `time_slot` is never assigned after construction. The callback and its argument are left to
      the caller; firing is recorded as an event that names the timer. */
  class TwTimer {
    var rotation: nat
    const timeSlot: nat
    var next: TwTimer?
    var prev: TwTimer?

    constructor (rot: nat, ts: nat)
      ensures rotation == rot && timeSlot == ts && next == null && prev == null
    {
      rotation, timeSlot := rot, ts;
      next, prev := null, null;
    }
  }

  ghost function At(s: seq<TwTimer>, k: int): TwTimer? {
    if 0 <= k < |s| then s[k] else null
  }

  /** `head` starts the chain of exactly the nodes of `s`, mirrored links and all. */
  ghost predicate Chain(head: TwTimer?, s: seq<TwTimer>)
    reads s
  {
    && head == At(s, 0)
    && (forall k {:trigger s[k].next} :: 0 <= k < |s| ==> s[k].next == At(s, k + 1))
    && (forall k {:trigger s[k].prev} :: 0 <= k < |s| ==> s[k].prev == At(s, k - 1))
    && Distinct(s)
  }

  ghost function IdAt(es: seq<Entry<TwTimer>>, k: nat): TwTimer? {
    if k < |es| then es[k].id else null
  }

  /** `es` is what the nodes of `s` store, in order. */
  ghost predicate Stored(s: seq<TwTimer>, es: seq<Entry<TwTimer>>)
    reads s
  {
    |s| == |es| && forall k :: 0 <= k < |s| ==> es[k].id == s[k] && es[k].rotation == s[k].rotation
  }

  lemma CutStored(s: seq<TwTimer>, es: seq<Entry<TwTimer>>, k: nat)
    requires k < |s| && Stored(s, es)
    ensures Stored(Cut(s, k), Cut(es, k))
    ensures forall j :: 0 <= j < |s| - 1 ==> Cut(s, k)[j] in s
  {
  }

  /** Lines 74 to 84: the new node becomes the head of its slot's list. */
  method LinkFirst(head: TwTimer?, timer: TwTimer, ghost s: seq<TwTimer>) returns (head': TwTimer)
    requires Chain(head, s)
    requires timer.next == null && timer.prev == null && timer !in s
    modifies timer`next, s`prev
    ensures head' == timer && Chain(head', [timer] + s)
  {
    if head == null {
      head' := timer;
    } else {
      timer.next := head;
      head.prev := timer;
      head' := timer;
    }
    ghost var s' := [timer] + s;
    forall j | 0 <= j < |s'|
      ensures s'[j].next == At(s', j + 1) && s'[j].prev == At(s', j - 1)
    {
      assert j > 0 ==> s'[j] == s[j - 1];
    }
  }

  /** A node whose neighbours point past it is no longer part of the chain. */
  lemma ChainCut(head: TwTimer?, s: seq<TwTimer>, k: nat)
    requires k < |s| && head == (if k == 0 then At(s, 1) else s[0])
    requires Distinct(s)
    requires forall j {:trigger s[j].next} :: 0 <= j < |s| && j != k ==>
               s[j].next == if j + 1 == k then At(s, k + 1) else At(s, j + 1)
    requires forall j {:trigger s[j].prev} :: 0 <= j < |s| && j != k ==>
               s[j].prev == if j == k + 1 then At(s, k - 1) else At(s, j - 1)
    ensures Chain(head, Cut(s, k))
  {
    var r := Cut(s, k);
    CutDistinct(s, k);
    hide Distinct, Cut;
    forall j | 0 <= j < |r|
      ensures r[j].next == At(r, j + 1) && r[j].prev == At(r, j - 1)
    {
      CutNeighbours(s, k, j);
    }
    assert r != [] ==> r[0] == s[if k == 0 then 1 else 0] by {
      if r != [] {
        CutNeighbours(s, k, 0);
      }
    }
  }

  /** Lines 95 to 111 and again 129 to 149: a node leaves its slot's list, as its head or from the middle. */
  method Unlink(head: TwTimer?, timer: TwTimer, ghost s: seq<TwTimer>, ghost es: seq<Entry<TwTimer>>, ghost k: nat)
    returns (head': TwTimer?, after: TwTimer?)
    requires Chain(head, s) && Stored(s, es) && k < |s| == |es| && s[k] == timer
    modifies s`next, s`prev
    ensures Chain(head', Cut(s, k)) && Stored(Cut(s, k), Cut(es, k)) && after == At(s, k + 1)
  {
    assert (timer == head) == (k == 0);
    assert timer.prev == At(s, k - 1) && timer.next == At(s, k + 1);
    head' := head;
    if timer == head {
      head' := head.next;
      if head' != null {
        head'.prev := null;
      }
      after := head';
    } else {
      timer.prev.next := timer.next;
      if timer.next != null {
        timer.next.prev := timer.prev;
      }
      after := timer.next;
    }
    assert forall j {:trigger s[j].next} :: 0 <= j < |s| && j != k - 1 ==> s[j].next == At(s, j + 1);
    assert forall j {:trigger s[j].prev} :: 0 <= j < |s| && j != k + 1 ==> s[j].prev == At(s, j - 1);
    ChainCut(head', s, k);
    CutStored(s, es, k);
  }

  /** The linked nodes are those of the lists, each in that of its slot. */
  ghost predicate Homed(lists: seq<seq<TwTimer>>, nodes: set<TwTimer>) {
    && (forall i, t :: 0 <= i < |lists| && t in lists[i] ==> t in nodes)
    && (forall t :: t in nodes ==> t.timeSlot < |lists| && t in lists[t.timeSlot])
  }

  /** `nodes'` is `nodes` with those of slot `ts` replaced by `s`. */
  ghost predicate Rehomed(nodes: set<TwTimer>, ts: nat, s: seq<TwTimer>, nodes': set<TwTimer>) {
    && (forall t :: t in nodes' ==> (t in nodes && t.timeSlot != ts) || t in s)
    && (forall t :: t in nodes && t.timeSlot != ts ==> t in nodes')
    && (forall t :: t in s ==> t in nodes')
  }

  lemma HomedAgain(lists: seq<seq<TwTimer>>, nodes: set<TwTimer>, ts: nat, s: seq<TwTimer>, nodes': set<TwTimer>)
    requires Homed(lists, nodes) && ts < |lists| && forall t :: t in s ==> t.timeSlot == ts
    requires forall i, t :: 0 <= i < |lists| && t in lists[i] ==> t.timeSlot == i || i == ts
    requires Rehomed(nodes, ts, s, nodes')
    ensures Homed(lists[ts := s], nodes')
  {
  }

  lemma TickKeys(created: set<TwTimer>, c: Bag<TwTimer>)
    requires c.Keys <= created
    ensures created - BagTick(c).Keys == created - c.Keys + BagFired(c)
  {
  }

  class TimeWheel {
    const N: nat
    const SI: nat
    const slots: array<TwTimer?>
    var curSlot: nat

    /** The nodes of each slot's list, in order, and the value the wheel stands for. */
    ghost var lists: seq<seq<TwTimer>>
    ghost var model: Wheel<TwTimer>
    /** The linked nodes, every node ever created, and the nodes `delete` was called on. */
    ghost var nodes: set<TwTimer>
    ghost var created: set<TwTimer>
    ghost var released: set<TwTimer>

    ghost predicate ValidSlot(head: TwTimer?, i: nat, s: seq<TwTimer>, es: seq<Entry<TwTimer>>)
      reads s
    {
      Chain(head, s) && Stored(s, es) && forall k :: 0 <= k < |s| ==> s[k].timeSlot == i
    }

    lemma SlotMade(head: TwTimer?, i: nat, s: seq<TwTimer>, es: seq<Entry<TwTimer>>)
      requires Chain(head, s) && Stored(s, es) && forall t :: t in s ==> t.timeSlot == i
      ensures ValidSlot(head, i, s, es)
    {
    }

    /** The wheel's invariant, but for the chain of slot `ts`. */
    ghost predicate ValidExcept(ts: nat)
      reads this, slots, nodes
    {
      && 0 < N && 0 < SI && curSlot < N && slots.Length == N && |lists| == N
      && model.n == N && model.si == SI && model.cur == curSlot && |model.slots| == N
      && Homed(lists, nodes)
      && (forall i :: 0 <= i < N && i != ts ==> ValidSlot(slots[i], i, lists[i], model.slots[i]))
    }

    ghost predicate Valid()
      reads this, slots, nodes
    {
      ValidExcept(N) && forall i :: 0 <= i < N ==> ValidSlot(slots[i], i, lists[i], model.slots[i])
    }

    twostate lemma OtherSlots(ts: nat)
      requires old(Valid()) && unchanged(this) && unchanged(slots)
      requires forall t :: t in nodes && t.timeSlot != ts ==> unchanged(t)
      ensures ValidExcept(ts)
    {
      forall i | 0 <= i < N && i != ts
        ensures ValidSlot(slots[i], i, lists[i], model.slots[i])
      {
        assert old(ValidSlot(slots[i], i, lists[i], model.slots[i]));
        assert forall k :: 0 <= k < |lists[i]| ==> lists[i][k] in lists[i] && unchanged(lists[i][k]);
      }
    }

    /** The list of slot `ts`, rebuilt, is put in its place. */
    method SetSlot(ts: nat, head: TwTimer?, ghost s: seq<TwTimer>, ghost es: seq<Entry<TwTimer>>,
                   ghost nodes': set<TwTimer>)
      requires ts < N && ValidExcept(ts) && ValidSlot(head, ts, s, es)
      requires Rehomed(nodes, ts, s, nodes')
      modifies slots, `lists, `model, `nodes
      ensures Valid() && nodes == nodes'
      ensures lists == old(lists)[ts := s] && model == old(model).(slots := old(model).slots[ts := es])
    {
      assert forall t :: t in s ==> t.timeSlot == ts;
      assert forall i, t :: 0 <= i < N && t in lists[i] ==> t.timeSlot == i || i == ts;
      HomedAgain(lists, nodes, ts, s, nodes');
      hide TimeWheel.ValidSlot, Homed;
      slots[ts] := head;
      lists, nodes := lists[ts := s], nodes';
      model := model.(slots := model.slots[ts := es]);
    }

    /** Each created node is linked or released, never both. */
    ghost predicate Accounted()
      reads this
    {
      created == nodes + released && nodes !! released
    }

    constructor (n: nat, si: nat)
      requires 0 < n && 0 < si
      ensures N == n && SI == si && Valid() && Accounted()
      ensures model == Empty(n, si) && created == {} && nodes == {} && released == {}
      ensures curSlot == 0 && forall i :: 0 <= i < N ==> slots[i] == null
      ensures fresh(slots)
    {
      N, SI := n, si;
      slots := new TwTimer?[n];
      curSlot := 0;
      lists := seq(n, i => []);
      model := Empty(n, si);
      nodes, created, released := {}, {}, {};
      new;
      for i := 0 to N
        invariant forall j :: 0 <= j < i ==> slots[j] == null
        invariant curSlot == 0 && lists == seq(n, i => []) && model == Empty(n, si)
        invariant nodes == {} && created == {} && released == {}
      {
        slots[i] := null;
      }
    }

    method Push(ts: nat, timer: TwTimer)
      requires Valid() && ts < N
      requires timer.timeSlot == ts && timer.next == null && timer.prev == null && timer !in nodes
      modifies slots, timer`next, lists[ts]`prev, this`lists, this`model, this`nodes
      ensures Valid() && nodes == old(nodes) + {timer} && lists == old(lists)[ts := [timer] + old(lists)[ts]]
      ensures var es := old(model).slots[ts];
              model == old(model).(slots := old(model).slots[ts := [Entry(timer, timer.rotation)] + es])
    {
      assert timer !in lists[ts];
      ghost var s, es := lists[ts], model.slots[ts];
      var head := LinkFirst(slots[ts], timer, s);
      OtherSlots(ts);
      SetSlot(ts, head, [timer] + s, [Entry(timer, timer.rotation)] + es, nodes + {timer});
    }

    /** Lines 60 to 71: where a new timer goes. */
    method Place(timeout: nat) returns (rotation: nat, ts: nat)
      requires 0 < N && 0 < SI && curSlot < N
      ensures rotation == TicksFor(timeout, SI) / N
      ensures ts == Wrap(curSlot + TicksFor(timeout, SI) % N, N) && ts < N
    {
      var ticks := 0;
      if timeout < SI {
        ticks := 1;
      } else {
        ticks := timeout / SI;
      }
      rotation := ticks / N;
      ts := (curSlot + (ticks % N)) % N;
      WrapIsModulo(curSlot + ticks % N, N);
    }

    /** Lines 60 to 85. */
    method Create(timeout: nat) returns (timer: TwTimer)
      requires Valid() && Accounted()
      modifies this, slots, nodes
      ensures Valid() && Accounted() && fresh(timer)
      ensures nodes == old(nodes) + {timer} && created == old(created) + {timer} && released == old(released)
      ensures model == WheelModel.AddTimer(old(model), timer, timeout)
    {
      ModelWellFormed();
      var rotation, ts := Place(timeout);
      hide TimeWheel.Valid, TicksFor, Wrap;
      timer := Link(rotation, ts);
    }

    /** Lines 72 to 84. */
    method Link(rotation: nat, ts: nat) returns (timer: TwTimer)
      requires Valid() && Accounted() && ts < N
      modifies this, slots, nodes
      ensures Valid() && Accounted() && fresh(timer)
      ensures nodes == old(nodes) + {timer} && created == old(created) + {timer} && released == old(released)
      ensures model == old(model).(slots := old(model).slots[ts := [Entry(timer, rotation)] + old(model).slots[ts]])
    {
      SlotIs(ts);
      timer := new TwTimer(rotation, ts);
      Push(ts, timer);
      created := created + {timer};
    }

    method AddTimer(timeout: int) returns (timer: TwTimer?)
      requires Valid() && Accounted()
      modifies this, slots, nodes
      ensures Valid() && Accounted() && released == old(released)
      ensures timeout < 0 <==> timer == null
      ensures timeout < 0 ==> model == old(model) && Countdowns() == old(Countdowns()) && created == old(created)
      ensures timeout >= 0 ==>
                && fresh(timer) && created == old(created) + {timer}
                && model == WheelModel.AddTimer(old(model), timer, timeout)
                && Countdowns() == old(Countdowns())[timer := TicksFor(timeout, SI)]
    {
      if timeout < 0 {
        return null;
      }
      ghost var w, c := model, Countdowns();
      CountdownsAreTheBag();
      timer := Create(timeout);
      AddRefines(w, c, timer, timeout);
      CountdownsAre(c[timer := TicksFor(timeout, SI)]);
    }

    lemma SlotIs(ts: nat)
      requires Valid() && ts < N
      ensures Chain(slots[ts], lists[ts]) && Stored(lists[ts], model.slots[ts])
      ensures Distinct(lists[ts])
      ensures forall t :: t in lists[ts] ==> t.timeSlot == ts && t in nodes
      ensures |lists[ts]| == |model.slots[ts]|
      ensures forall k :: 0 <= k < |lists[ts]| ==> model.slots[ts][k].id == lists[ts][k]
    {
      assert ValidSlot(slots[ts], ts, lists[ts], model.slots[ts]);
    }

    /** The linked nodes but for one: those of the other slots, and what is left in its own. */
    lemma MembersWithout(timer: TwTimer, ts: nat, k: nat)
      requires Valid() && ts < N && k < |lists[ts]| && lists[ts][k] == timer
      ensures Rehomed(nodes, ts, Cut(lists[ts], k), nodes - {timer})
      ensures timer.timeSlot == ts && forall t :: t in Cut(lists[ts], k) ==> t.timeSlot == ts
    {
      SlotIs(ts);
      CutMembers(lists[ts], k);
    }

    /** Takes a linked node out of its slot and deletes it; `after` is the node behind it. */
    method Remove(timer: TwTimer, ghost ts: nat, ghost k: nat) returns (after: TwTimer?)
      requires Valid() && Accounted() && ts < N
      requires IdAt(model.slots[ts], k) == timer
      modifies slots, lists[ts]`next, lists[ts]`prev, `lists, `model, `nodes, `released
      ensures Valid() && Accounted() && nodes == old(nodes) - {timer} && released == old(released) + {timer}
      ensures model == old(model).(slots := old(model).slots[ts := Cut(old(model).slots[ts], k)])
      ensures after == IdAt(old(model).slots[ts], k + 1)
    {
      assert timer in nodes by {
        SlotIs(ts);
      }
      hide TimeWheel.Valid;
      after := Detach(timer, ts, k);
      Release(timer);
    }

    method Detach(timer: TwTimer, ghost ts: nat, ghost k: nat) returns (after: TwTimer?)
      requires Valid() && ts < N
      requires IdAt(model.slots[ts], k) == timer
      modifies slots, lists[ts]`next, lists[ts]`prev, `lists, `model, `nodes
      ensures Valid() && nodes == old(nodes) - {timer}
      ensures model == old(model).(slots := old(model).slots[ts := Cut(old(model).slots[ts], k)])
      ensures after == IdAt(old(model).slots[ts], k + 1)
    {
      hide Chain, Stored, Cut, Homed, Rehomed, TimeWheel.ValidSlot;
      ghost var s, es := lists[ts], model.slots[ts];
      SlotIs(ts);
      MembersWithout(timer, ts, k);
      var head;
      head, after := Unlink(slots[timer.timeSlot], timer, s, es, k);
      OtherSlots(ts);
      SlotMade(head, ts, Cut(s, k), Cut(es, k));
      SetSlot(timer.timeSlot, head, Cut(s, k), Cut(es, k), nodes - {timer});
    }

    /** `delete timer`: a node that was created and has not been released before. */
    ghost method Release(timer: TwTimer)
      requires timer in created && timer !in released
      modifies `released
      ensures released == old(released) + {timer}
    {
      released := released + {timer};
    }

    /** Lines 123 and 124: one rotation less to wait; `after` is the node behind. */
    method Age(timer: TwTimer, ghost ts: nat, ghost k: nat) returns (after: TwTimer?)
      requires Valid() && ts < N && timer.rotation > 0
      requires IdAt(model.slots[ts], k) == timer
      modifies timer`rotation, `model
      ensures Valid()
      ensures model == old(model).(slots := old(model).slots[ts :=
                old(model).slots[ts][k := Entry(timer, old(timer.rotation) - 1)]])
      ensures after == IdAt(old(model).slots[ts], k + 1)
    {
      SlotIs(ts);
      hide TimeWheel.ValidSlot;
      ghost var es' := model.slots[ts][k := Entry(timer, timer.rotation - 1)];
      after := CountDown(timer, ts, k);
      model := model.(slots := model.slots[ts := es']);
    }

    method CountDown(timer: TwTimer, ghost ts: nat, ghost k: nat) returns (after: TwTimer?)
      requires Valid() && ts < N && timer.rotation > 0 && k < |lists[ts]| == |model.slots[ts]| && lists[ts][k] == timer
      modifies timer`rotation
      ensures ValidExcept(ts) && timer.rotation == old(timer.rotation) - 1 && after == At(lists[ts], k + 1)
      ensures ValidSlot(slots[ts], ts, lists[ts], model.slots[ts][k := Entry(timer, timer.rotation)])
    {
      ghost var s := lists[ts];
      assert forall j :: 0 <= j < |s| && j != k ==> s[j] != timer;
      after := timer.next;
      timer.rotation := timer.rotation - 1;
      OtherSlots(ts);
    }

    lemma Located(timer: TwTimer, k: nat)
      requires Valid() && IdAt(model.slots[curSlot], k) == timer
      ensures timer in nodes && timer.rotation == model.slots[curSlot][k].rotation
    {
      assert lists[curSlot][k] == timer;
    }

    /** Returns the timers whose callback it called, in that order. */
    method Tick() returns (fired: seq<TwTimer>)
      requires Valid() && Accounted()
      modifies this, slots, nodes
      ensures Valid() && Accounted()
      ensures model == WheelModel.Tick(old(model)) && fired == FiredBy(old(model))
      ensures Countdowns() == BagTick(old(Countdowns())) && SameFiring(fired, BagFired(old(Countdowns())))
      ensures created == old(created) && released == old(released) + BagFired(old(Countdowns()))
    {
      hide TimeWheel.Valid, TimeWheel.Accounted, TimeWheel.Countdowns, WheelModel.Tick, BagTick, BagFired, Refines;
      ghost var w, c := model, Countdowns();
      CountdownsAreTheBag();
      ReleasedAre();
      fired := Walk();
      Advance();
      TickRefines(w, c);
      CountdownsAre(BagTick(c));
      ReleasedAre();
      TickKeys(created, c);
    }

    lemma ReleasedAre()
      requires Valid() && Accounted()
      ensures Countdowns().Keys <= created && released == created - Countdowns().Keys
    {
    }

    /** Lines 116 to 151: the current slot is walked, its due timers removed on the way. */
    method Walk() returns (fired: seq<TwTimer>)
      requires Valid() && Accounted()
      modifies slots, nodes, `lists, `model, `nodes, `released
      ensures Valid() && Accounted() && nodes <= old(nodes) && old(released) <= released
      ensures model.(cur := Wrap(curSlot + 1, N)) == WheelModel.Tick(old(model)) && fired == FiredBy(old(model))
    {
      var tmp := slots[curSlot];
      fired := [];
      ghost var w, es, k := model, model.slots[curSlot], 0;
      assert Halfway(w, 0) == w && Due(es[..0]) == [] by {
        HalfwayEnds(w);
      }
      while tmp != null
        invariant Valid() && Accounted() && nodes <= old(nodes) && old(released) <= released
        invariant k <= |es| && tmp == IdAt(es, k)
        invariant model == Halfway(w, k)
        invariant fired == Due(es[..k])
        decreases |es| - k
      {
        assert Due(es[..k + 1]) == if es[k].rotation > 0 then Due(es[..k]) else Due(es[..k]) + [tmp] by {
          HalfwayNext(w, k);
        }
        tmp, fired := Visit(tmp, fired, w, k);
        k := k + 1;
      }
      HalfwayEnds(w);
    }

    /** Lines 121 to 150, one pass through the loop: a timer not yet due is aged, a due one is called back,
        removed and deleted. */
    method Visit(tmp: TwTimer, fired: seq<TwTimer>, ghost w: Wheel<TwTimer>, ghost k: nat)
      returns (after: TwTimer?, fired': seq<TwTimer>)
      requires Valid() && Accounted() && Sized(w) && w.n == N && w.cur == curSlot && IdAt(w.slots[w.cur], k) == tmp
      requires model == Halfway(w, k)
      modifies slots, nodes, `lists, `model, `nodes, `released
      ensures Valid() && Accounted() && nodes <= old(nodes)
      ensures model == Halfway(w, k + 1) && after == IdAt(w.slots[w.cur], k + 1)
      ensures fired' == if w.slots[w.cur][k].rotation > 0 then fired else fired + [tmp]
      ensures old(released) <= released
    {
      fired' := fired;
      HalfwayNext(w, k);
      ghost var j := Kept(w.slots[w.cur], k);
      Located(tmp, j);
      if tmp.rotation > 0 {
        after := Age(tmp, w.cur, j);
      } else {
        fired' := fired + [tmp];
        after := Remove(tmp, w.cur, j);
      }
    }

    /** Line 152. */
    method Advance()
      requires Valid() && Accounted()
      modifies `curSlot, `model
      ensures Valid() && Accounted() && model == old(model).(cur := Wrap(old(curSlot) + 1, N))
    {
      WrapIsModulo(curSlot + 1, N);
      curSlot := (curSlot + 1) % N;
      model := model.(cur := curSlot);
    }

    /** Deleting a linked timer by identity is cutting its entry out of its slot. */
    lemma Position(timer: TwTimer) returns (k: nat)
      requires Valid() && timer in nodes
      ensures timer.timeSlot < N && IdAt(model.slots[timer.timeSlot], k) == timer
      ensures WheelModel.DelTimer(model, timer)
           == model.(slots := model.slots[timer.timeSlot := Cut(model.slots[timer.timeSlot], k)])
    {
      var ts := timer.timeSlot;
      k :| 0 <= k < |lists[ts]| && lists[ts][k] == timer;
      ModelWellFormed();
      DelIsCut(model, ts, k);
    }

    /** Requires what the source requires: a pointer `AddTimer` returned and nothing has released, or null. */
    method DelTimer(timer: TwTimer?)
      requires Valid() && Accounted()
      requires timer == null || timer in nodes
      modifies this, slots, nodes
      ensures Valid() && Accounted() && created == old(created)
      ensures timer == null ==> model == old(model) && released == old(released)
      ensures timer != null ==> model == WheelModel.DelTimer(old(model), timer) && released == old(released) + {timer}
      ensures timer != null ==> Countdowns() == old(Countdowns()) - {timer}
    {
      if timer == null {
        return;
      }
      ghost var k := Position(timer);
      ghost var w, c := model, Countdowns();
      CountdownsAreTheBag();
      hide TimeWheel.Valid, TimeWheel.Countdowns, WheelModel.DelTimer;
      var _ := Remove(timer, timer.timeSlot, k);
      DelRefines(w, c, timer);
      CountdownsAre(c - {timer});
    }

    /** The timers still linked are deleted, each once. */
    method Destroy()
      requires Valid() && Accounted()
      modifies slots, `released
      ensures forall i :: 0 <= i < N ==> slots[i] == null
      ensures released == created
    {
      for i := 0 to N
        invariant forall j :: 0 <= j < i ==> slots[j] == null
        invariant forall j :: i <= j < N ==> slots[j] == old(slots[j])
        invariant old(released) <= released <= created
        invariant forall t :: t in nodes ==> (t in released <==> t.timeSlot < i)
      {
        var tmp := slots[i];
        ghost var s, k := lists[i], 0;
        assert Chain(tmp, s);
        while tmp != null
          invariant k <= |s| && tmp == slots[i] == At(s, k)
          invariant forall j :: 0 <= j < i ==> slots[j] == null
          invariant forall j :: i < j < N ==> slots[j] == old(slots[j])
          invariant old(released) <= released <= created
          invariant forall t :: t in nodes ==> (t in released <==> t.timeSlot < i || t in s[..k])
          decreases |s| - k
        {
          slots[i] := tmp.next;
          Release(tmp);
          tmp := slots[i];
          k := k + 1;
        }
        assert s[..k] == s;
      }
    }

    lemma ModelWellFormed()
      requires Valid()
      ensures WellFormed(model) && model.n == N && model.si == SI && model.cur == curSlot
    {
      forall i | 0 <= i < N
        ensures DistinctIds(model.slots[i])
      {
        assert ValidSlot(slots[i], i, lists[i], model.slots[i]);
      }
    }

    /** remaining(t), read off the fields of each linked node. */
    ghost function Countdowns(): Bag<TwTimer>
      requires Valid()
      reads this, slots, nodes
    {
      map t | t in nodes :: Remaining(t.rotation, curSlot, t.timeSlot, N)
    }

    lemma CountdownsAreTheBag()
      requires Valid()
      ensures WellFormed(model) && Refines(model, Countdowns())
    {
      ModelWellFormed();
      forall i, e | 0 <= i < N && e in model.slots[i]
        ensures e.id in nodes && e.id.timeSlot == i && e.id.rotation == e.rotation
      {
        var k :| 0 <= k < |model.slots[i]| && model.slots[i][k] == e;
        assert lists[i][k] == e.id;
      }
      forall t | t in nodes
        ensures Linked(model, t)
      {
        var k :| 0 <= k < |lists[t.timeSlot]| && lists[t.timeSlot][k] == t;
        assert model.slots[t.timeSlot][k] in model.slots[t.timeSlot];
      }
    }

    lemma CountdownsOfNodes()
      requires Valid()
      ensures Countdowns().Keys == nodes
    {
    }

    lemma CountdownsAre(b: Bag<TwTimer>)
      requires Valid() && WellFormed(model) && Refines(model, b)
      ensures Countdowns() == b
    {
      CountdownsAreTheBag();
      RefinesOneBag(model, Countdowns(), b);
    }
  }
}
