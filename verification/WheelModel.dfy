/** The hashed timing wheel of time_wheel_timer.h as a value, and the machine it is a fast form of: a bag of
    countdowns, every one of which is decremented on every tick. The wheel touches one slot per tick; the
    bag touches everything. The main results say that no run can tell the two apart. */
module WheelModel {
  import opened Common

  /** What the wheel stores of a timer: its identity and the turns of the wheel it still has to wait. */
  datatype Entry<T> = Entry(id: T, rotation: nat)

  /** `n` slots of interval `si`, each an unordered list; `cur` is the slot the next tick visits. */
  datatype Wheel<T> = Wheel(n: nat, si: nat, cur: nat, slots: seq<seq<Entry<T>>>)

  /** The countdown of every linked timer. */
  type Bag<T> = map<T, nat>

  ghost predicate Sized<T>(w: Wheel<T>) {
    0 < w.n && 0 < w.si && w.cur < w.n && |w.slots| == w.n
  }

  ghost predicate WellFormed<T>(w: Wheel<T>) {
    Sized(w) && forall i :: 0 <= i < w.n ==> DistinctIds(w.slots[i])
  }

  ghost predicate DistinctIds<T>(s: seq<Entry<T>>) {
    forall k, l :: 0 <= k < l < |s| ==> s[k].id != s[l].id
  }

  // ---------- The wheel's operations ----------

  /** The number of ticks a timeout is rounded to: at least one, otherwise whole slot intervals. */
  function TicksFor(timeout: nat, si: nat): (ticks: nat)
    requires 0 < si
    ensures 1 <= ticks && (timeout < si ==> ticks == 1)
    ensures si <= timeout ==> ticks * si <= timeout < (ticks + 1) * si
  {
    if timeout < si then 1 else timeout / si
  }

  /** x % n for the sums that occur here, which go round at most once. */
  function Wrap(x: nat, n: nat): nat
    requires x < 2 * n
  {
    if x < n then x else x - n
  }

  lemma WrapIsModulo(x: nat, n: nat)
    requires x < 2 * n
    ensures Wrap(x, n) == x % n
  {
  }

  ghost function AddTimer<T>(w: Wheel<T>, id: T, timeout: int): Wheel<T>
    requires Sized(w)
  {
    if timeout < 0 then w else
      var ticks := TicksFor(timeout, w.si);
      var ts := Wrap(w.cur + ticks % w.n, w.n);
      w.(slots := w.slots[ts := [Entry(id, ticks / w.n)] + w.slots[ts]])
  }

  ghost function Without<T>(s: seq<Entry<T>>, id: T): seq<Entry<T>> {
    if s == [] then []
    else if s[0].id == id then s[1..]
    else [s[0]] + Without(s[1..], id)
  }

  ghost function DelTimer<T>(w: Wheel<T>, id: T): Wheel<T>
    requires Sized(w)
  {
    w.(slots := seq(w.n, i requires 0 <= i < w.n => Without(w.slots[i], id)))
  }

  /** The entries of a visited slot that stay, one rotation closer. */
  ghost function Survivors<T>(s: seq<Entry<T>>): seq<Entry<T>> {
    if s == [] then [] else
      var e := s[|s| - 1];
      Survivors(s[..|s| - 1]) + (if e.rotation > 0 then [Entry(e.id, e.rotation - 1)] else [])
  }

  /** The timers of a visited slot that fire, in list order. */
  ghost function Due<T>(s: seq<Entry<T>>): seq<T> {
    if s == [] then [] else
      var e := s[|s| - 1];
      Due(s[..|s| - 1]) + (if e.rotation > 0 then [] else [e.id])
  }

  ghost function Tick<T>(w: Wheel<T>): Wheel<T>
    requires Sized(w)
  {
    w.(slots := w.slots[w.cur := Survivors(w.slots[w.cur])], cur := Wrap(w.cur + 1, w.n))
  }

  ghost function FiredBy<T>(w: Wheel<T>): seq<T>
    requires Sized(w)
  {
    Due(w.slots[w.cur])
  }

  // ---------- The bag of countdowns ----------

  ghost function BagTick<T>(b: Bag<T>): Bag<T> {
    map id | id in b && b[id] > 0 :: b[id] - 1
  }

  ghost function BagFired<T>(b: Bag<T>): set<T> {
    set id | id in b && b[id] == 0
  }

  // ---------- The simulation relation ----------

  /** How many slots ahead of `cur` slot `i` lies. */
  function Gap(cur: nat, i: nat, n: nat): nat
    requires cur < n && i < n
  {
    if cur <= i then i - cur else i + n - cur
  }

  lemma GapIsModulo(cur: nat, i: nat, n: nat)
    requires cur < n && i < n
    ensures Gap(cur, i, n) == (i - cur) % n
  {
  }

  /** remaining(t) = t.rotation * N + (t.time_slot - cur_slot) mod N */
  function Remaining(rotation: nat, cur: nat, i: nat, n: nat): nat
    requires cur < n && i < n
  {
    rotation * n + Gap(cur, i, n)
  }

  /** The wheel holds exactly the timers of the bag, each where its countdown says. */
  ghost predicate Refines<T>(w: Wheel<T>, b: Bag<T>)
    requires WellFormed(w)
  {
    && (forall i, e :: 0 <= i < w.n && e in w.slots[i] ==> e.id in b && b[e.id] == Remaining(e.rotation, w.cur, i, w.n))
    && (forall id :: id in b ==> Linked(w, id))
  }

  ghost predicate Linked<T>(w: Wheel<T>, id: T)
    requires WellFormed(w)
  {
    exists i, e :: 0 <= i < w.n && e in w.slots[i] && e.id == id
  }

  // ---------- Facts about one slot ----------

  lemma {:induction false} VisitSlot<T>(s: seq<Entry<T>>, x: Entry<T>)
    ensures x in Survivors(s) <==> Entry(x.id, x.rotation + 1) in s
    ensures x.id in Due(s) <==> Entry(x.id, 0) in s
  {
    if s != [] {
      var t, e := s[..|s| - 1], s[|s| - 1];
      assert s == t + [e];
      VisitSlot(t, x);
      assert Entry(x.id, x.rotation + 1) in s <==> Entry(x.id, x.rotation + 1) in t || Entry(x.id, x.rotation + 1) == e;
      assert Entry(x.id, 0) in s <==> Entry(x.id, 0) in t || Entry(x.id, 0) == e;
    }
  }

  /** Of two timers that are due, the one in front in the list fires first. */
  lemma {:induction false} DueInListOrder<T>(s: seq<Entry<T>>, a: nat, b: nat) returns (i: nat, j: nat)
    requires a < b < |s| && s[a].rotation == 0 && s[b].rotation == 0
    ensures i < j < |Due(s)| && Due(s)[i] == s[a].id && Due(s)[j] == s[b].id
  {
    var t := s[..|s| - 1];
    if b + 1 == |s| {
      i := DueAt(t, a);
      j := |Due(t)|;
    } else {
      i, j := DueInListOrder(t, a, b);
    }
  }

  lemma {:induction false} DueAt<T>(s: seq<Entry<T>>, a: nat) returns (i: nat)
    requires a < |s| && s[a].rotation == 0
    ensures i < |Due(s)| && Due(s)[i] == s[a].id
  {
    var t := s[..|s| - 1];
    if a + 1 == |s| {
      i := |Due(t)|;
    } else {
      i := DueAt(t, a);
    }
  }

  /** The visited slot when its first `k` entries have been looked at, and how many of those it kept. */
  ghost function Visited<T>(s: seq<Entry<T>>, k: nat): seq<Entry<T>>
    requires k <= |s|
  {
    Survivors(s[..k]) + s[k..]
  }

  ghost function Kept<T>(s: seq<Entry<T>>, k: nat): nat
    requires k <= |s|
  {
    |Survivors(s[..k])|
  }

  lemma VisitNext<T>(s: seq<Entry<T>>, k: nat)
    requires k < |s|
    ensures |Visited(s, k)| == Kept(s, k) + |s| - k && Visited(s, k)[Kept(s, k)] == s[k]
    ensures k + 1 < |s| ==> Visited(s, k)[Kept(s, k) + 1] == s[k + 1]
    ensures s[k].rotation > 0 ==>
              && Visited(s, k)[Kept(s, k) := Entry(s[k].id, s[k].rotation - 1)] == Visited(s, k + 1)
              && Kept(s, k + 1) == Kept(s, k) + 1 && Due(s[..k + 1]) == Due(s[..k])
    ensures s[k].rotation == 0 ==>
              && Cut(Visited(s, k), Kept(s, k)) == Visited(s, k + 1)
              && Kept(s, k + 1) == Kept(s, k) && Due(s[..k + 1]) == Due(s[..k]) + [s[k].id]
  {
    assert s[..k + 1][..k] == s[..k];
  }

  /** The wheel when a tick has looked at the first `k` entries of its slot. */
  ghost function Halfway<T>(w: Wheel<T>, k: nat): Wheel<T>
    requires Sized(w) && k <= |w.slots[w.cur]|
  {
    w.(slots := w.slots[w.cur := Visited(w.slots[w.cur], k)])
  }

  /** One more entry of the slot: aged in place, or cut out and due. */
  lemma HalfwayNext<T>(w: Wheel<T>, k: nat)
    requires Sized(w) && k < |w.slots[w.cur]|
    ensures var s, h := w.slots[w.cur], Halfway(w, k);
            var j, e := Kept(s, k), s[k];
            && j < |h.slots[w.cur]| && h.slots[w.cur][j] == e
            && (k + 1 < |s| ==> j + 1 < |h.slots[w.cur]| && h.slots[w.cur][j + 1] == s[k + 1])
            && (k + 1 == |s| ==> j + 1 == |h.slots[w.cur]|)
            && (e.rotation > 0 ==>
                  && h.(slots := h.slots[w.cur := h.slots[w.cur][j := Entry(e.id, e.rotation - 1)]])
                       == Halfway(w, k + 1)
                  && Due(s[..k + 1]) == Due(s[..k]))
            && (e.rotation == 0 ==>
                  && h.(slots := h.slots[w.cur := Cut(h.slots[w.cur], j)]) == Halfway(w, k + 1)
                  && Due(s[..k + 1]) == Due(s[..k]) + [e.id])
  {
    VisitNext(w.slots[w.cur], k);
  }

  lemma HalfwayEnds<T>(w: Wheel<T>)
    requires Sized(w)
    ensures var s := w.slots[w.cur];
            && Halfway(w, 0) == w && Due(s[..0]) == []
            && Halfway(w, |s|).(cur := Wrap(w.cur + 1, w.n)) == Tick(w) && Due(s[..|s|]) == FiredBy(w)
  {
    var s := w.slots[w.cur];
    assert s[..|s|] == s;
    assert Visited(s, |s|) == Survivors(s);
    assert Visited(s, 0) == s && w.slots[w.cur := s] == w.slots;
  }

  lemma {:induction false} VisitKeepsDistinct<T>(s: seq<Entry<T>>)
    requires DistinctIds(s)
    ensures DistinctIds(Survivors(s)) && Distinct(Due(s))
  {
    if s != [] {
      var t, e := s[..|s| - 1], s[|s| - 1];
      VisitKeepsDistinct(t);
      forall k | 0 <= k < |Survivors(t)|
        ensures Survivors(t)[k].id != e.id
      {
        VisitSlot(t, Survivors(t)[k]);
      }
      forall k | 0 <= k < |Due(t)|
        ensures Due(t)[k] != e.id
      {
        VisitSlot(t, Entry(Due(t)[k], 0));
      }
    }
  }

  /** The sequence lists exactly the set, each element once. */
  ghost predicate SameFiring<T>(s: seq<T>, fired: set<T>) {
    Distinct(s) && (forall id :: id in s ==> id in fired) && forall id :: id in fired ==> id in s
  }

  lemma {:induction false} RemoveFromSlot<T>(s: seq<Entry<T>>, id: T)
    requires DistinctIds(s)
    ensures DistinctIds(Without(s, id))
    ensures forall e :: e in Without(s, id) <==> e in s && e.id != id
  {
    if s != [] {
      assert s == [s[0]] + s[1..];
      RemoveFromSlot(s[1..], id);
    }
  }

  /** One tick of the wheel moves every slot one closer, and the visited slot to the far end. */
  lemma GapAfterTick(cur: nat, i: nat, n: nat)
    requires cur < n && i < n
    ensures Gap(Wrap(cur + 1, n), i, n) == if i == cur then n - 1 else Gap(cur, i, n) - 1
  {
  }

  lemma RemainingAfterTick(rotation: nat, cur: nat, i: nat, n: nat)
    requires cur < n && i < n && (i == cur ==> rotation > 0)
    ensures Remaining(if i == cur then rotation - 1 else rotation, Wrap(cur + 1, n), i, n)
         == Remaining(rotation, cur, i, n) - 1
  {
    GapAfterTick(cur, i, n);
    assert (rotation - 1) * n == rotation * n - n;
  }

  lemma SplitTicks(ticks: nat, cur: nat, n: nat)
    requires cur < n
    ensures Remaining(ticks / n, cur, Wrap(cur + ticks % n, n), n) == ticks
  {
  }

  lemma RemainingZero(rotation: nat, cur: nat, i: nat, n: nat)
    requires cur < n && i < n
    ensures Remaining(rotation, cur, i, n) == 0 <==> rotation == 0 && i == cur
  {
    if rotation > 0 {
      assert rotation * n > 0;
    }
  }

  // ---------- Each operation of the wheel is the bag's ----------

  lemma AddRefines<T>(w: Wheel<T>, b: Bag<T>, id: T, timeout: nat)
    requires WellFormed(w) && Refines(w, b) && id !in b
    ensures WellFormed(AddTimer(w, id, timeout))
    ensures Refines(AddTimer(w, id, timeout), b[id := TicksFor(timeout, w.si)])
  {
    hide Refines, DistinctIds;
    var ticks := TicksFor(timeout, w.si);
    var ts, e0 := Wrap(w.cur + ticks % w.n, w.n), Entry(id, ticks / w.n);
    assert Remaining(e0.rotation, w.cur, ts, w.n) == ticks by {
      SplitTicks(ticks, w.cur, w.n);
    }
    InsertRefines(w, b, ts, e0);
  }

  lemma InsertRefines<T>(w: Wheel<T>, b: Bag<T>, ts: nat, e0: Entry<T>)
    requires WellFormed(w) && Refines(w, b) && e0.id !in b && ts < w.n
    ensures var w' := w.(slots := w.slots[ts := [e0] + w.slots[ts]]);
            WellFormed(w') && Refines(w', b[e0.id := Remaining(e0.rotation, w.cur, ts, w.n)])
  {
    var w' := w.(slots := w.slots[ts := [e0] + w.slots[ts]]);
    forall k | 0 <= k < |w.slots[ts]|
      ensures w.slots[ts][k].id != e0.id
    {
      assert w.slots[ts][k] in w.slots[ts];
    }
    forall x | x in b || x == e0.id
      ensures Linked(w', x)
    {
      if x == e0.id {
        assert e0 in w'.slots[ts];
      } else {
        assert Linked(w, x);
        var i, e :| 0 <= i < w.n && e in w.slots[i] && e.id == x;
        assert e in w'.slots[i];
      }
    }
  }

  lemma DelRefines<T>(w: Wheel<T>, b: Bag<T>, id: T)
    requires WellFormed(w) && Refines(w, b)
    ensures WellFormed(DelTimer(w, id)) && Refines(DelTimer(w, id), b - {id})
  {
    var w' := DelTimer(w, id);
    DelWellFormed(w, id);
    forall i, e | 0 <= i < w.n && e in w'.slots[i]
      ensures e.id in b - {id} && (b - {id})[e.id] == Remaining(e.rotation, w'.cur, i, w.n)
    {
      DelEntry(w, id, i, e);
      assert e in w.slots[i];
    }
    forall x | x in b - {id}
      ensures Linked(w', x)
    {
      assert Linked(w, x);
      var i, e :| 0 <= i < w.n && e in w.slots[i] && e.id == x;
      DelEntry(w, id, i, e);
      assert e in w'.slots[i];
    }
  }

  lemma DelEntry<T>(w: Wheel<T>, id: T, i: nat, e: Entry<T>)
    requires WellFormed(w) && i < w.n
    ensures e in DelTimer(w, id).slots[i] <==> e in w.slots[i] && e.id != id
  {
    RemoveFromSlot(w.slots[i], id);
  }

  lemma DelWellFormed<T>(w: Wheel<T>, id: T)
    requires WellFormed(w)
    ensures WellFormed(DelTimer(w, id))
  {
    forall i | 0 <= i < w.n
      ensures DistinctIds(DelTimer(w, id).slots[i])
    {
      RemoveFromSlot(w.slots[i], id);
    }
  }

  /** One tick visits one slot, yet fires exactly the zero countdowns and decrements every other one. */
  lemma TickRefines<T>(w: Wheel<T>, b: Bag<T>)
    requires WellFormed(w) && Refines(w, b)
    ensures WellFormed(Tick(w)) && Refines(Tick(w), BagTick(b))
    ensures SameFiring(FiredBy(w), BagFired(b))
  {
    TickWellFormed(w);
    var w' := Tick(w);
    forall i, e | 0 <= i < w.n && e in w'.slots[i]
      ensures e.id in BagTick(b) && BagTick(b)[e.id] == Remaining(e.rotation, w'.cur, i, w.n)
    {
      TickMovesCloser(w, b, i, e);
    }
    forall id | id in BagTick(b)
      ensures Linked(w', id)
    {
      TickKeepsLinked(w, b, id);
    }
    TickFires(w, b);
  }

  lemma TickWellFormed<T>(w: Wheel<T>)
    requires WellFormed(w)
    ensures WellFormed(Tick(w)) && Distinct(FiredBy(w))
  {
    VisitKeepsDistinct(w.slots[w.cur]);
  }

  lemma TickMovesCloser<T>(w: Wheel<T>, b: Bag<T>, i: nat, e: Entry<T>)
    requires WellFormed(w) && WellFormed(Tick(w)) && Refines(w, b)
    requires i < w.n && e in Tick(w).slots[i]
    ensures e.id in BagTick(b) && BagTick(b)[e.id] == Remaining(e.rotation, Tick(w).cur, i, w.n)
  {
    if i == w.cur {
      VisitSlot(w.slots[i], e);
      assert Entry(e.id, e.rotation + 1) in w.slots[i];
      RemainingAfterTick(e.rotation + 1, w.cur, i, w.n);
    } else {
      assert e in w.slots[i];
      RemainingZero(e.rotation, w.cur, i, w.n);
      RemainingAfterTick(e.rotation, w.cur, i, w.n);
    }
  }

  lemma TickKeepsLinked<T>(w: Wheel<T>, b: Bag<T>, id: T)
    requires WellFormed(w) && WellFormed(Tick(w)) && Refines(w, b)
    requires id in b && b[id] > 0
    ensures Linked(Tick(w), id)
  {
    assert Linked(w, id);
    var i, e :| 0 <= i < w.n && e in w.slots[i] && e.id == id;
    RemainingZero(e.rotation, w.cur, i, w.n);
    TickKeepsEntry(w, i, e);
  }

  lemma TickKeepsEntry<T>(w: Wheel<T>, i: nat, e: Entry<T>)
    requires WellFormed(w) && WellFormed(Tick(w))
    requires i < w.n && e in w.slots[i] && (i == w.cur ==> e.rotation > 0)
    ensures Linked(Tick(w), e.id)
  {
    var w' := Tick(w);
    var e' := if i == w.cur then Entry(e.id, e.rotation - 1) else e;
    VisitSlot(w.slots[i], e');
    assert e' in w'.slots[i] && e'.id == e.id;
  }

  lemma TickFires<T>(w: Wheel<T>, b: Bag<T>)
    requires WellFormed(w) && Refines(w, b)
    ensures SameFiring(FiredBy(w), BagFired(b))
  {
    TickWellFormed(w);
    forall id | id in FiredBy(w)
      ensures id in BagFired(b)
    {
      TickFiresZeros(w, b, id);
    }
    forall id | id in BagFired(b)
      ensures id in FiredBy(w)
    {
      TickFiresZeros(w, b, id);
    }
  }

  lemma TickFiresZeros<T>(w: Wheel<T>, b: Bag<T>, id: T)
    requires WellFormed(w) && Refines(w, b)
    ensures id in FiredBy(w) <==> id in BagFired(b)
  {
    VisitSlot(w.slots[w.cur], Entry(id, 0));
    if id in BagFired(b) {
      assert Linked(w, id);
      var i, e :| 0 <= i < w.n && e in w.slots[i] && e.id == id;
      RemainingZero(e.rotation, w.cur, i, w.n);
      assert e == Entry(id, 0);
    }
    if Entry(id, 0) in w.slots[w.cur] {
      RemainingZero(0, w.cur, w.cur, w.n);
    }
  }

  // ---------- Whole runs ----------

  datatype Op<T> = Add(id: T, timeout: int) | Del(id: T) | Advance

  /** The wheel a constructor leaves: every slot empty, the first slot current. */
  ghost function Empty<T>(n: nat, si: nat): (w: Wheel<T>)
    requires 0 < n && 0 < si
    ensures WellFormed(w) && Refines(w, map[])
  {
    var w := Wheel(n, si, 0, seq(n, i => []));
    w
  }

  ghost function Step<T>(w: Wheel<T>, op: Op<T>): (w': Wheel<T>)
    requires Sized(w)
    ensures Sized(w') && w'.n == w.n && w'.si == w.si
  {
    match op
    case Add(id, timeout) => AddTimer(w, id, timeout)
    case Del(id) => DelTimer(w, id)
    case Advance => Tick(w)
  }

  ghost function After<T>(w: Wheel<T>, ops: seq<Op<T>>): (w': Wheel<T>)
    requires Sized(w)
    ensures Sized(w')
    decreases |ops|
  {
    if ops == [] then w else After(Step(w, ops[0]), ops[1..])
  }

  /** What fired in each tick of a run, tick by tick. */
  ghost function Fires<T>(w: Wheel<T>, ops: seq<Op<T>>): seq<seq<T>>
    requires Sized(w)
    decreases |ops|
  {
    if ops == [] then []
    else (if ops[0].Advance? then [FiredBy(w)] else []) + Fires(Step(w, ops[0]), ops[1..])
  }

  ghost function BagStep<T>(b: Bag<T>, si: nat, op: Op<T>): Bag<T>
    requires 0 < si
  {
    match op
    case Add(id, timeout) => if timeout < 0 then b else b[id := TicksFor(timeout, si)]
    case Del(id) => b - {id}
    case Advance => BagTick(b)
  }

  ghost function BagAfter<T>(b: Bag<T>, si: nat, ops: seq<Op<T>>): Bag<T>
    requires 0 < si
    decreases |ops|
  {
    if ops == [] then b else BagAfter(BagStep(b, si, ops[0]), si, ops[1..])
  }

  ghost function BagFires<T>(b: Bag<T>, si: nat, ops: seq<Op<T>>): seq<set<T>>
    requires 0 < si
    decreases |ops|
  {
    if ops == [] then []
    else (if ops[0].Advance? then [BagFired(b)] else []) + BagFires(BagStep(b, si, ops[0]), si, ops[1..])
  }

  /** A new timer is a new object; only a timer that is still linked may be deleted. */
  ghost predicate LegalOp<T>(b: Bag<T>, op: Op<T>) {
    match op
    case Add(id, timeout) => id !in b
    case Del(id) => id in b
    case Advance => true
  }

  ghost predicate Legal<T>(b: Bag<T>, si: nat, ops: seq<Op<T>>)
    requires 0 < si
    decreases |ops|
  {
    ops == [] || (LegalOp(b, ops[0]) && Legal(BagStep(b, si, ops[0]), si, ops[1..]))
  }

  ghost predicate SameFirings<T>(f: seq<seq<T>>, g: seq<set<T>>) {
    |f| == |g| && forall k :: 0 <= k < |f| ==> SameFiring(f[k], g[k])
  }

  lemma StepRefines<T>(w: Wheel<T>, b: Bag<T>, op: Op<T>)
    requires WellFormed(w) && Refines(w, b) && LegalOp(b, op)
    ensures WellFormed(Step(w, op)) && Refines(Step(w, op), BagStep(b, w.si, op))
    ensures op.Advance? ==> SameFiring(FiredBy(w), BagFired(b))
  {
    if op.Advance? {
      TickRefines(w, b);
    } else if op.Del? {
      DelRefines(w, b, op.id);
    } else if op.timeout >= 0 {
      AddRefines(w, b, op.id, op.timeout);
    }
  }

  /** Main result: over any run, the wheel ends refining the bag and fires, tick by tick, exactly what the bag
      fires, each timer once. */
  lemma {:induction false} RunRefines<T>(w: Wheel<T>, b: Bag<T>, ops: seq<Op<T>>)
    requires WellFormed(w) && Refines(w, b) && Legal(b, w.si, ops)
    ensures WellFormed(After(w, ops)) && Refines(After(w, ops), BagAfter(b, w.si, ops))
    ensures SameFirings(Fires(w, ops), BagFires(b, w.si, ops))
    decreases |ops|
  {
    if ops != [] {
      StepRefines(w, b, ops[0]);
      RunRefines(Step(w, ops[0]), BagStep(b, w.si, ops[0]), ops[1..]);
    }
  }

  // ---------- When a timer fires ----------

  /** The run neither deletes this timer nor creates it a second time. */
  ghost predicate LeavesAlone<T>(ops: seq<Op<T>>, id: T) {
    forall op :: op in ops ==> op.Advance? || op.id != id
  }

  lemma {:induction false} BagFiringTime<T>(b: Bag<T>, si: nat, ops: seq<Op<T>>, id: T)
    requires 0 < si && LeavesAlone(ops, id)
    ensures forall k :: 0 <= k < |BagFires(b, si, ops)| ==> (id in BagFires(b, si, ops)[k] <==> id in b && b[id] == k)
    ensures id in BagAfter(b, si, ops) <==> id in b && |BagFires(b, si, ops)| <= b[id]
    ensures id in BagAfter(b, si, ops) ==> BagAfter(b, si, ops)[id] == b[id] - |BagFires(b, si, ops)|
    decreases |ops|
  {
    if ops != [] {
      var op := ops[0];
      assert op in ops;
      BagFiringTime(BagStep(b, si, op), si, ops[1..], id);
      var f, g := BagFires(b, si, ops), BagFires(BagStep(b, si, op), si, ops[1..]);
      if op.Advance? {
        assert f == [BagFired(b)] + g;
      } else {
        assert f == g;
      }
    }
  }

  lemma {:induction false} BagRunsCompose<T>(b: Bag<T>, si: nat, xs: seq<Op<T>>, ys: seq<Op<T>>)
    requires 0 < si
    ensures BagAfter(b, si, xs + ys) == BagAfter(BagAfter(b, si, xs), si, ys)
    ensures BagFires(b, si, xs + ys) == BagFires(b, si, xs) + BagFires(BagAfter(b, si, xs), si, ys)
    ensures Legal(b, si, xs + ys) <==> Legal(b, si, xs) && Legal(BagAfter(b, si, xs), si, ys)
    decreases |xs|
  {
    if xs == [] {
      assert xs + ys == ys;
    } else {
      var op := xs[0];
      assert xs + ys == [op] + (xs[1..] + ys) && xs == [op] + xs[1..];
      OneOpMore(b, si, op, xs[1..] + ys);
      OneOpMore(b, si, op, xs[1..]);
      hide BagStep, BagFired, LegalOp, BagAfter, BagFires, Legal;
      BagRunsCompose(BagStep(b, si, op), si, xs[1..], ys);
    }
  }

  lemma OneOpMore<T>(b: Bag<T>, si: nat, op: Op<T>, ops: seq<Op<T>>)
    requires 0 < si
    ensures BagAfter(b, si, [op] + ops) == BagAfter(BagStep(b, si, op), si, ops)
    ensures BagFires(b, si, [op] + ops)
         == (if op.Advance? then [BagFired(b)] else []) + BagFires(BagStep(b, si, op), si, ops)
    ensures Legal(b, si, [op] + ops) <==> LegalOp(b, op) && Legal(BagStep(b, si, op), si, ops)
  {
    assert ([op] + ops)[1..] == ops;
  }

  lemma {:induction false} RunsCompose<T>(w: Wheel<T>, xs: seq<Op<T>>, ys: seq<Op<T>>)
    requires Sized(w)
    ensures After(w, xs + ys) == After(After(w, xs), ys)
    ensures Fires(w, xs + ys) == Fires(w, xs) + Fires(After(w, xs), ys)
    decreases |xs|
  {
    hide Step, FiredBy;
    if xs == [] {
      assert xs + ys == ys;
    } else {
      assert (xs + ys)[0] == xs[0] && (xs + ys)[1..] == xs[1..] + ys;
      RunsCompose(Step(w, xs[0]), xs[1..], ys);
    }
  }

  ghost function TickCount<T>(ops: seq<Op<T>>): nat {
    if ops == [] then 0 else (if ops[0].Advance? then 1 else 0) + TickCount(ops[1..])
  }

  lemma {:induction false} OneFiringPerTick<T>(b: Bag<T>, si: nat, ops: seq<Op<T>>)
    requires 0 < si
    ensures |BagFires(b, si, ops)| == TickCount(ops)
    decreases |ops|
  {
    if ops != [] {
      OneFiringPerTick(BagStep(b, si, ops[0]), si, ops[1..]);
    }
  }

  /** From tick call `from` on, `id` is fired by the one that comes `wait` calls later, once, and by no other. */
  ghost predicate FiresOnce<T>(f: seq<seq<T>>, from: nat, wait: nat, id: T) {
    forall k :: from <= k < |f| ==> Distinct(f[k]) && (id in f[k] <==> k == from + wait)
  }

  lemma BagFiringAfterAdd<T>(b: Bag<T>, si: nat, before: seq<Op<T>>, id: T, timeout: nat, later: seq<Op<T>>)
    requires 0 < si && LeavesAlone(later, id)
    ensures var ops := before + ([Add(id, timeout)] + later);
            var g, from := BagFires(b, si, ops), TickCount(before);
            && |g| == from + TickCount(later)
            && (forall k :: from <= k < |g| ==> (id in g[k] <==> k == from + TicksFor(timeout, si)))
            && (id in BagAfter(b, si, ops) <==> TickCount(later) <= TicksFor(timeout, si))
  {
    var add: Op<T> := Add(id, timeout);
    assert ([add] + later)[1..] == later;
    BagRunsCompose(b, si, before, [add] + later);
    OneFiringPerTick(b, si, before);
    var b' := BagStep(BagAfter(b, si, before), si, add);
    BagFiringTime(b', si, later, id);
    OneFiringPerTick(b', si, later);
  }

  /** Main result: on any run, a timer added with a non-negative timeout and left alone fires in tick call number
      TicksFor + 1 after its add, once, and in no other call after the add; until then, and only until then, it stays
      linked. */
  lemma FiringTimeFrom<T>(w: Wheel<T>, b: Bag<T>, before: seq<Op<T>>, id: T, timeout: nat, later: seq<Op<T>>)
    requires WellFormed(w) && Refines(w, b)
    requires Legal(b, w.si, before + ([Add(id, timeout)] + later)) && LeavesAlone(later, id)
    ensures var ops := before + ([Add(id, timeout)] + later);
            var f := Fires(w, ops);
            && |f| == TickCount(before) + TickCount(later)
            && FiresOnce(f, TickCount(before), TicksFor(timeout, w.si), id)
            && WellFormed(After(w, ops))
            && (Linked(After(w, ops), id) <==> TickCount(later) <= TicksFor(timeout, w.si))
  {
    var ops := before + ([Add(id, timeout)] + later);
    var f, g := Fires(w, ops), BagFires(b, w.si, ops);
    RunRefines(w, b, ops);
    assert SameFirings(f, g);
    BagFiringAfterAdd(b, w.si, before, id, timeout, later);
    forall k | TickCount(before) <= k < |f|
      ensures Distinct(f[k]) && (id in f[k] <==> id in g[k])
    {
      assert SameFiring(f[k], g[k]);
    }
    LinkedIsInBag(After(w, ops), BagAfter(b, w.si, ops), id);
  }

  /** In particular on any run from an empty wheel. */
  lemma FiringTime<T>(n: nat, si: nat, before: seq<Op<T>>, id: T, timeout: nat, later: seq<Op<T>>)
    requires 0 < n && 0 < si
    requires Legal(map[], si, before + ([Add(id, timeout)] + later)) && LeavesAlone(later, id)
    ensures var ops := before + ([Add(id, timeout)] + later);
            var f := Fires(Empty(n, si), ops);
            && |f| == TickCount(before) + TickCount(later)
            && FiresOnce(f, TickCount(before), TicksFor(timeout, si), id)
            && WellFormed(After(Empty(n, si), ops))
            && (Linked(After(Empty(n, si), ops), id) <==> TickCount(later) <= TicksFor(timeout, si))
  {
    FiringTimeFrom(Empty(n, si), map[], before, id, timeout, later);
  }

  lemma LinkedIsInBag<T>(w: Wheel<T>, b: Bag<T>, id: T)
    requires WellFormed(w) && Refines(w, b)
    ensures Linked(w, id) <==> id in b
  {
  }

  // ---------- Conservation ----------

  ghost function CreatedBy<T>(op: Op<T>): multiset<T> {
    if op.Add? && op.timeout >= 0 then multiset{op.id} else multiset{}
  }

  ghost function DeletedBy<T>(op: Op<T>): multiset<T> {
    if op.Del? then multiset{op.id} else multiset{}
  }

  ghost function Created<T>(ops: seq<Op<T>>): multiset<T> {
    if ops == [] then multiset{} else CreatedBy(ops[0]) + Created(ops[1..])
  }

  ghost function Deleted<T>(ops: seq<Op<T>>): multiset<T> {
    if ops == [] then multiset{} else DeletedBy(ops[0]) + Deleted(ops[1..])
  }

  ghost function AllFired<T>(f: seq<seq<T>>): multiset<T> {
    if f == [] then multiset{} else multiset(f[0]) + AllFired(f[1..])
  }

  ghost function BagAllFired<T>(f: seq<set<T>>): multiset<T> {
    if f == [] then multiset{} else multiset(f[0]) + BagAllFired(f[1..])
  }

  lemma {:induction false} SameFiringMultiset<T>(s: seq<T>, fired: set<T>)
    requires SameFiring(s, fired)
    ensures multiset(s) == multiset(fired)
  {
    if s == [] {
      assert fired == {};
    } else {
      assert s == [s[0]] + s[1..];
      assert s[0] in s && forall id :: id in s[1..] ==> id in s;
      SameFiringMultiset(s[1..], fired - {s[0]});
    }
  }

  lemma {:induction false} SameFiringsMultiset<T>(f: seq<seq<T>>, g: seq<set<T>>)
    requires SameFirings(f, g)
    ensures AllFired(f) == BagAllFired(g)
  {
    if f != [] {
      assert SameFiring(f[0], g[0]);
      SameFiringMultiset(f[0], g[0]);
      forall k | 0 <= k < |f[1..]|
        ensures SameFiring(f[1..][k], g[1..][k])
      {
        assert SameFiring(f[k + 1], g[k + 1]);
      }
      SameFiringsMultiset(f[1..], g[1..]);
    }
  }

  lemma StepConserves<T>(b: Bag<T>, si: nat, op: Op<T>)
    requires 0 < si && LegalOp(b, op)
    ensures multiset(b.Keys) + CreatedBy(op)
         == multiset(BagStep(b, si, op).Keys) + DeletedBy(op)
            + (if op.Advance? then multiset(BagFired(b)) else multiset{})
  {
    var b' := BagStep(b, si, op);
    match op
    case Add(id, timeout) =>
      if timeout >= 0 {
        assert b'.Keys == b.Keys + {id};
      }
    case Del(id) =>
      assert b'.Keys == b.Keys - {id};
    case Advance =>
      assert b'.Keys == b.Keys - BagFired(b);
  }

  /** Shuffle, with what leaves counted in two parts. */
  lemma ShuffleTwo<T>(k: multiset<T>, c: multiset<T>, c': multiset<T>, k': multiset<T>, d: multiset<T>, f: multiset<T>,
                      z: multiset<T>, d': multiset<T>, f': multiset<T>)
    requires k + c == k' + d + f && k' + c' == z + d' + f'
    ensures k + (c + c') == z + (d + d') + (f + f')
  {
    assert k' + d + f == k' + (d + f) && z + d' + f' == z + (d' + f');
    Shuffle(k, c, c', k', d + f, z, d' + f');
    assert z + ((d + f) + (d' + f')) == z + (d + d') + (f + f');
  }

  lemma {:induction false} BagConservation<T>(b: Bag<T>, si: nat, ops: seq<Op<T>>)
    requires 0 < si && Legal(b, si, ops)
    ensures multiset(b.Keys) + Created(ops)
         == multiset(BagAfter(b, si, ops).Keys) + Deleted(ops) + BagAllFired(BagFires(b, si, ops))
    decreases |ops|
  {
    if ops != [] {
      var op, rest, b' := ops[0], ops[1..], BagStep(b, si, ops[0]);
      var f, f' := BagFires(b, si, ops), BagFires(b', si, rest);
      var now := if op.Advance? then multiset(BagFired(b)) else multiset{};
      StepConserves(b, si, op);
      AllFiredNext(b, si, ops);
      hide BagFires, BagAllFired, BagFired, BagStep, CreatedBy, DeletedBy, LegalOp;
      BagConservation(b', si, rest);
      ShuffleTwo(multiset(b.Keys), CreatedBy(op), Created(rest), multiset(b'.Keys), DeletedBy(op), now,
                 multiset(BagAfter(b', si, rest).Keys), Deleted(rest), BagAllFired(f'));
    }
  }

  lemma AllFiredNext<T>(b: Bag<T>, si: nat, ops: seq<Op<T>>)
    requires 0 < si && ops != []
    ensures BagAllFired(BagFires(b, si, ops)) ==
              (if ops[0].Advance? then multiset(BagFired(b)) else multiset{})
              + BagAllFired(BagFires(BagStep(b, si, ops[0]), si, ops[1..]))
  {
    var f, f' := BagFires(b, si, ops), BagFires(BagStep(b, si, ops[0]), si, ops[1..]);
    hide BagStep, BagFired;
    if ops[0].Advance? {
      assert f == [BagFired(b)] + f' && f[1..] == f';
    } else {
      assert f == f';
    }
  }

  /** Every timer created over a run is, exactly once, still linked, deleted or fired. */
  lemma Conservation<T>(w: Wheel<T>, b: Bag<T>, ops: seq<Op<T>>)
    requires WellFormed(w) && Refines(w, b) && Legal(b, w.si, ops)
    ensures multiset(b.Keys) + Created(ops)
         == multiset(BagAfter(b, w.si, ops).Keys) + Deleted(ops) + AllFired(Fires(w, ops))
  {
    RunRefines(w, b, ops);
    BagConservation(b, w.si, ops);
    SameFiringsMultiset(Fires(w, ops), BagFires(b, w.si, ops));
  }

  // ---------- The wheel of the nodes' own fields ----------

  lemma {:induction false} WithoutIsCut<T>(s: seq<Entry<T>>, k: nat)
    requires k < |s| && DistinctIds(s)
    ensures Without(s, s[k].id) == Cut(s, k)
  {
    if k > 0 {
      WithoutIsCut(s[1..], k - 1);
    }
  }

  lemma {:induction false} WithoutAbsent<T>(s: seq<Entry<T>>, id: T)
    requires forall k :: 0 <= k < |s| ==> s[k].id != id
    ensures Without(s, id) == s
  {
    if s != [] {
      WithoutAbsent(s[1..], id);
    }
  }

  /** Deleting by identity is cutting the one entry out of the one slot it is in. */
  lemma DelIsCut<T>(w: Wheel<T>, ts: nat, k: nat)
    requires WellFormed(w) && ts < w.n && k < |w.slots[ts]|
    requires forall i, l :: 0 <= i < w.n && i != ts && 0 <= l < |w.slots[i]| ==> w.slots[i][l].id != w.slots[ts][k].id
    ensures DelTimer(w, w.slots[ts][k].id) == w.(slots := w.slots[ts := Cut(w.slots[ts], k)])
  {
    WithoutIsCut(w.slots[ts], k);
    forall i | 0 <= i < w.n && i != ts
      ensures Without(w.slots[i], w.slots[ts][k].id) == w.slots[i]
    {
      WithoutAbsent(w.slots[i], w.slots[ts][k].id);
    }
  }

  /** A wheel refines at most one bag. */
  lemma RefinesOneBag<T>(w: Wheel<T>, b: Bag<T>, c: Bag<T>)
    requires WellFormed(w) && Refines(w, b) && Refines(w, c)
    ensures b == c
  {
    forall id
      ensures id in b <==> Linked(w, id)
      ensures id in c <==> Linked(w, id)
    {
      LinkedIsInBag(w, b, id);
      LinkedIsInBag(w, c, id);
    }
    forall id | id in b && id in c
      ensures b[id] == c[id]
    {
      assert Linked(w, id);
    }
  }
}
