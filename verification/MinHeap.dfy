/** The heap of timers of min_heap.cpp: bottom-up heapify, percolate-down and growth as they are; insertion as it
    is meant, and as it is written. `add_timer` ends its loop at line 106 without storing the timer at the hole
    it has opened. */
module MinHeap {
  import opened Common

  class HeapTimer {
    const expire: int

    constructor (expire: int)
      ensures this.expire == expire
    {
      this.expire := expire;
    }
  }

  type Entries = seq<HeapTimer?>

  function Key(t: HeapTimer?): int {
    if t == null then 0 else t.expire
  }

  function Parent(i: nat): nat
    requires i > 0
  {
    (i - 1) / 2
  }

  predicate Live(s: Entries) {
    forall i :: 0 <= i < |s| ==> s[i] != null
  }

  predicate Ordered(s: Entries, i: nat)
    requires 0 < i < |s|
  {
    Key(s[Parent(i)]) <= Key(s[i])
  }

  /** Heap order at every parent from `lo` on. */
  predicate HeapFrom(s: Entries, lo: nat) {
    forall i :: 0 < i < |s| && Parent(i) >= lo ==> Ordered(s, i)
  }

  predicate IsHeap(s: Entries) {
    HeapFrom(s, 0)
  }

  lemma {:induction false} RootIsLeast(s: Entries, i: nat)
    requires IsHeap(s) && i < |s|
    ensures Key(s[0]) <= Key(s[i])
  {
    if i > 0 {
      assert Ordered(s, i);
      RootIsLeast(s, Parent(i));
    }
  }

  // ---------- Percolating down ----------

  function Swap(s: Entries, i: nat, j: nat): Entries
    requires i < |s| && j < |s|
  {
    s[i := s[j]][j := s[i]]
  }

  /** The child of `h` with the earlier expiry. */
  function LeastChild(s: Entries, h: nat): (c: nat)
    requires 2 * h + 1 < |s|
    ensures c < |s| && c > h && Parent(c) == h
    ensures forall i :: 0 < i < |s| && Parent(i) == h ==> Key(s[c]) <= Key(s[i])
    ensures c == 2 * h + 2 ==> Key(s[c]) < Key(s[c - 1])
  {
    var c := 2 * h + 1;
    assert forall i :: 0 < i && Parent(i) == h ==> i == c || i == c + 1;
    if c + 1 < |s| && Key(s[c + 1]) < Key(s[c]) then c + 1 else c
  }

  function SiftDown(s: Entries, h: nat): (r: Entries)
    requires h < |s|
    ensures |r| == |s|
    decreases |s| - h
  {
    if 2 * h + 1 >= |s| then s
    else
      var c := LeastChild(s, h);
      if Key(s[c]) < Key(s[h]) then SiftDown(Swap(s, h, c), c) else s
  }

  lemma SiftOnce(s: Entries, h: nat)
    requires 2 * h + 1 < |s| && Live(s)
    ensures var c := LeastChild(s, h);
            && Live(Swap(s, h, c))
            && SiftDown(s, h) == if Key(s[c]) < Key(s[h]) then SiftDown(Swap(s, h, c), c) else s
  {
  }

  /** Where the loop stops, there is nothing left to do. */
  lemma SiftEnds(s: Entries, h: nat)
    requires h < |s| && (2 * h + 1 < |s| ==> Key(s[h]) <= Key(s[LeastChild(s, h)]))
    ensures SiftDown(s, h) == s
  {
  }

  /** Heap order from `lo` on but for the children of `h`, which are at least above `h`'s parent. */
  predicate HeapBut(s: Entries, lo: nat, h: nat) {
    && (forall i :: 0 < i < |s| && Parent(i) >= lo && Parent(i) != h ==> Ordered(s, i))
    && (forall i :: 0 < i < |s| && Parent(i) == h && h > lo && Parent(h) >= lo ==> Key(s[Parent(h)]) <= Key(s[i]))
  }

  lemma SwapKeeps(s: Entries, h: nat, c: nat, lo: nat)
    requires lo <= h < c < |s| && Parent(c) == h && HeapBut(s, lo, h)
    requires forall i :: 0 < i < |s| && Parent(i) == h ==> Key(s[c]) <= Key(s[i])
    requires Key(s[c]) < Key(s[h])
    ensures HeapBut(Swap(s, h, c), lo, c)
  {
    var r := Swap(s, h, c);
    forall i | 0 < i < |r| && Parent(i) >= lo && Parent(i) != c
      ensures Ordered(r, i)
    {
      if i == h {
        assert Ordered(s, c) || Parent(h) >= lo;
      } else if Parent(i) != h {
        assert Ordered(s, i);
      }
    }
    forall i | 0 < i < |r| && Parent(i) == c
      ensures Key(r[h]) <= Key(r[i])
    {
      assert Ordered(s, i);
    }
  }

  /** Main result about percolate_down: where all is in order below `h`, sifting the entry at `h` down puts it in
      order from `lo` on; nothing is lost, and nothing in front of `h` moves. */
  lemma {:induction false} SiftDownRepairs(s: Entries, lo: nat, h: nat)
    requires lo <= h < |s| && HeapBut(s, lo, h)
    ensures HeapFrom(SiftDown(s, h), lo)
    ensures multiset(SiftDown(s, h)) == multiset(s)
    ensures forall i :: 0 <= i < h ==> SiftDown(s, h)[i] == s[i]
    decreases |s| - h
  {
    hide HeapBut, HeapFrom, Key;
    if 2 * h + 1 < |s| && Key(s[LeastChild(s, h)]) < Key(s[h]) {
      var c := LeastChild(s, h);
      SwapKeeps(s, h, c, lo);
      SiftDownRepairs(Swap(s, h, c), lo, c);
    } else {
      NothingToSift(s, lo, h);
    }
  }

  lemma NothingToSift(s: Entries, lo: nat, h: nat)
    requires lo <= h < |s| && HeapBut(s, lo, h)
    requires 2 * h + 1 < |s| ==> Key(s[h]) <= Key(s[LeastChild(s, h)])
    ensures HeapFrom(s, lo)
  {
    forall i | 0 < i < |s| && Parent(i) >= lo
      ensures Ordered(s, i)
    {
      if Parent(i) == h {
        assert i >= 2 * h + 1;
      }
    }
  }

  // ---------- Heapify ----------

  /** The loop at lines 70 to 73 from `i` on down. */
  function HeapifyFrom(s: Entries, i: int): (r: Entries)
    requires -1 <= i < |s|
    ensures |r| == |s|
    decreases i + 1
  {
    if i < 0 then s else HeapifyFrom(SiftDown(s, i), i - 1)
  }

  function Heapify(s: Entries): Entries {
    if s == [] then s else HeapifyFrom(s, (|s| - 1) / 2)
  }

  lemma {:induction false} HeapifyLoop(s: Entries, i: int)
    requires -1 <= i < |s| && HeapFrom(s, i + 1)
    ensures IsHeap(HeapifyFrom(s, i)) && multiset(HeapifyFrom(s, i)) == multiset(s)
    decreases i + 1
  {
    if i >= 0 {
      SiftDownRepairs(s, i, i);
      HeapifyLoop(SiftDown(s, i), i - 1);
    }
  }

  /** Main result: bottom-up heapify makes a heap of any entries, with the earliest in front, and keeps them all. */
  lemma HeapifyMakesHeap(s: Entries)
    ensures IsHeap(Heapify(s)) && multiset(Heapify(s)) == multiset(s)
    ensures forall i :: 0 <= i < |s| ==> Key(Heapify(s)[0]) <= Key(Heapify(s)[i])
  {
    if s != [] {
      assert forall i :: 0 < i < |s| ==> Parent(i) < (|s| - 1) / 2 + 1;
      HeapifyLoop(s, (|s| - 1) / 2);
      forall i | 0 <= i < |s|
        ensures Key(Heapify(s)[0]) <= Key(Heapify(s)[i])
      {
        RootIsLeast(Heapify(s), i);
      }
    }
  }

  // ---------- Insertion ----------

  /** The loop at lines 98 to 106: parents later than `t` come down into the hole; its end position is `.1`. */
  function Lift(s: Entries, h: nat, t: HeapTimer): (r: (Entries, nat))
    requires h < |s|
    ensures |r.0| == |s| && r.1 <= h
    decreases h
  {
    if h == 0 || Key(s[Parent(h)]) <= t.expire then (s, h)
    else Lift(s[h := s[Parent(h)]], Parent(h), t)
  }

  /** Insertion as it is meant: the timer is stored at the hole. */
  function Insert(s: Entries, t: HeapTimer): Entries {
    var (r, h) := Lift(s + [null], |s|, t);
    r[h := t]
  }

  /** Heap order with `t` thought at the hole, except between the hole and its parent. */
  predicate HeapAround(s: Entries, h: nat, t: HeapTimer)
    requires h < |s|
  {
    var v := s[h := t];
    && (forall i :: 0 < i < |s| && i != h ==> Ordered(v, i))
    && (forall i :: 0 < i < |s| && h > 0 && Parent(i) == h ==> Key(s[Parent(h)]) <= Key(v[i]))
  }

  lemma LiftOnce(s: Entries, h: nat, t: HeapTimer)
    requires 0 < h < |s| && HeapAround(s, h, t) && t.expire < Key(s[Parent(h)])
    ensures HeapAround(s[h := s[Parent(h)]], Parent(h), t)
    ensures multiset(s[h := s[Parent(h)]][Parent(h) := t]) == multiset(s[h := t])
  {
    var p := Parent(h);
    var r := s[h := s[p]];
    var v, w := s[h := t], r[p := t];
    assert w == Swap(v, p, h);
    forall i | 0 < i < |s| && i != p
      ensures Ordered(w, i)
    {
      if i != h {
        assert Ordered(v, i);
      }
    }
    forall i | 0 < i < |s| && p > 0 && Parent(i) == p
      ensures Key(r[Parent(p)]) <= Key(w[i])
    {
      assert Ordered(v, p);
      if i != h {
        assert Ordered(v, i);
      }
    }
  }

  lemma {:induction false} LiftRepairs(s: Entries, h: nat, t: HeapTimer)
    requires h < |s| && HeapAround(s, h, t)
    ensures var (r, k) := Lift(s, h, t);
            IsHeap(r[k := t]) && multiset(r[k := t]) == multiset(s[h := t])
    decreases h
  {
    if h > 0 && t.expire < Key(s[Parent(h)]) {
      LiftOnce(s, h, t);
      LiftRepairs(s[h := s[Parent(h)]], Parent(h), t);
    } else {
      var v := s[h := t];
      assert forall i :: 0 < i < |s| ==> Ordered(v, i);
    }
  }

  /** Main result: insertion as meant keeps heap order and adds exactly the new timer. */
  lemma InsertKeepsHeap(s: Entries, t: HeapTimer)
    requires IsHeap(s)
    ensures IsHeap(Insert(s, t)) && multiset(Insert(s, t)) == multiset(s) + multiset{t}
  {
    var x := s + [null];
    var v := x[|s| := t];
    assert v == s + [t];
    forall i | 0 < i < |s|
      ensures Ordered(v, i)
    {
      assert Ordered(s, i);
    }
    LiftRepairs(x, |s|, t);
  }

  function InsertAll(s: Entries, ts: seq<HeapTimer>): Entries
    decreases |ts|
  {
    if ts == [] then s else InsertAll(Insert(s, ts[0]), ts[1..])
  }

  function Bag(ts: seq<HeapTimer>): multiset<HeapTimer?> {
    if ts == [] then multiset{} else multiset{ts[0]} + Bag(ts[1..])
  }

  /** Over any sequence of insertions. */
  lemma {:induction false} InsertAllKeepsHeap(s: Entries, ts: seq<HeapTimer>)
    requires IsHeap(s)
    ensures IsHeap(InsertAll(s, ts)) && multiset(InsertAll(s, ts)) == multiset(s) + Bag(ts)
    decreases |ts|
  {
    hide IsHeap, Insert;
    if ts != [] {
      InsertKeepsHeap(s, ts[0]);
      InsertAllKeepsHeap(Insert(s, ts[0]), ts[1..]);
    }
  }

  /** Where the loop stops, it leaves what was there before: the old occupant, or what the slot held. */
  lemma {:induction false} HoleKeepsOccupant(s: Entries, h: nat, t: HeapTimer)
    requires h < |s|
    ensures var (r, k) := Lift(s, h, t);
            r[k] == s[k] && (k < h ==> t.expire < Key(s[k]))
    decreases h
  {
    if h > 0 && t.expire < Key(s[Parent(h)]) {
      HoleKeepsOccupant(s[h := s[Parent(h)]], Parent(h), t);
    }
  }

  /** Insertion as it is written never stores the timer: whatever the heap, the entries are not those it had and
      the new one; the hole still holds null, or a timer that is now there twice. */
  lemma AsWrittenLosesTimer(s: Entries, t: HeapTimer)
    requires IsHeap(s) && Live(s)
    ensures multiset(Lift(s + [null], |s|, t).0) != multiset(s) + multiset{t}
  {
    var x := s + [null];
    var (r, k) := Lift(x, |s|, t);
    HoleKeepsOccupant(x, |s|, t);
    InsertKeepsHeap(s, t);
    assert r[k] != t;
    var m := r[k := t];
    assert multiset(m)[t] == multiset(r)[t] + 1;
  }

  // ---------- The object ----------

  class TimeHeap {
    var slots: array<HeapTimer?>
    var capacity: nat
    var curSize: nat

    ghost predicate Shaped()
      reads this, slots
    {
      slots.Length == capacity && curSize <= capacity && Live(slots[..curSize])
    }

    ghost function Contents(): seq<HeapTimer?>
      requires Shaped()
      reads this, slots
    {
      slots[..curSize]
    }

    ghost predicate Valid()
      reads this, slots
    {
      Shaped() && IsHeap(Contents()) && forall i :: curSize <= i < capacity ==> slots[i] == null
    }

    /** The heap's order, on the array: no timer expires before the one at half its index, nor before the first. */
    lemma InOrder(i: nat)
      requires Valid() && i < curSize
      ensures slots[i] != null && slots[0] != null && slots[0].expire <= slots[i].expire
      ensures i > 0 ==> slots[(i - 1) / 2] != null && slots[(i - 1) / 2].expire <= slots[i].expire
    {
      var s := Contents();
      assert s[0] != null && s[i] != null;
      RootIsLeast(s, i);
      if i > 0 {
        assert s[Parent(i)] != null && Ordered(s, i);
      }
    }

    constructor (cap: nat)
      ensures Valid() && Contents() == [] && capacity == cap && fresh(slots)
    {
      capacity, curSize := cap, 0;
      slots := new HeapTimer?[cap](_ => null);
    }

    /** The constructor at lines 49 to 75, which throws when the capacity is too small. */
    static method FromTimers(initArray: array<HeapTimer?>, size: nat, capacity: nat) returns (heap: Option<TimeHeap>)
      requires size <= initArray.Length && Live(initArray[..size])
      ensures heap == None <==> capacity < size
      ensures heap.Some? ==>
                && fresh(heap.value) && fresh(heap.value.slots) && heap.value.Valid()
                && heap.value.capacity == capacity && heap.value.curSize == size
                && heap.value.Contents() == Heapify(initArray[..size])
                && multiset(heap.value.Contents()) == multiset(initArray[..size])
    {
      if capacity < size {
        return None;
      }
      var h := new TimeHeap(capacity);
      h.Fill(initArray, size);
      return Some(h);
    }

    method Fill(initArray: array<HeapTimer?>, size: nat)
      requires Shaped() && curSize == 0 && size <= capacity && slots != initArray
      requires size <= initArray.Length && Live(initArray[..size])
      requires forall i :: 0 <= i < capacity ==> slots[i] == null
      modifies `curSize, slots
      ensures curSize == size && Valid()
      ensures Contents() == Heapify(initArray[..size]) && multiset(Contents()) == multiset(initArray[..size])
    {
      HeapifyMakesHeap(initArray[..size]);
      Copy(initArray, size);
      if size != 0 {
        PercolateAll();
      }
    }

    /** Lines 66 to 69. */
    method Copy(initArray: array<HeapTimer?>, size: nat)
      requires slots.Length == capacity && size <= capacity && slots != initArray
      requires size <= initArray.Length && Live(initArray[..size])
      requires forall i :: 0 <= i < capacity ==> slots[i] == null
      modifies `curSize, slots
      ensures curSize == size && Shaped() && Contents() == initArray[..size]
      ensures forall i :: curSize <= i < capacity ==> slots[i] == null
    {
      for i := 0 to size
        invariant slots[..i] == initArray[..i]
        invariant forall j :: i <= j < capacity ==> slots[j] == null
      {
        slots[i] := initArray[i];
      }
      curSize := size;
    }

    /** Lines 70 to 73. */
    method PercolateAll()
      requires Shaped() && curSize > 0
      modifies slots
      ensures Shaped() && Contents() == Heapify(old(Contents()))
      ensures forall j :: curSize <= j < slots.Length ==> slots[j] == old(slots[j])
    {
      ghost var s := Contents();
      var i := (curSize - 1) / 2;
      while i >= 0
        invariant -1 <= i < curSize && Shaped()
        invariant forall j :: curSize <= j < slots.Length ==> slots[j] == old(slots[j])
        invariant HeapifyFrom(Contents(), i) == Heapify(s)
        decreases i
      {
        PercolateDown(i);
        i := i - 1;
      }
    }

    method PercolateDown(hole: nat)
      requires Shaped() && hole < curSize
      modifies slots
      ensures Shaped() && Contents() == SiftDown(old(Contents()), hole)
      ensures forall j :: curSize <= j < slots.Length ==> slots[j] == old(slots[j])
    {
      var temp := slots[hole];
      var h, child := hole, 0;
      ghost var s, v := Contents(), Contents();
      assert s[hole := temp] == s;
      hide SiftDown, LeastChild;
      while 2 * h + 1 <= curSize - 1
        invariant h < curSize && forall j :: curSize <= j < slots.Length ==> slots[j] == old(slots[j])
        invariant slots[..curSize][h := temp] == v && Live(v) && SiftDown(v, h) == SiftDown(s, hole)
        decreases curSize - h
      {
        SiftOnce(v, h);
        child := PickChild(h, v);
        if slots[child].expire < temp.expire {
          slots[h] := slots[child];
          v := Swap(v, h, child);
        } else {
          break;
        }
        h := child;
      }
      SiftEnds(v, h);
      slots[h] := temp;
    }

    /** Lines 116 to 120. */
    method PickChild(h: nat, ghost v: Entries) returns (child: nat)
      requires curSize <= slots.Length && 2 * h + 1 < curSize == |v| && Live(v)
      requires forall j :: h < j < curSize ==> slots[j] == v[j]
      ensures h < child < curSize && child == LeastChild(v, h) && slots[child] == v[child] && v[child] != null
    {
      child := 2 * h + 1;
      if child < curSize - 1 && slots[child + 1].expire < slots[child].expire {
        child := child + 1;
      }
    }

    /** Lines 91 to 106: makes room, and opens the hole the timer belongs in. Twice no room is no room: a heap of
        capacity 0 ends with more entries than slots. */
    method OpenHole(timer: HeapTimer) returns (hole: nat)
      requires Valid()
      modifies this, slots
      ensures slots.Length == capacity && curSize == old(curSize) + 1 && hole < curSize
      ensures slots == old(slots) || fresh(slots)
      ensures capacity == if old(curSize) < old(capacity) then old(capacity) else 2 * old(capacity)
      ensures old(capacity) > 0 ==>
                && curSize <= capacity
                && (slots[..curSize], hole) == Lift(old(Contents()) + [null], old(curSize), timer)
                && Live(slots[..curSize][hole := timer]) && forall i :: curSize <= i < capacity ==> slots[i] == null
    {
      if curSize >= capacity {
        Resize();
      }
      hole := curSize;
      curSize := curSize + 1;
      assert capacity > 0 ==> slots[..curSize] == old(Contents()) + [null];
      assert capacity > 0 ==> Live(slots[..curSize][hole := timer]);
      hole := LiftParents(hole, timer);
    }

    /** Lines 97 to 106. */
    method LiftParents(last: nat, timer: HeapTimer) returns (hole: nat)
      requires slots.Length == capacity && last < curSize
      requires last > 0 || capacity > 0 ==> curSize <= capacity && Live(slots[..curSize][last := timer])
      modifies slots
      ensures hole < curSize
      ensures capacity > 0 ==>
                && (slots[..curSize], hole) == Lift(old(slots[..curSize]), last, timer)
                && Live(slots[..curSize][hole := timer]) && slots[curSize..] == old(slots[curSize..])
    {
      hole := last;
      var parent := 0;
      while hole > 0
        invariant hole <= last && (hole > 0 ==> capacity > 0)
        invariant capacity > 0 ==>
                    && slots[curSize..] == old(slots[curSize..])
                    && Lift(slots[..curSize], hole, timer) == Lift(old(slots[..curSize]), last, timer)
                    && Live(slots[..curSize][hole := timer])
        decreases hole
      {
        parent := (hole - 1) / 2;
        ghost var v := slots[..curSize];
        assert forall j :: 0 <= j < curSize && j != hole ==> slots[j] == v[hole := timer][j];
        if slots[parent].expire <= timer.expire {
          break;
        }
        slots[hole] := slots[parent];
        assert slots[..curSize] == v[hole := v[parent]];
        hole := parent;
      }
    }

    /** As meant: line 107 would read `array[hole] = timer`. In a heap of capacity 0 it would have no slot to go to. */
    method AddTimer(timer: HeapTimer?)
      requires Valid() && (timer != null ==> capacity > 0)
      modifies this, slots
      ensures Valid() && capacity >= old(capacity)
      ensures slots == old(slots) || fresh(slots)
      ensures curSize == old(curSize) + if timer == null then 0 else 1
      ensures timer == null ==> Contents() == old(Contents())
      ensures timer != null ==> Contents() == Insert(old(Contents()), timer)
      ensures timer != null ==> multiset(Contents()) == multiset(old(Contents())) + multiset{timer}
    {
      if timer == null {
        return;
      }
      ghost var s := Contents();
      InsertKeepsHeap(s, timer);
      var hole := OpenHole(timer);
      slots[hole] := timer;
      assert slots[..curSize] == Insert(s, timer);
    }

    /** One call of `add_timer` after the other, across any number of doublings. */
    method AddAll(timers: seq<HeapTimer>)
      requires Valid() && (timers != [] ==> capacity > 0)
      modifies this, slots
      ensures Valid() && curSize == old(curSize) + |timers|
      ensures Contents() == InsertAll(old(Contents()), timers)
      ensures multiset(Contents()) == multiset(old(Contents())) + Bag(timers)
    {
      InsertAllKeepsHeap(Contents(), timers);
      hide IsHeap, Insert;
      assert timers[0..] == timers;
      for i := 0 to |timers|
        invariant Valid() && curSize == old(curSize) + i && (timers != [] ==> capacity > 0)
        invariant InsertAll(Contents(), timers[i..]) == InsertAll(old(Contents()), timers)
        invariant slots == old(slots) || fresh(slots)
      {
        assert timers[i..][1..] == timers[i + 1..];
        AddTimer(timers[i]);
      }
    }

    /** As written: what the source leaves behind, which is no heap of the timers added; of capacity 0, it is not
        even an array with room for its entries. */
    method AddTimerAsWritten(timer: HeapTimer?)
      requires Valid()
      modifies this, slots
      ensures timer == null ==> Valid() && Contents() == old(Contents())
      ensures timer != null ==> curSize == old(curSize) + 1
      ensures timer != null && old(capacity) == 0 ==> slots.Length == capacity == 0 < curSize
      ensures timer != null && old(capacity) > 0 ==>
                && curSize <= slots.Length
                && slots[..curSize] == Lift(old(Contents()) + [null], old(curSize), timer).0
                && multiset(slots[..curSize]) != multiset(old(Contents())) + multiset{timer}
    {
      if timer == null {
        return;
      }
      AsWrittenLosesTimer(Contents(), timer);
      var hole := OpenHole(timer);
    }

    method Resize()
      requires Valid()
      modifies this
      ensures Valid() && fresh(slots) && capacity == 2 * old(capacity)
      ensures curSize == old(curSize) && Contents() == old(Contents())
    {
      var temp := new HeapTimer?[2 * capacity](_ => null);
      for i := 0 to curSize
        invariant slots == old(slots) && capacity == old(capacity) && curSize == old(curSize)
        invariant Valid() && Contents() == old(Contents())
        invariant temp[..i] == slots[..i]
        invariant forall j :: i <= j < temp.Length ==> temp[j] == null
      {
        temp[i] := slots[i];
      }
      capacity := 2 * capacity;
      slots := temp;
    }
  }
}
