/** The timer list of lst_timer.h as it is: doubly linked nodes, a head, and a tail that is only good while there
    is a head, since a tick that empties the list leaves it behind. Every method is proved against SortedModel. */
module SortedList {
  import opened Common
  import opened SortedModel

  /** util_timer; the callback is recorded as an event that names the timer, `userData` is what it is given. */
  class UtilTimer {
    var expire: int
    const userData: nat
    var prev: UtilTimer?
    var next: UtilTimer?

    constructor (userData: nat, expire: int)
      ensures this.userData == userData && this.expire == expire && prev == null && next == null
    {
      this.userData, this.expire := userData, expire;
      prev, next := null, null;
    }
  }

  ghost function At(s: seq<UtilTimer>, k: int): UtilTimer? {
    if 0 <= k < |s| then s[k] else null
  }

  /** `head` starts the chain of exactly the nodes of `s`, mirrored links and all. */
  ghost predicate Chain(head: UtilTimer?, s: seq<UtilTimer>)
    reads s
  {
    && head == At(s, 0)
    && (forall k {:trigger s[k].next} :: 0 <= k < |s| ==> s[k].next == At(s, k + 1))
    && (forall k {:trigger s[k].prev} :: 0 <= k < |s| ==> s[k].prev == At(s, k - 1))
    && Distinct(s)
  }

  ghost predicate Among(s: seq<UtilTimer>, t: seq<UtilTimer>) {
    forall x :: x in s ==> x in t
  }

  /** `es` is what the nodes of `s` stand for, in order. */
  ghost predicate Stored(s: seq<UtilTimer>, es: seq<Timer<UtilTimer>>)
    reads s
  {
    |s| == |es| && forall k :: 0 <= k < |s| ==> es[k].id == s[k] && es[k].expire == s[k].expire
  }

  /** Once its neighbours and it point at each other, a timer is part of the chain. */
  lemma ChainPut(head: UtilTimer, s: seq<UtilTimer>, k: nat, timer: UtilTimer)
    requires 1 <= k <= |s| && head == s[0] && timer !in s
    requires Distinct(s)
    requires forall j {:trigger s[j].next} :: 0 <= j < |s| ==> s[j].next == if j == k - 1 then timer else At(s, j + 1)
    requires forall j {:trigger s[j].prev} :: 0 <= j < |s| ==> s[j].prev == if j == k then timer else At(s, j - 1)
    requires timer.next == At(s, k) && timer.prev == At(s, k - 1)
    ensures Chain(head, PutAt(s, k, timer))
  {
    var r := PutAt(s, k, timer);
    PutDistinct(s, k, timer);
    hide Distinct, PutAt;
    forall j | 0 <= j < |r|
      ensures r[j].next == At(r, j + 1) && r[j].prev == At(r, j - 1)
    {
      PutNeighbours(s, k, timer, j);
    }
  }

  /** A node whose neighbours point past it is no longer part of the chain. */
  lemma ChainCut(head: UtilTimer?, s: seq<UtilTimer>, k: nat)
    requires k < |s| && head == (if k == 0 then At(s, 1) else s[0])
    requires Distinct(s)
    requires forall j {:trigger s[j].next} :: 0 <= j < |s| && j != k ==>
               s[j].next == if j + 1 == k then At(s, k + 1) else At(s, j + 1)
    requires forall j {:trigger s[j].prev} :: 0 <= j < |s| && j != k ==>
               s[j].prev == if j == k + 1 then At(s, k - 1) else At(s, j - 1)
    ensures Chain(head, Cut(s, k))
  {
    var r := Cut(s, k);
    CutDistinct(s, k);
    hide Distinct, Cut;
    forall j | 0 <= j < |r|
      ensures r[j].next == At(r, j + 1) && r[j].prev == At(r, j - 1)
    {
      CutNeighbours(s, k, j);
    }
    assert r != [] ==> r[0] == s[if k == 0 then 1 else 0] by {
      if r != [] {
        CutNeighbours(s, k, 0);
      }
    }
  }

  lemma StoredPut(s: seq<UtilTimer>, es: seq<Timer<UtilTimer>>, k: nat, timer: UtilTimer)
    requires k <= |s| && Stored(s, es)
    ensures Stored(PutAt(s, k, timer), PutAt(es, k, Timer(timer, timer.expire)))
  {
  }

  lemma StoredSplit(s: seq<UtilTimer>, es: seq<Timer<UtilTimer>>, k: nat)
    requires k <= |s| && Stored(s, es)
    ensures Stored(s[..k], es[..k]) && Stored(s[k..], es[k..])
  {
  }

  lemma StoredCut(s: seq<UtilTimer>, es: seq<Timer<UtilTimer>>, k: nat)
    requires k < |s| && Stored(s, es)
    ensures Stored(Cut(s, k), Cut(es, k))
    ensures forall t :: t in Cut(s, k) ==> t in s
  {
  }

  lemma OnlyAt(s: seq<UtilTimer>, i: nat)
    requires i < |s| && Distinct(s)
    ensures forall j :: 0 <= j < |s| && s[j] == s[i] ==> j == i
    ensures Among(s, s)
  {
  }

  /** Taking a node out and putting it in elsewhere loses none and adds none. */
  lemma MovedMembers(s: seq<UtilTimer>, i: nat, k: nat)
    requires i < |s| && Distinct(s) && k < |s|
    ensures s[i] !in Cut(s, i) && forall t :: t in Cut(s, i) ==> t in s
    ensures Among(PutAt(Cut(s, i), k, s[i]), s) && Among(s, PutAt(Cut(s, i), k, s[i]))
  {
    CutMembers(s, i);
    PutMembers(Cut(s, i), k, s[i]);
  }

  ghost function Elements(s: seq<UtilTimer>): set<UtilTimer> {
    set t | t in s
  }

  /** The walk of a tick has come to the k-th timer, or to the end. */
  ghost predicate AtTimer(tmp: UtilTimer?, s: seq<UtilTimer>, es: seq<Timer<UtilTimer>>, k: nat)
    reads s
  {
    k <= |s| == |es| && tmp == At(s, k) && (k < |s| ==> s[k].expire == es[k].expire)
  }

  /** The walk of a tick has passed the first `k` timers, all of them expired. */
  ghost predicate Walked(s: seq<UtilTimer>, es: seq<Timer<UtilTimer>>, cur: int, k: nat,
                         nodes: seq<UtilTimer>, fired: seq<UtilTimer>) {
    k <= |s| == |es| && nodes == s[k..] && fired == s[..k] && Position(es, cur) == k + Position(es[k..], cur)
  }

  lemma WalkStarts(s: seq<UtilTimer>, es: seq<Timer<UtilTimer>>, cur: int)
    requires |s| == |es|
    ensures Walked(s, es, cur, 0, s, []) && Elements([]) == {}
  {
    assert es[0..] == es && s[0..] == s;
  }

  lemma WalkMembers(s: seq<UtilTimer>, es: seq<Timer<UtilTimer>>, cur: int, k: nat,
                    nodes: seq<UtilTimer>, fired: seq<UtilTimer>)
    requires Walked(s, es, cur, k, nodes, fired)
    ensures Among(nodes, s) && At(nodes, 0) == At(s, k)
  {
  }

  lemma WalkNext(s: seq<UtilTimer>, es: seq<Timer<UtilTimer>>, cur: int, k: nat,
                 nodes: seq<UtilTimer>, fired: seq<UtilTimer>)
    requires Walked(s, es, cur, k, nodes, fired) && k < |s| && es[k].expire <= cur
    ensures nodes != [] && Walked(s, es, cur, k + 1, Cut(nodes, 0), fired + [s[k]])
  {
    hide Position;
    WalkGoesOn(es, cur, k);
    assert Cut(nodes, 0) == s[k + 1..] && s[..k + 1] == s[..k] + [s[k]];
  }

  lemma ElementsNext(s: seq<UtilTimer>, t: UtilTimer)
    ensures Elements(s + [t]) == Elements(s) + {t}
  {
  }

  lemma WalkStops(s: seq<UtilTimer>, es: seq<Timer<UtilTimer>>, cur: int, k: nat,
                  nodes: seq<UtilTimer>, fired: seq<UtilTimer>)
    requires Walked(s, es, cur, k, nodes, fired) && (k < |s| ==> cur < es[k].expire)
    ensures k <= |s| && k == Position(es, cur) && fired == s[..k] && nodes == s[k..]
  {
    WalkEnds(es, cur, k);
  }

  /** A pointer argument as a set of objects: none if it is null. */
  ghost function Given(timer: UtilTimer?): set<UtilTimer> {
    if timer == null then {} else {timer}
  }

  class SortTimerList {
    var head: UtilTimer?
    var tail: UtilTimer?

    /** The nodes of the list, in order, and those `delete` was called on. */
    ghost var nodes: seq<UtilTimer>
    ghost var released: set<UtilTimer>

    /** The tail is the last node whenever there is one; of an empty list it may be anything. */
    ghost predicate Linked()
      reads this, nodes
    {
      && Chain(head, nodes)
      && (nodes != [] ==> tail == nodes[|nodes| - 1])
      && (forall k :: 0 <= k < |nodes| ==> nodes[k] !in released)
    }

    ghost function Timers(): (es: seq<Timer<UtilTimer>>)
      reads this, nodes
      ensures Stored(nodes, es)
    {
      var s := nodes;
      seq(|s|, k requires 0 <= k < |s| reads s => Timer(s[k], s[k].expire))
    }

    ghost predicate Valid()
      reads this, nodes
    {
      Linked() && Sorted(Timers())
    }

    /** What is stored is what the list's timers are. */
    lemma TimersAre(es: seq<Timer<UtilTimer>>)
      requires Stored(nodes, es)
      ensures Timers() == es
    {
    }

    constructor ()
      ensures Valid() && nodes == [] && Timers() == [] && released == {}
    {
      head, tail := null, null;
      nodes, released := [], {};
    }

    /** Lines 159 to 162 and 170 to 173: the timer goes behind `prev`, in front of `tmp` or at the end. */
    method LinkBehind(prev: UtilTimer, tmp: UtilTimer?, timer: UtilTimer, ghost k: nat)
      requires Linked() && 1 <= k <= |nodes| && prev == nodes[k - 1] && tmp == At(nodes, k)
      requires timer !in nodes && timer !in released
      modifies `nodes, `tail, nodes`next, nodes`prev, timer`next, timer`prev
      ensures Linked() && nodes == PutAt(old(nodes), k, timer)
    {
      hide SortTimerList.Timers;
      ghost var s := nodes;
      if tmp != null {
        prev.next := timer;
        timer.next := tmp;
        tmp.prev := timer;
        timer.prev := prev;
      } else {
        prev.next := timer;
        timer.prev := prev;
        timer.next := null;
        tail := timer;
      }
      assert forall j :: 0 <= j < |s| && j != k - 1 ==> s[j] != prev;
      assert forall j :: 0 <= j < |s| && j != k ==> s[j] != tmp;
      ChainPut(head, s, k, timer);
      nodes := PutAt(s, k, timer);
    }

    /** Lines 153 to 174. The second parameter of the source is never read and is left away. The timer's own
        links may hold anything. */
    method InsertWalking(timer: UtilTimer, ghost es: seq<Timer<UtilTimer>>)
      requires Linked() && head != null && Stored(nodes, es) && timer !in nodes && timer !in released
      modifies `nodes, `tail, nodes`next, nodes`prev, timer`next, timer`prev
      ensures Linked() && Stored(nodes, InsertBehindHead(es, Timer(timer, timer.expire)))
      ensures nodes == PutAt(old(nodes), WalkPosition(es, timer.expire), timer)
    {
      ghost var s := nodes;
      var prev, tmp, k := FindPlace(timer.expire, es);
      LinkBehind(prev, tmp, timer, k);
      StoredPut(s, es, k, timer);
    }

    /** Lines 153 to 167: walks from the head to the first later timer behind it. */
    method FindPlace(x: int, ghost es: seq<Timer<UtilTimer>>) returns (prev: UtilTimer, tmp: UtilTimer?, ghost k: nat)
      requires Linked() && head != null && Stored(nodes, es)
      ensures k == WalkPosition(es, x)
      ensures prev == At(nodes, WalkPosition(es, x) - 1) && tmp == At(nodes, WalkPosition(es, x))
    {
      prev := head;
      tmp := head.next;
      k := 1;
      while tmp != null
        invariant 1 <= k <= |nodes| && prev == nodes[k - 1] && tmp == At(nodes, k)
        invariant WalkPosition(es, x) == k + Position(es[k..], x)
        decreases |nodes| - k
      {
        WalkGoesOn(es, x, k);
        if x < tmp.expire {
          break;
        }
        prev := tmp;
        tmp := tmp.next;
        k := k + 1;
      }
      WalkEnds(es, x, k);
    }

    method AddTimer(timer: UtilTimer?)
      requires Valid()
      requires timer != null ==> timer !in nodes && timer !in released && timer.prev == null && timer.next == null
      modifies this, nodes`next, nodes`prev, Given(timer)`next, Given(timer)`prev
      ensures Valid() && released == old(released)
      ensures timer == null ==> nodes == old(nodes) && Timers() == old(Timers())
      ensures timer != null ==> Timers() == Insert(old(Timers()), Timer(timer, timer.expire))
      ensures timer != null ==> forall t :: t in nodes <==> t == timer || t in old(nodes)
    {
      if timer == null {
        return;
      }
      hide SortTimerList.Timers, Sorted, Insert, PutAt, Stored, Chain;
      ghost var es, t := Timers(), Timer(timer, timer.expire);
      AddGiven(timer, es);
      PutMembers(old(nodes), Position(es, timer.expire), timer);
      TimersAre(Insert(es, t));
      InsertSorted(es, t);
    }

    /** Lines 51 to 63. */
    method AddGiven(timer: UtilTimer, ghost es: seq<Timer<UtilTimer>>)
      requires Linked() && Stored(nodes, es)
      requires timer !in nodes && timer !in released && timer.prev == null && timer.next == null
      modifies `nodes, `head, `tail, nodes`next, nodes`prev, timer`next, timer`prev
      ensures Linked() && Stored(nodes, Insert(es, Timer(timer, timer.expire)))
      ensures nodes == PutAt(old(nodes), Position(es, timer.expire), timer)
    {
      ghost var s := nodes;
      if head == null {
        head := timer;
        tail := timer;
        nodes := [timer];
      } else if timer.expire < head.expire {
        PositionIs(es, timer.expire, 0);
        Prepend(timer);
        StoredPut(s, es, 0, timer);
      } else {
        WalkIsInsert(es, Timer(timer, timer.expire));
        InsertWalking(timer, es);
      }
    }

    /** Lines 58 to 60. */
    method Prepend(timer: UtilTimer)
      requires Linked() && head != null && timer !in nodes && timer !in released
      requires timer.prev == null && timer.next == null
      modifies `nodes, `head, nodes`prev, timer`next
      ensures Linked() && nodes == PutAt(old(nodes), 0, timer)
    {
      ghost var s := nodes;
      timer.next := head;
      head.prev := timer;
      head := timer;
      nodes := PutAt(s, 0, timer);
      forall j | 0 <= j < |nodes|
        ensures nodes[j].next == At(nodes, j + 1) && nodes[j].prev == At(nodes, j - 1)
      {
        assert j > 0 ==> nodes[j] == s[j - 1];
      }
    }

    /** Lines 98 to 123 but for the `delete`: the k-th node leaves the list. */
    method Unlink(timer: UtilTimer, ghost k: nat)
      requires Linked() && k < |nodes| && nodes[k] == timer
      modifies `nodes, `head, `tail, nodes`next, nodes`prev
      ensures Linked() && nodes == Cut(old(nodes), k)
    {
      hide SortTimerList.Timers;
      ghost var s := nodes;
      assert timer == head <==> k == 0;
      assert timer == tail <==> k + 1 == |s|;
      assert timer.prev == At(s, k - 1) && timer.next == At(s, k + 1);
      if timer == head && timer == tail {
        head := null;
        tail := null;
      } else if timer == head {
        head := head.next;
        head.prev := null;
      } else if timer == tail {
        tail := tail.prev;
        tail.next := null;
      } else {
        timer.prev.next := timer.next;
        timer.next.prev := timer.prev;
      }
      assert forall j :: 0 <= j < |s| && j != k - 1 ==> s[j] != At(s, k - 1);
      assert forall j :: 0 <= j < |s| && j != k + 1 ==> s[j] != At(s, k + 1);
      ChainCut(head, s, k);
      nodes := Cut(s, k);
    }

    /** What a user does before `adjust_timer`: it assigns `expire` itself. */
    method Postpone(timer: UtilTimer, expire: int, ghost i: nat)
      requires Linked() && i < |nodes| && nodes[i] == timer
      modifies timer`expire
      ensures Linked() && timer.expire == expire && Timers() == Reset(old(Timers()), i, expire)
    {
      ghost var es := Timers();
      timer.expire := expire;
      assert Stored(nodes, Reset(es, i, expire));
    }

    /** The timer's new expiry is in place; the list need not be sorted. Lines 77 to 88 unlink by the same
        assignments as `del_timer`, and then walk from the head, whatever second argument they pass. */
    method AdjustTimer(timer: UtilTimer?)
      requires Linked() && (timer != null ==> timer in nodes)
      modifies this, nodes`next, nodes`prev
      ensures Linked() && released == old(released)
      ensures timer == null ==> Timers() == old(Timers())
      ensures forall i :: 0 <= i < |old(nodes)| && old(nodes)[i] == timer ==> Timers() == Adjust(old(Timers()), i)
      ensures Among(nodes, old(nodes)) && Among(old(nodes), nodes)
    {
      if timer == null {
        return;
      }
      ghost var i: nat :| i < |nodes| && nodes[i] == timer;
      OnlyAt(nodes, i);
      hide SortTimerList.Linked, SortTimerList.Timers, Adjust, Distinct;
      AdjustAt(timer, i);
    }

    /** Lines 71 to 89. */
    method AdjustAt(timer: UtilTimer, ghost i: nat)
      requires Linked() && i < |nodes| && nodes[i] == timer
      modifies this, nodes`next, nodes`prev
      ensures Linked() && released == old(released) && |old(Timers())| > i && Timers() == Adjust(old(Timers()), i)
      ensures Among(nodes, old(nodes)) && Among(old(nodes), nodes)
    {
      ghost var es := Timers();
      var tmp := timer.next;
      assert tmp == At(nodes, i + 1) && es[i].expire == timer.expire;
      assert tmp != null ==> tmp.expire == es[i + 1].expire;
      hide SortTimerList.Timers, Stored, Chain, Distinct, InsertBehindHead, Cut;
      if tmp == null || timer.expire < tmp.expire {
        assert Adjust(es, i) == es;
        return;
      }
      assert Adjust(es, i) == InsertBehindHead(Cut(es, i), es[i]);
      Reinsert(timer, i, es);
      TimersAre(InsertBehindHead(Cut(es, i), es[i]));
    }

    /** The two together, as close_inactivate_conn.cpp uses them at lines 213 and 215. */
    method Reschedule(timer: UtilTimer, expire: int, ghost i: nat)
      requires Linked() && i < |nodes| && nodes[i] == timer
      modifies this, nodes
      ensures Linked() && |old(Timers())| > i && Timers() == Adjust(Reset(old(Timers()), i, expire), i)
      ensures Among(nodes, old(nodes))
    {
      hide SortTimerList.Timers, Adjust, Chain;
      Postpone(timer, expire, i);
      AdjustTimer(timer);
    }

    /** Lines 77 to 89. */
    method Reinsert(timer: UtilTimer, ghost i: nat, ghost es: seq<Timer<UtilTimer>>)
      requires Linked() && Stored(nodes, es) && i + 1 < |nodes| && nodes[i] == timer
      modifies `nodes, `head, `tail, nodes`next, nodes`prev
      ensures Linked() && Stored(nodes, InsertBehindHead(Cut(es, i), es[i]))
      ensures Among(nodes, old(nodes)) && Among(old(nodes), nodes)
    {
      ghost var s := nodes;
      MovedMembers(s, i, WalkPosition(Cut(es, i), timer.expire));
      StoredCut(s, es, i);
      hide SortTimerList.Timers, Chain, Stored, Cut, PutAt, Among;
      Unlink(timer, i);
      InsertWalking(timer, Cut(es, i));
    }

    method DelTimer(timer: UtilTimer?)
      requires Linked() && (timer != null ==> timer in nodes)
      modifies this, nodes`next, nodes`prev
      ensures Linked() && released == old(released) + Given(timer)
      ensures timer == null ==> nodes == old(nodes) && Timers() == old(Timers())
      ensures forall i :: 0 <= i < |old(nodes)| && old(nodes)[i] == timer ==>
                nodes == Cut(old(nodes), i) && Timers() == Cut(old(Timers()), i)
    {
      if timer == null {
        return;
      }
      ghost var i: nat :| i < |nodes| && nodes[i] == timer;
      OnlyAt(nodes, i);
      hide SortTimerList.Linked, SortTimerList.Timers, Cut, Distinct;
      DelAt(timer, i);
    }

    /** Lines 97 to 123. */
    method DelAt(timer: UtilTimer, ghost i: nat)
      requires Linked() && i < |nodes| && nodes[i] == timer
      modifies this, nodes`next, nodes`prev
      ensures Linked() && released == old(released) + {timer}
      ensures nodes == Cut(old(nodes), i) && |old(Timers())| > i && Timers() == Cut(old(Timers()), i)
    {
      ghost var s, es := nodes, Timers();
      CutMembers(s, i);
      StoredCut(s, es, i);
      hide SortTimerList.Timers, Cut, Stored, Chain, Distinct;
      Unlink(timer, i);
      Release(timer);
      TimersAre(Cut(es, i));
    }

    /** `delete timer`: a node that is not in the list and has not been released before. */
    ghost method Release(timer: UtilTimer)
      requires Linked() && timer !in nodes && timer !in released
      modifies `released
      ensures Linked() && released == old(released) + {timer}
    {
      released := released + {timer};
    }

    /** Lines 141 to 145: the head leaves the list. The tail stays as it is. */
    method PopHead()
      requires Linked() && head != null
      modifies `nodes, `head, nodes`prev
      ensures Linked() && nodes == Cut(old(nodes), 0)
    {
      hide SortTimerList.Timers;
      ghost var s := nodes;
      assert head.next == At(s, 1);
      head := head.next;
      if head != null {
        head.prev := null;
      }
      assert forall j :: 0 <= j < |s| && j != 1 ==> s[j] != At(s, 1);
      ChainCut(head, s, 0);
      nodes := Cut(s, 0);
    }

    /** Lines 140 to 147: the head, which has expired, is called back, taken out and deleted. */
    method FireNext(tmp: UtilTimer, fired: seq<UtilTimer>, ghost s: seq<UtilTimer>, ghost es: seq<Timer<UtilTimer>>,
                    ghost cur: int, ghost k: nat, ghost before: set<UtilTimer>)
      returns (after: UtilTimer?, fired': seq<UtilTimer>)
      requires Linked() && head == tmp && Walked(s, es, cur, k, nodes, fired)
      requires Stored(s, es) && k < |s| && s[k] == tmp && es[k].expire <= cur && released == before + Elements(fired)
      modifies `nodes, `head, `released, s`prev
      ensures Linked() && Stored(s, es) && Walked(s, es, cur, k + 1, nodes, fired')
      ensures after == head && AtTimer(after, s, es, k + 1) && released == before + Elements(fired')
    {
      hide SortTimerList.Timers, Walked, Elements;
      assert nodes[0] == tmp && forall j :: 0 < j < |nodes| ==> nodes[j] != tmp;
      WalkNext(s, es, cur, k, nodes, fired);
      ElementsNext(fired, tmp);
      WalkMembers(s, es, cur, k, nodes, fired);
      fired' := fired + [tmp];
      assert forall j :: 0 <= j < |nodes| ==> nodes[j] in nodes;
      PopHead();
      Release(tmp);
      after := head;
      WalkMembers(s, es, cur, k + 1, nodes, fired');
    }

    /** Lines 133 to 148: the timers in front that have expired are called back and deleted. */
    method FireExpired(cur: int, ghost es: seq<Timer<UtilTimer>>) returns (fired: seq<UtilTimer>, ghost k: nat)
      requires Linked() && Stored(nodes, es)
      modifies `nodes, `head, `released, nodes`prev
      ensures Linked() && k == Position(es, cur)
      ensures k <= |old(nodes)| && fired == old(nodes)[..k] && nodes == old(nodes)[k..]
      ensures released == old(released) + Elements(fired)
    {
      ghost var s := nodes;
      fired, k := [], 0;
      WalkStarts(s, es, cur);
      assert AtTimer(head, s, es, 0);
      hide SortTimerList.Timers, SortTimerList.Linked, Chain, Cut, Position, Elements, Walked, Stored, Among;
      var tmp := head;
      while tmp != null
        invariant Linked() && Stored(s, es) && Walked(s, es, cur, k, nodes, fired)
        invariant tmp == head && AtTimer(tmp, s, es, k) && released == old(released) + Elements(fired)
        decreases |s| - k
      {
        if cur < tmp.expire {
          break;
        }
        tmp, fired := FireNext(tmp, fired, s, es, cur, k, old(released));
        k := k + 1;
      }
      WalkStops(s, es, cur, k, nodes, fired);
    }

    /** `tick` when time(NULL) returns `cur`; returns the timers whose callback it called, in that order. */
    method Tick(cur: int) returns (fired: seq<UtilTimer>)
      requires Linked()
      modifies this, nodes`prev
      ensures Linked() && Timers() == Left(old(Timers()), cur)
      ensures Stored(fired, Fired(old(Timers()), cur)) && old(nodes) == fired + nodes
      ensures released == old(released) + Elements(fired)
    {
      hide SortTimerList.Timers, SortTimerList.Linked, Elements, Position;
      ghost var s, es, k := nodes, Timers(), 0;
      fired, k := FireExpired(cur, es);
      StoredSplit(s, es, k);
      TimersAre(es[k..]);
    }

    /** The destructor deletes what is left, each timer once. */
    method Destroy()
      requires Linked()
      modifies `head, `released
      ensures head == null && (forall k :: 0 <= k < |nodes| ==> nodes[k] in released) && old(released) <= released
    {
      var tmp := head;
      ghost var k := 0;
      while tmp != null
        invariant k <= |nodes| && tmp == head == At(nodes, k)
        invariant forall j :: 0 <= j < |nodes| ==> (nodes[j] in released <==> j < k)
        invariant old(released) <= released
        decreases |nodes| - k
      {
        head := tmp.next;
        assert tmp !in released;
        released := released + {tmp};
        tmp := head;
        k := k + 1;
      }
    }
  }

  /** The walk passes a timer that does not expire later. */
  lemma WalkGoesOn(es: seq<Timer<UtilTimer>>, x: int, k: nat)
    requires k < |es|
    ensures Position(es[k..], x) == if x < es[k].expire then 0 else 1 + Position(es[k + 1..], x)
  {
    assert es[k..][0] == es[k] && es[k..][1..] == es[k + 1..];
  }

  lemma WalkEnds(es: seq<Timer<UtilTimer>>, x: int, k: nat)
    requires k <= |es|
    ensures Position(es[k..], x) == 0 <==> k == |es| || x < es[k].expire
  {
  }
}
