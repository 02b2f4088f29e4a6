/** The timer list of lst_timer.h as a sequence of timers, and what its operations come to. */
module SortedModel {
  import opened Common

  datatype Timer<T> = Timer(id: T, expire: int)

  ghost predicate Sorted<T>(s: seq<Timer<T>>) {
    forall j, k :: 0 <= j < k < |s| ==> s[j].expire <= s[k].expire
  }

  /** How many timers at the front expire at `x` or before. */
  ghost function Position<T>(s: seq<Timer<T>>, x: int): (k: nat)
    ensures k <= |s| && (k < |s| ==> x < s[k].expire) && forall j :: 0 <= j < k ==> s[j].expire <= x
  {
    if s == [] || x < s[0].expire then 0 else 1 + Position(s[1..], x)
  }

  /** Before the first timer that expires later. */
  ghost function Insert<T>(s: seq<Timer<T>>, t: Timer<T>): seq<Timer<T>> {
    PutAt(s, Position(s, t.expire), t)
  }

  /** Where the walk at lines 153 to 174 puts a timer: it never looks at the head. */
  ghost function WalkPosition<T>(s: seq<Timer<T>>, x: int): (k: nat)
    requires s != []
    ensures 1 <= k <= |s|
  {
    1 + Position(s[1..], x)
  }

  ghost function InsertBehindHead<T>(s: seq<Timer<T>>, t: Timer<T>): seq<Timer<T>>
    requires s != []
  {
    PutAt(s, WalkPosition(s, t.expire), t)
  }

  /** `adjust_timer` on the i-th timer, whose new expiry is already in place. */
  ghost function Adjust<T>(s: seq<Timer<T>>, i: nat): seq<Timer<T>>
    requires i < |s|
  {
    if i + 1 == |s| || s[i].expire < s[i + 1].expire then s
    else InsertBehindHead(Cut(s, i), s[i])
  }

  /** What `tick` at time `cur` fires, and what it leaves. */
  ghost function Fired<T>(s: seq<Timer<T>>, cur: int): seq<Timer<T>> {
    s[..Position(s, cur)]
  }

  ghost function Left<T>(s: seq<Timer<T>>, cur: int): seq<Timer<T>> {
    s[Position(s, cur)..]
  }

  // ---------- Order is kept ----------

  lemma PositionIs<T>(s: seq<Timer<T>>, x: int, k: nat)
    requires k <= |s| && (k < |s| ==> x < s[k].expire) && forall j :: 0 <= j < k ==> s[j].expire <= x
    ensures Position(s, x) == k
  {
  }

  lemma InsertSorted<T>(s: seq<Timer<T>>, t: Timer<T>)
    requires Sorted(s)
    ensures Sorted(Insert(s, t))
  {
    var k := Position(s, t.expire);
    forall j | k <= j < |s|
      ensures t.expire < s[j].expire
    {
      assert s[k].expire <= s[j].expire;
    }
    var r := Insert(s, t);
    assert forall j :: 0 <= j < k ==> r[j] == s[j];
    assert forall j :: k < j < |r| ==> r[j] == s[j - 1];
  }

  /** On a sorted list whose head is not later, the walk finds the place `Insert` means. */
  lemma WalkIsInsert<T>(s: seq<Timer<T>>, t: Timer<T>)
    requires s != [] && s[0].expire <= t.expire
    ensures InsertBehindHead(s, t) == Insert(s, t)
  {
  }

  lemma CutSorted<T>(s: seq<Timer<T>>, i: nat)
    requires i < |s| && Sorted(s)
    ensures Sorted(Cut(s, i))
  {
  }

  /** `x` is `s` with the expiry of its i-th timer set to `e`. */
  ghost function Reset<T>(s: seq<Timer<T>>, i: nat, e: int): seq<Timer<T>>
    requires i < |s|
  {
    s[i := Timer(s[i].id, e)]
  }

  lemma CutReset<T>(s: seq<Timer<T>>, i: nat, e: int)
    requires i < |s|
    ensures Cut(Reset(s, i, e), i) == Cut(s, i)
  {
  }

  lemma StayingIsReinserting<T>(s: seq<Timer<T>>, i: nat, e: int)
    requires i < |s| && Sorted(s) && s[i].expire <= e && (i + 1 < |s| ==> e < s[i + 1].expire)
    ensures Insert(Cut(s, i), Timer(s[i].id, e)) == Reset(s, i, e)
  {
    var c := Cut(s, i);
    forall j | 0 <= j < i
      ensures c[j].expire <= e
    {
      assert s[j].expire <= s[i].expire;
    }
    PositionIs(c, e, i);
  }

  /** Main result: postponing a timer is taking it out and inserting it again, at its new place. */
  lemma PostponeReinserts<T>(s: seq<Timer<T>>, i: nat, e: int)
    requires i < |s| && Sorted(s) && s[i].expire <= e
    ensures Adjust(Reset(s, i, e), i) == Insert(Cut(s, i), Timer(s[i].id, e))
    ensures Sorted(Adjust(Reset(s, i, e), i))
  {
    var c, t := Cut(s, i), Timer(s[i].id, e);
    CutReset(s, i, e);
    CutSorted(s, i);
    InsertSorted(c, t);
    if i + 1 == |s| || e < s[i + 1].expire {
      StayingIsReinserting(s, i, e);
    } else {
      assert c[0].expire <= e by {
        assert s[0].expire <= s[i].expire && (i == 0 ==> c[0] == s[1]);
      }
      hide Cut, Insert, InsertBehindHead, Sorted;
      WalkIsInsert(c, t);
    }
  }

  /** `adjust_timer` is only fit for postponing: it leaves the list sorted exactly when the new expiry is not
      below that of the timer in front. */
  lemma AdjustSortedIff<T>(s: seq<Timer<T>>, i: nat, e: int)
    requires i < |s| && Sorted(s)
    ensures Sorted(Adjust(Reset(s, i, e), i)) <==> i == 0 || s[i - 1].expire <= e
  {
    var r := Reset(s, i, e);
    if i + 1 == |s| || e < s[i + 1].expire {
      assert Adjust(r, i) == r;
      StayingSortedIff(s, i, e);
    } else {
      var c, t := Cut(s, i), Timer(s[i].id, e);
      CutReset(s, i, e);
      assert Adjust(r, i) == InsertBehindHead(c, t);
      assert c != [] && c[0].expire <= e && (i > 0 ==> s[i - 1].expire <= s[i + 1].expire);
      hide Cut, Adjust, Insert, InsertBehindHead;
      CutSorted(s, i);
      hide Sorted;
      WalkIsInsert(c, t);
      InsertSorted(c, t);
    }
  }

  lemma StayingSortedIff<T>(s: seq<Timer<T>>, i: nat, e: int)
    requires i < |s| && Sorted(s) && (i + 1 < |s| ==> e < s[i + 1].expire)
    ensures Sorted(Reset(s, i, e)) <==> i == 0 || s[i - 1].expire <= e
  {
    var r := Reset(s, i, e);
    assert i > 0 ==> r[i - 1].expire == s[i - 1].expire && r[i].expire == e;
    if i == 0 || s[i - 1].expire <= e {
      forall j, k | 0 <= j < k < |r|
        ensures r[j].expire <= r[k].expire
      {
        if j == i {
          assert s[i + 1].expire <= s[k].expire;
        } else if k == i {
          assert s[j].expire <= s[i - 1].expire;
        } else {
          assert s[j].expire <= s[k].expire;
        }
      }
    }
  }

  /** An input for which it does not: the second of two timers is moved before the first, and stays behind it. */
  lemma AdvancingUnsorts()
    ensures !Sorted(Adjust(Reset([Timer(0, 10), Timer(1, 20)], 1, 5), 1))
  {
    var s := Reset([Timer(0, 10), Timer(1, 20)], 1, 5);
    assert Adjust(s, 1) == s && s[0].expire == 10 && s[1].expire == 5;
  }

  /** On a sorted list, a tick fires exactly the timers that have expired, in list order, and keeps the rest. */
  lemma TickFiresExpired<T>(s: seq<Timer<T>>, cur: int)
    requires Sorted(s)
    ensures s == Fired(s, cur) + Left(s, cur) && Sorted(Left(s, cur))
    ensures forall t :: t in Fired(s, cur) <==> t in s && t.expire <= cur
    ensures forall t :: t in Left(s, cur) <==> t in s && cur < t.expire
  {
    hide Position;
    var k := Position(s, cur);
    assert forall j :: k <= j < |s| ==> s[k].expire <= s[j].expire;
    hide Sorted;
    SuffixSorted(s, k);
    Parted(s, k, cur);
  }

  lemma SuffixSorted<T>(s: seq<Timer<T>>, k: nat)
    requires k <= |s| && Sorted(s)
    ensures Sorted(s[k..])
  {
  }

  lemma Parted<T>(s: seq<Timer<T>>, k: nat, x: int)
    requires k <= |s|
    requires forall j :: 0 <= j < k ==> s[j].expire <= x
    requires forall j :: k <= j < |s| ==> x < s[j].expire
    ensures s == s[..k] + s[k..]
    ensures forall t :: t in s[..k] <==> t in s && t.expire <= x
    ensures forall t :: t in s[k..] <==> t in s && x < t.expire
  {
    assert s == s[..k] + s[k..];
  }

  // ---------- Whole runs ----------

  datatype Op<T> = Add(t: Timer<T>) | Postpone(i: nat, e: int) | Del(i: nat) | Tick(cur: int)

  predicate Permitted<T>(s: seq<Timer<T>>, op: Op<T>) {
    match op
    case Add(_) => true
    case Postpone(i, e) => i < |s| && s[i].expire <= e
    case Del(i) => i < |s|
    case Tick(_) => true
  }

  ghost function Step<T>(s: seq<Timer<T>>, op: Op<T>): seq<Timer<T>>
    requires Permitted(s, op)
  {
    match op
    case Add(t) => Insert(s, t)
    case Postpone(i, e) => Adjust(Reset(s, i, e), i)
    case Del(i) => Cut(s, i)
    case Tick(cur) => Left(s, cur)
  }

  ghost predicate PermittedRun<T>(s: seq<Timer<T>>, ops: seq<Op<T>>)
    decreases |ops|
  {
    ops == [] || (Permitted(s, ops[0]) && PermittedRun(Step(s, ops[0]), ops[1..]))
  }

  ghost function ListAfter<T>(s: seq<Timer<T>>, ops: seq<Op<T>>): seq<Timer<T>>
    requires PermittedRun(s, ops)
    decreases |ops|
  {
    if ops == [] then s else ListAfter(Step(s, ops[0]), ops[1..])
  }

  lemma StepSorted<T>(s: seq<Timer<T>>, op: Op<T>)
    requires Sorted(s) && Permitted(s, op)
    ensures Sorted(Step(s, op))
  {
    hide Sorted, Insert, Adjust, Cut, Left;
    match op
    case Add(t) => InsertSorted(s, t);
    case Postpone(i, e) => PostponeReinserts(s, i, e);
    case Del(i) => CutSorted(s, i);
    case Tick(cur) => TickFiresExpired(s, cur);
  }

  /** Main result: every run of add, postpone, del and tick keeps the list sorted. */
  lemma {:induction false} RunSorted<T>(s: seq<Timer<T>>, ops: seq<Op<T>>)
    requires Sorted(s) && PermittedRun(s, ops)
    ensures Sorted(ListAfter(s, ops))
    decreases |ops|
  {
    if ops != [] {
      StepSorted(s, ops[0]);
      RunSorted(Step(s, ops[0]), ops[1..]);
    }
  }

  ghost function Ids<T>(s: seq<Timer<T>>): multiset<T> {
    if s == [] then multiset{} else Ids(s[..|s| - 1]) + multiset{s[|s| - 1].id}
  }

  ghost function AddedBy<T>(op: Op<T>): multiset<T> {
    if op.Add? then multiset{op.t.id} else multiset{}
  }

  ghost function Added<T>(ops: seq<Op<T>>): multiset<T> {
    if ops == [] then multiset{} else AddedBy(ops[0]) + Added(ops[1..])
  }

  /** The timers a run takes out of the list, deleted or fired. */
  ghost function Removed<T>(s: seq<Timer<T>>, ops: seq<Op<T>>): multiset<T>
    requires PermittedRun(s, ops)
    decreases |ops|
  {
    if ops == [] then multiset{} else RemovedBy(s, ops[0]) + Removed(Step(s, ops[0]), ops[1..])
  }

  ghost function RemovedBy<T>(s: seq<Timer<T>>, op: Op<T>): multiset<T>
    requires Permitted(s, op)
  {
    match op
    case Add(_) => multiset{}
    case Postpone(_, _) => multiset{}
    case Del(i) => multiset{s[i].id}
    case Tick(cur) => Ids(Fired(s, cur))
  }

  lemma {:induction false} IdsOfConcat<T>(a: seq<Timer<T>>, b: seq<Timer<T>>)
    ensures Ids(a + b) == Ids(a) + Ids(b)
  {
    if b == [] {
      assert a + b == a;
    } else {
      assert (a + b)[..|a + b| - 1] == a + b[..|b| - 1];
      IdsOfConcat(a, b[..|b| - 1]);
    }
  }

  lemma IdsOfPut<T>(s: seq<Timer<T>>, k: nat, t: Timer<T>)
    requires k <= |s|
    ensures Ids(PutAt(s, k, t)) == Ids(s) + multiset{t.id}
  {
    assert s == s[..k] + s[k..];
    IdsOfConcat(s[..k], s[k..]);
    IdsOfConcat(s[..k] + [t], s[k..]);
  }

  lemma IdsOfCut<T>(s: seq<Timer<T>>, k: nat)
    requires k < |s|
    ensures Ids(s) == Ids(Cut(s, k)) + multiset{s[k].id}
  {
    hide Ids;
    var c := Cut(s, k);
    assert c[..k] == s[..k] && c[k..] == s[k + 1..];
    assert s == s[..k] + [s[k]] + s[k + 1..];
    IdsOfPut(c, k, s[k]);
  }

  lemma StepKeepsIds<T>(s: seq<Timer<T>>, op: Op<T>)
    requires Sorted(s) && Permitted(s, op)
    ensures Ids(s) + AddedBy(op) == Ids(Step(s, op)) + RemovedBy(s, op)
  {
    match op
    case Add(t) => IdsOfPut(s, Position(s, t.expire), t);
    case Postpone(i, e) =>
      PostponeReinserts(s, i, e);
      var t := Timer(s[i].id, e);
      IdsOfPut(Cut(s, i), Position(Cut(s, i), e), t);
      IdsOfCut(s, i);
    case Del(i) => IdsOfCut(s, i);
    case Tick(cur) =>
      assert s == Fired(s, cur) + Left(s, cur);
      IdsOfConcat(Fired(s, cur), Left(s, cur));
  }

  /** Main result: the list holds exactly the timers added and not removed, each as often as it was added. */
  lemma {:induction false} RunConserves<T>(s: seq<Timer<T>>, ops: seq<Op<T>>)
    requires Sorted(s) && PermittedRun(s, ops)
    ensures Ids(s) + Added(ops) == Ids(ListAfter(s, ops)) + Removed(s, ops)
    decreases |ops|
  {
    hide Sorted, Ids, RemovedBy, AddedBy, Step;
    if ops != [] {
      var op, rest, s' := ops[0], ops[1..], Step(s, ops[0]);
      StepSorted(s, op);
      StepKeepsIds(s, op);
      RunConserves(s', rest);
      Shuffle(Ids(s), AddedBy(op), Added(rest), Ids(s'), RemovedBy(s, op), Ids(ListAfter(s', rest)), Removed(s', rest));
    }
  }
}
