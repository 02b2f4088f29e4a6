/** What several modules share: an optional value, and sequences with one element more or less. */
module Common {

  datatype Option<+T> = None | Some(value: T)

  ghost predicate Distinct<T>(s: seq<T>) {
    forall j, k :: 0 <= j < k < |s| ==> s[j] != s[k]
  }

  /** The sequence without its k-th element. */
  ghost function Cut<T>(s: seq<T>, k: nat): seq<T>
    requires k < |s|
  {
    s[..k] + s[k + 1..]
  }

  /** The sequence with `t` in front of its k-th element. */
  ghost function PutAt<T>(s: seq<T>, k: nat, t: T): seq<T>
    requires k <= |s|
  {
    s[..k] + [t] + s[k..]
  }

  lemma CutMembers<T>(s: seq<T>, k: nat)
    requires k < |s| && Distinct(s)
    ensures forall t :: t in Cut(s, k) <==> t in s && t != s[k]
  {
    forall t | t in s && t != s[k]
      ensures t in Cut(s, k)
    {
      var j :| 0 <= j < |s| && s[j] == t;
      assert t == Cut(s, k)[if j < k then j else j - 1];
    }
  }

  lemma PutMembers<T>(s: seq<T>, k: nat, x: T)
    requires k <= |s|
    ensures forall t :: t in PutAt(s, k, x) <==> t == x || t in s
  {
    assert s == s[..k] + s[k..];
  }

  lemma PutDistinct<T>(s: seq<T>, k: nat, x: T)
    requires k <= |s| && x !in s && Distinct(s)
    ensures Distinct(PutAt(s, k, x)) && |PutAt(s, k, x)| == |s| + 1 && PutAt(s, k, x)[0] == if k == 0 then x else s[0]
  {
    var r := PutAt(s, k, x);
    forall i, j | 0 <= i < j < |r|
      ensures r[i] != r[j]
    {
      assert i != k ==> r[i] == s[if i < k then i else i - 1];
      assert j != k ==> r[j] == s[if j < k then j else j - 1];
    }
  }

  lemma CutDistinct<T>(s: seq<T>, k: nat)
    requires k < |s| && Distinct(s)
    ensures Distinct(Cut(s, k)) && |Cut(s, k)| == |s| - 1
  {
    var r := Cut(s, k);
    forall i, j | 0 <= i < j < |r|
      ensures r[i] != r[j]
    {
      assert r[i] == s[if i < k then i else i + 1] && r[j] == s[if j < k then j else j + 1];
    }
  }

  /** After a cut, the element that was at `o` has the same neighbours but for the one taken out. */
  lemma CutNeighbours<T>(s: seq<T>, k: nat, j: nat)
    requires k < |s| && j + 1 < |s|
    ensures var r, o := Cut(s, k), if j < k then j else j + 1;
            var p, n := if o == k + 1 then k - 1 else o - 1, if o + 1 == k then k + 1 else o + 1;
            && r[j] == s[o] && o != k && |r| == |s| - 1
            && (j > 0 <==> p >= 0) && (j > 0 ==> r[j - 1] == s[p])
            && (j + 1 < |r| <==> n < |s|) && (j + 1 < |r| ==> r[j + 1] == s[n])
  {
  }

  /** And after a put, but for the one put in between. */
  lemma PutNeighbours<T>(s: seq<T>, k: nat, x: T, j: nat)
    requires k <= |s| && j <= |s|
    ensures var r, o := PutAt(s, k, x), if j < k then j else j - 1;
            && |r| == |s| + 1 && r[k] == x && (j != k ==> r[j] == s[o])
            && (j > 0 ==> r[j - 1] == if j == k + 1 then x else if j == k then s[k - 1] else s[o - 1])
            && (j < |s| ==> r[j + 1] == if j + 1 == k then x else if j == k then s[k] else s[o + 1])
  {
  }

  /** One step's account and that of the rest of a run give the account of both. */
  lemma Shuffle<T>(a: multiset<T>, c: multiset<T>, c': multiset<T>, m: multiset<T>, r: multiset<T>,
                   z: multiset<T>, r': multiset<T>)
    requires a + c == m + r && m + c' == z + r'
    ensures a + (c + c') == z + (r + r')
  {
    assert a + (c + c') == (a + c) + c' == (m + c') + r;
  }
}
