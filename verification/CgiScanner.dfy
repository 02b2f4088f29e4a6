/** The incremental scan for the first CR LF in `cgi_conn::process` of processpool_cgi.cpp: bytes arrive over any
    number of receives and calls, and only the new ones are looked at. */
module CgiScanner {
  import opened HttpModel

  const BUFFER_SIZE := 1024

  /** The terminating NUL always fits, so this many bytes can be received. */
  const ROOM := BUFFER_SIZE - 1

  predicate CrlfAt(x: seq<char>, k: int) {
    0 <= k && k + 1 < |x| && x[k] == '\r' && x[k + 1] == '\n'
  }

  predicate NoCrlf(x: seq<char>) {
    forall k :: 0 <= k < |x| ==> !CrlfAt(x, k)
  }

  predicate FirstCrlf(x: seq<char>, k: nat) {
    CrlfAt(x, k) && forall j :: 0 <= j < k ==> !CrlfAt(x, j)
  }

  /** Why there is nothing more to receive for now. */
  datatype Ending = Again | Failed | Closed

  /** What a call of `process` comes to: it returns to wait for more, it gives the connection up, or it has the
      name of the program to run. */
  datatype Result = Waiting | Dropped | Program(name: seq<char>)

  /** What the scan is for: `x` is everything the peer has sent so far, `r` what comes of it. */
  ghost predicate Meant(x: seq<char>, ending: Ending, r: Result) {
    var seen := if |x| <= ROOM then x else x[..ROOM];
    if !NoCrlf(seen) then exists k: nat :: FirstCrlf(seen, k) && r == Program(Text(seen[..k]))
    else if |x| < ROOM && ending == Again then r == Waiting
    else r == Dropped
  }

  /** The same in plain words: the program is named by what is in front of the first CR LF among the first 1023 bytes,
      up to a NUL; without one, only a peer that may send more, and for whom there is room, is waited for. */
  ghost predicate Plainly(x: seq<char>, ending: Ending, r: Result) {
    Said(if |x| <= 1023 then x else x[..1023], |x| < 1023 && ending.Again?, r)
  }

  ghost predicate Said(seen: seq<char>, more: bool, r: Result) {
    && (r.Program? <==> exists k :: CrlfAt(seen, k))
    && (r.Program? ==> exists k: nat :: FirstCrlf(seen, k) && Named(seen[..k], r.name))
    && (!r.Program? ==> (r.Waiting? <==> more))
  }

  predicate Named(line: seq<char>, name: seq<char>) {
    name <= line && '\0' !in name && (name != line ==> line[|name|] == '\0')
  }

  lemma MeantPlainly(x: seq<char>, ending: Ending, r: Result)
    requires Meant(x, ending, r)
    ensures Plainly(x, ending, r)
  {
    SaidOf(if |x| <= 1023 then x else x[..1023], |x| < 1023 && ending.Again?, r);
  }

  lemma SaidOf(seen: seq<char>, more: bool, r: Result)
    requires if !NoCrlf(seen) then exists k: nat :: FirstCrlf(seen, k) && r == Program(Text(seen[..k]))
             else r == if more then Waiting else Dropped
    ensures Said(seen, more, r)
  {
    if !NoCrlf(seen) {
      var k: nat :| FirstCrlf(seen, k) && r == Program(Text(seen[..k]));
      assert CrlfAt(seen, k) && Named(seen[..k], r.name);
    }
  }

  /** What can be read in one call of `process`, and why no more. */
  datatype Arrival = Arrival(bytes: seq<char>, ending: Ending)

  function Bytes(arrivals: seq<Arrival>): seq<char> {
    if arrivals == [] then [] else Bytes(arrivals[..|arrivals| - 1]) + arrivals[|arrivals| - 1].bytes
  }

  /** After none of the first `n` calls there was a CR LF in what had been sent. */
  ghost predicate Waited(x: seq<char>, arrivals: seq<Arrival>, n: nat)
    requires n <= |arrivals|
  {
    forall k :: 0 <= k < n ==> arrivals[k].ending == Again && NoCrlf(x + Bytes(arrivals[..k + 1]))
  }

  lemma WaitedLonger(x: seq<char>, arrivals: seq<Arrival>, n: nat)
    requires n < |arrivals| && Waited(x, arrivals, n)
    requires arrivals[n].ending == Again && NoCrlf(x + Bytes(arrivals[..n + 1]))
    ensures Waited(x, arrivals, n + 1)
  {
  }

  class CgiConn {
    const buf: array<char>
    var readIdx: nat

    ghost predicate Valid()
      reads this
    {
      buf.Length == BUFFER_SIZE && readIdx <= ROOM
    }

    ghost function Contents(): seq<char>
      requires Valid()
      reads this, buf
    {
      buf[..readIdx]
    }

    /** `init` on a new connection. */
    constructor ()
      ensures Valid() && Contents() == [] && fresh(buf) && buf.Length == 1024
    {
      buf := new char[BUFFER_SIZE](_ => NUL);
      readIdx := 0;
    }

    /** Lines 44 to 50: the scan starts at the first new byte. */
    method Scan(from: nat) returns (idx: nat)
      requires Valid() && from <= readIdx && NoCrlf(Contents()[..from])
      ensures from <= idx <= readIdx
      ensures idx < readIdx ==> idx >= 1 && FirstCrlf(Contents(), idx - 1)
      ensures idx == readIdx ==> NoCrlf(Contents())
    {
      idx := from;
      assert forall j :: 0 <= j && j + 1 < from ==> (CrlfAt(Contents(), j) <==> CrlfAt(Contents()[..from], j));
      while idx < readIdx
        invariant from <= idx <= readIdx
        invariant forall j :: 0 <= j && j + 1 < idx ==> !CrlfAt(Contents(), j)
      {
        if idx >= 1 && buf[idx - 1] == CR && buf[idx] == LF {
          break;
        }
        idx := idx + 1;
      }
    }

    /** recv of at least one and at most as many of the pending bytes as there is room for. */
    method Receive(pending: seq<char>) returns (n: nat)
      requires Valid() && pending != [] && readIdx < ROOM
      modifies buf, `readIdx
      ensures Valid() && 1 <= n <= |pending| && readIdx == old(readIdx) + n
      ensures Contents() == old(Contents()) + pending[..n]
    {
      var space := if |pending| <= ROOM - readIdx then |pending| else ROOM - readIdx;
      n :| 1 <= n <= space;
      for i := 0 to n
        invariant Valid() && readIdx == old(readIdx) && n <= space
        invariant buf[..readIdx] == old(buf[..readIdx])
        invariant buf[readIdx..readIdx + i] == pending[..i]
      {
        buf[readIdx + i] := pending[i];
      }
      assert buf[..readIdx + n] == buf[..readIdx] + buf[readIdx..readIdx + n];
      readIdx := readIdx + n;
    }

    /** One call, for a socket on which `pending` can be read and then recv reports `ending`. The requirement is
        what `init` establishes and every call that returns Waiting leaves behind. */
    method Process(pending: seq<char>, ending: Ending) returns (r: Result)
      requires Valid() && NoCrlf(Contents())
      modifies buf, `readIdx
      ensures Valid()
      ensures Meant(old(Contents()) + pending, ending, r)
      ensures r == Waiting ==> Contents() == old(Contents()) + pending && NoCrlf(Contents())
    {
      hide CrlfAt, FirstCrlf, Text, IndexOf;
      ghost var x := Contents() + pending;
      var at := 0;
      while true
        invariant Valid() && NoCrlf(Contents()) && at <= |pending|
        invariant Contents() + pending[at..] == x
        decreases |pending| - at
      {
        var idx := readIdx;
        if idx == ROOM {
          // recv of no bytes returns 0
          assert x[..ROOM] == Contents() && (|x| == ROOM ==> x == x[..ROOM]);
          return Dropped;
        }
        if at == |pending| {
          assert pending[at..] == [] && Contents() == x;
          if ending == Again {
            return Waiting;
          }
          return Dropped;
        }
        ghost var before := Contents();
        var n := Receive(pending[at..]);
        assert Contents()[..idx] == before;
        assert Contents() + pending[at + n..] == before + pending[at..];
        at := at + n;
        idx := Scan(idx);
        if idx < readIdx {
          ghost var seen := Contents();
          buf[idx - 1] := NUL;
          assert buf[..idx - 1] == seen[..idx - 1];
          FoundIsMeant(x, seen, idx - 1, ending);
          return Program(Text(buf[..idx - 1]));
        }
      }
    }

    /** The calls of `process` for this connection, one for each time the socket is readable, up to the first that
        does not return to wait: its result is what all the bytes sent so far mean, and until then there was no
        CR LF in them. */
    method ProcessAll(arrivals: seq<Arrival>) returns (r: Result, used: nat)
      requires Valid() && NoCrlf(Contents()) && arrivals != []
      modifies buf, `readIdx
      ensures Valid() && 1 <= used <= |arrivals|
      ensures Meant(old(Contents()) + Bytes(arrivals[..used]), arrivals[used - 1].ending, r)
      ensures used < |arrivals| ==> r != Waiting
      ensures r == Waiting ==> Contents() == old(Contents()) + Bytes(arrivals[..used]) && NoCrlf(Contents())
      ensures Waited(old(Contents()), arrivals, used - 1)
    {
      assert Waited(Contents(), arrivals, 0);
      hide Meant, CrlfAt, NoCrlf, Waited;
      used := 0;
      while true
        invariant Valid() && NoCrlf(Contents()) && used < |arrivals|
        invariant Contents() == old(Contents()) + Bytes(arrivals[..used])
        invariant Waited(old(Contents()), arrivals, used)
        decreases |arrivals| - used
      {
        ghost var x := Contents() + arrivals[used].bytes;
        BytesNext(Contents(), old(Contents()), arrivals, used);
        r := Process(arrivals[used].bytes, arrivals[used].ending);
        used := used + 1;
        if r != Waiting || used == |arrivals| {
          return r, used;
        }
        WaitingMeans(x, arrivals[used - 1].ending);
        WaitedLonger(old(Contents()), arrivals, used - 1);
      }
    }
  }

  lemma FoundIsMeant(x: seq<char>, seen: seq<char>, k: nat, ending: Ending)
    requires seen <= x && |seen| <= ROOM && FirstCrlf(seen, k)
    ensures Meant(x, ending, Program(Text(seen[..k])))
  {
    var s := if |x| <= ROOM then x else x[..ROOM];
    assert FirstCrlf(s, k) && s[..k] == seen[..k] by {
      assert forall j :: 0 <= j <= k ==> (CrlfAt(s, j) <==> CrlfAt(seen, j));
    }
    assert !NoCrlf(s);
  }

  lemma FirstCrlfUnique(x: seq<char>, k: nat, k': nat)
    requires FirstCrlf(x, k) && FirstCrlf(x, k')
    ensures k == k'
  {
    assert CrlfAt(x, k) && CrlfAt(x, k');
  }

  /** The meaning leaves nothing open. */
  lemma MeantOnce(x: seq<char>, ending: Ending, r: Result, r': Result)
    requires Meant(x, ending, r) && Meant(x, ending, r')
    ensures r == r'
  {
    var seen := if |x| <= ROOM then x else x[..ROOM];
    if !NoCrlf(seen) {
      var k: nat :| FirstCrlf(seen, k) && r == Program(Text(seen[..k]));
      var k': nat :| FirstCrlf(seen, k') && r' == Program(Text(seen[..k']));
      FirstCrlfUnique(seen, k, k');
    }
  }

  lemma WaitingMeans(x: seq<char>, ending: Ending)
    requires Meant(x, ending, Waiting)
    ensures ending == Again && NoCrlf(x)
  {
  }

  lemma BytesNext(now: seq<char>, before: seq<char>, arrivals: seq<Arrival>, k: nat)
    requires k < |arrivals| && now == before + Bytes(arrivals[..k])
    ensures now + arrivals[k].bytes == before + Bytes(arrivals[..k + 1])
  {
    assert arrivals[..k + 1][..k] == arrivals[..k];
  }

  /** Main result: however the bytes are spread over calls and receives, and however the last call ends, it returns
      what one call with all the bytes at once returns on another connection in the same state. */
  method CallsDoNotMatter(conn: CgiConn, other: CgiConn, arrivals: seq<Arrival>)
    returns (r: Result, whole: Result, used: nat)
    requires conn != other && conn.buf != other.buf && conn.Valid() && other.Valid()
    requires conn.Contents() == other.Contents() && NoCrlf(conn.Contents()) && arrivals != []
    modifies conn, conn.buf, other, other.buf
    ensures 1 <= used <= |arrivals| && (used < |arrivals| ==> r != Waiting)
    ensures whole == r && Meant(old(conn.Contents()) + Bytes(arrivals[..used]), arrivals[used - 1].ending, r)
  {
    hide Meant, CrlfAt, NoCrlf;
    ghost var x := conn.Contents();
    r, used := conn.ProcessAll(arrivals);
    whole := other.Process(Bytes(arrivals[..used]), arrivals[used - 1].ending);
    MeantOnce(x + Bytes(arrivals[..used]), arrivals[used - 1].ending, r, whole);
  }
}
