/** The parser of parse_http.cpp as it is: a fixed buffer edited in place, three indices and a state that persist
    across receives. Every method is proved against the functions of HttpModel. */
module HttpParser {
  import opened Common
  import opened HttpModel
  import opened HttpChunks
  import opened HttpReplies
  import opened HttpGrammar

  const BUFFER_SIZE := 4096

  // ---------- C strings in a buffer that is being cut ----------

  lemma {:induction false} StringTail(buf: seq<char>, p: nat, q: nat)
    requires p <= q <= |buf| && q <= StrEnd(buf, p)
    ensures StrEnd(buf, q) == StrEnd(buf, p)
    decreases q - p
  {
    if p < q {
      StringTail(buf, p + 1, q);
    }
  }

  /** A NUL written at `m` ends the strings that start before it and leaves those that start behind it alone. */
  lemma {:induction false} StringCut(buf: seq<char>, p: nat, m: nat)
    requires p <= |buf| && m < |buf|
    ensures StrEnd(buf[m := NUL], p) == if p <= m < StrEnd(buf, p) then m else StrEnd(buf, p)
    decreases |buf| - p
  {
    if p < |buf| && buf[p] != NUL {
      StringCut(buf, p + 1, m);
    }
  }

  /** Cutting the string at `p` after `k` characters: its head, and the string behind the cut. */
  lemma CutString(buf: seq<char>, p: nat, k: nat)
    requires p <= |buf| && k < |CStr(buf, p)|
    ensures CStr(buf[p + k := NUL], p) == CStr(buf, p)[..k]
    ensures CStr(buf[p + k := NUL], p + k + 1) == CStr(buf, p)[k + 1..]
  {
    var cut := buf[p + k := NUL];
    StringCut(buf, p, p + k);
    assert cut[p..p + k] == buf[p..p + k];
    StringTail(buf, p, p + k + 1);
    StringCut(buf, p + k + 1, p + k);
    assert cut[p + k + 1..StrEnd(buf, p)] == buf[p + k + 1..StrEnd(buf, p)];
  }

  /** Moving the pointer inside the string. */
  lemma DropString(buf: seq<char>, p: nat, k: nat)
    requires p <= |buf| && k <= |CStr(buf, p)|
    ensures CStr(buf, p + k) == CStr(buf, p)[k..]
  {
    StringTail(buf, p, p + k);
  }

  lemma StringInside(buf: seq<char>, p: nat, e: nat)
    requires p <= e < |buf| && buf[e] == NUL
    ensures p + |CStr(buf, p)| <= e
  {
  }

  lemma SpliceSame(buf: seq<char>, p: nat)
    requires p <= |buf|
    ensures p + |CStr(buf, p)| <= |buf| && Splice(buf, p, CStr(buf, p)) == buf
  {
  }

  lemma SpliceCut(buf: seq<char>, p: nat, s: seq<char>, k: nat)
    requires p + |s| <= |buf| && k < |s|
    ensures Splice(buf, p, s)[p + k := NUL] == Splice(buf, p, s[k := NUL])
  {
  }

  /** How far the line was scanned before it was completed does not matter. */
  lemma LineDoneIgnoresChecked(p: Parser, buf: seq<char>, checked: nat)
    requires Indexed(p) && p.checked <= checked <= |buf| && |buf| == |p.buf|
    ensures LineDone(p.(buf := buf, checked := checked), buf, checked) == LineDone(p, buf, checked)
  {
  }

  class Connection {
    const buffer: array<char>
    var readIndex: nat
    var checkedIndex: nat
    var startLine: nat
    var checkState: CheckState
    /** What line 116 last printed. */
    var url: Option<seq<char>>

    ghost predicate Valid()
      reads this
    {
      buffer.Length == BUFFER_SIZE && startLine <= checkedIndex <= readIndex <= BUFFER_SIZE
    }

    ghost function Value(): (p: Parser)
      requires Valid()
      reads this, buffer
      ensures Indexed(p)
    {
      Parser(buffer[..readIndex], checkedIndex, startLine, checkState, url)
    }

    constructor ()
      ensures Valid() && Value() == INIT && fresh(buffer) && buffer.Length == 4096
    {
      buffer := new char[BUFFER_SIZE](_ => NUL);
      readIndex, checkedIndex, startLine := 0, 0, 0;
      checkState, url := RequestLineState, None;
    }

    method ParseLine() returns (status: LineStatus)
      requires Valid()
      modifies buffer, `checkedIndex
      ensures Valid() && buffer[readIndex..] == old(buffer[readIndex..])
      ensures var l := HttpModel.ParseLine(old(buffer[..readIndex]), old(checkedIndex));
              status == l.status && Value() == old(Value()).(buf := l.buf, checked := l.checked)
    {
      ghost var buf := buffer[..readIndex];
      while checkedIndex < readIndex
        invariant Valid() && old(checkedIndex) <= checkedIndex && buffer[..] == old(buffer[..])
        invariant HttpModel.ParseLine(buf, checkedIndex) == HttpModel.ParseLine(buf, old(checkedIndex))
      {
        var temp := buffer[checkedIndex];
        if temp == CR {
          if checkedIndex + 1 == readIndex {
            return LineOpen;
          } else if buffer[checkedIndex + 1] == LF {
            buffer[checkedIndex], checkedIndex := NUL, checkedIndex + 1;
            buffer[checkedIndex], checkedIndex := NUL, checkedIndex + 1;
            return LineOk;
          }
          return LineBad;
        } else if temp == LF {
          if checkedIndex > 1 && buffer[checkedIndex - 1] == CR {
            buffer[checkedIndex - 1] := NUL;
            buffer[checkedIndex], checkedIndex := NUL, checkedIndex + 1;
            return LineOk;
          }
          return LineBad;
        }
        checkedIndex := checkedIndex + 1;
      }
      return LineOpen;
    }

    ghost function Mem(): seq<char>
      requires Valid()
      reads this, buffer
    {
      buffer[..readIndex]
    }

    /** `*strpbrk(p, " \t")++ = 0`: ends the word at `p`; `after` points behind the NUL. */
    method CutWord(p: nat) returns (found: bool, after: nat)
      requires Valid() && p <= readIndex
      modifies buffer
      ensures buffer[readIndex..] == old(buffer[readIndex..])
      ensures var s, k := CStr(old(Mem()), p), FindBlank(CStr(old(Mem()), p));
              && found == (k < |s|)
              && (!found ==> Mem() == old(Mem()))
              && (found ==> Mem() == old(Mem())[p + k := NUL] && after == p + k + 1 <= readIndex
                            && CStr(Mem(), p) == s[..k] && CStr(Mem(), after) == s[k + 1..])
    {
      var k := FindBlank(CStr(buffer[..readIndex], p));
      if k == |CStr(buffer[..readIndex], p)| {
        return false, p;
      }
      CutString(Mem(), p, k);
      buffer[p + k] := NUL;
      assert Mem() == old(Mem())[p + k := NUL];
      return true, p + k + 1;
    }

    /** `p += strspn(p, " \t")`. */
    method SkipGap(p: nat) returns (after: nat)
      requires Valid() && p <= readIndex
      ensures p <= after <= readIndex && CStr(Mem(), after) == SkipBlanks(CStr(Mem(), p))
      ensures after - p == |CStr(Mem(), p)| - |SkipBlanks(CStr(Mem(), p))|
    {
      var gap := SpanBlanks(CStr(buffer[..readIndex], p));
      DropString(Mem(), p, gap);
      return p + gap;
    }

    /** Lines 107 to 115. */
    method ReadTarget(p: nat) returns (target: Option<seq<char>>)
      requires Valid() && p <= readIndex
      ensures target == PathOf(CStr(Mem(), p))
    {
      hide CStr, StrEnd, EqNoCase, IndexOf;
      var at := p;
      if PrefixNoCase(CStr(buffer[..readIndex], at), SCHEME) {
        DropString(Mem(), p, |SCHEME|);
        at := at + |SCHEME|;
        var slash := IndexOf(CStr(buffer[..readIndex], at), '/');
        if slash == |CStr(buffer[..readIndex], at)| {
          return None;
        }
        DropString(Mem(), at, slash);
        at := at + slash;
      }
      var s := CStr(buffer[..readIndex], at);
      if s == [] || s[0] != '/' {
        return None;
      }
      return Some(s);
    }

    /** `temp` points at a completed line: it is ended by a NUL below `checkedIndex`. */
    method ParseRequestLine(temp: nat) returns (code: HttpCode)
      requires Valid() && temp < checkedIndex && buffer[checkedIndex - 1] == NUL
      modifies buffer, `checkState, `url
      ensures Valid() && buffer[readIndex..] == old(buffer[readIndex..])
      ensures var r := RequestLine(CStr(old(Mem()), temp));
              && code == r.code
              && Mem() == Splice(old(Mem()), temp, r.edited)
              && checkState == (if code == NoRequest then HeaderState else old(checkState))
              && url == (if code == NoRequest then r.url else old(url))
      ensures code == NoRequest <==> GoodRequestLine(CStr(old(Mem()), temp))
    {
      hide CStr, FindBlank, SpanBlanks, SkipBlanks, PathOf, EqNoCase, Splice, GoodRequestLine;
      RequestLineLanguage(CStr(Mem(), temp));
      ghost var buf, s := Mem(), CStr(Mem(), temp);
      StringInside(buf, temp, checkedIndex - 1);
      SpliceSame(buf, temp);
      var found, p := CutWord(temp);
      if !found {
        return BadRequest;
      }
      ghost var m := FindBlank(s);
      SpliceCut(buf, temp, s, m);
      if !EqNoCase(CStr(buffer[..readIndex], temp), GET) {
        return BadRequest;
      }
      p := SkipGap(p);
      ghost var r := SkipBlanks(s[m + 1..]);
      var version;
      found, version := CutWord(p);
      if !found {
        return BadRequest;
      }
      SpliceCut(buf, temp, s[m := NUL], |s| - |r| + FindBlank(r));
      version := SkipGap(version);
      if !EqNoCase(CStr(buffer[..readIndex], version), VERSION) {
        return BadRequest;
      }
      var target := ReadTarget(p);
      if target == None {
        return BadRequest;
      }
      url := target;
      checkState := HeaderState;
      return NoRequest;
    }

    /** Only the empty line matters to the caller; what a `Host:` line says is just printed. */
    method ParseHeaders(temp: nat) returns (code: HttpCode)
      requires Valid() && temp < readIndex
      ensures code == if CStr(Mem(), temp) == [] then GetRequest else NoRequest
    {
      if buffer[temp] == NUL {
        return GetRequest;
      }
      return NoRequest;
    }

    /** The body of the loop at lines 145 to 178, for a line that was completed. */
    method HandleLine() returns (code: HttpCode)
      requires Valid() && startLine < checkedIndex && buffer[checkedIndex - 1] == NUL
      modifies buffer, `startLine, `checkState, `url
      ensures Valid() && buffer[readIndex..] == old(buffer[readIndex..])
      ensures Outcome(code, Value()) == LineDone(old(Value()), old(Mem()), checkedIndex)
    {
      var temp := startLine;
      startLine := checkedIndex;
      match checkState {
        case RequestLineState =>
          code := ParseRequestLine(temp);
        case HeaderState =>
          code := ParseHeaders(temp);
      }
    }

    method ParseContent() returns (code: HttpCode)
      requires Valid()
      modifies buffer, `checkedIndex, `startLine, `checkState, `url
      ensures Valid() && buffer[readIndex..] == old(buffer[readIndex..])
      ensures Outcome(code, Value()) == Content(old(Value()))
    {
      hide RequestLine, LineDone, HttpModel.ParseLine;
      var status := LineOk;
      while true
        invariant Valid() && buffer[readIndex..] == old(buffer[readIndex..])
        invariant Content(Value()) == Content(old(Value()))
        decreases readIndex - checkedIndex
      {
        ghost var p := Value();
        status := ParseLine();
        if status != LineOk {
          break;
        }
        ghost var l := HttpModel.ParseLine(p.buf, p.checked);
        LineDoneIgnoresChecked(p, l.buf, l.checked);
        code := HandleLine();
        if code != NoRequest {
          return code;
        }
      }
      if status == LineOpen {
        return NoRequest;
      } else {
        return BadRequest;
      }
    }

    /** recv: some of the pending bytes, at least one, as many as fit at most. */
    method Receive(pending: seq<char>) returns (n: nat)
      requires Valid() && pending != [] && readIndex < BUFFER_SIZE
      modifies buffer, `readIndex
      ensures Valid() && 1 <= n <= |pending| && readIndex == old(readIndex) + n
      ensures Value() == Received(old(Value()), pending[..n])
    {
      var space := if |pending| <= BUFFER_SIZE - readIndex then |pending| else BUFFER_SIZE - readIndex;
      n :| 1 <= n <= space;
      for i := 0 to n
        invariant Valid() && readIndex == old(readIndex) && n <= space
        invariant buffer[..readIndex] == old(buffer[..readIndex])
        invariant buffer[readIndex..readIndex + i] == pending[..i]
      {
        buffer[readIndex + i] := pending[i];
      }
      assert buffer[..readIndex + n] == buffer[..readIndex] + buffer[readIndex..readIndex + n];
      readIndex := readIndex + n;
    }

    /** The receive loop of `main` for a peer that sends `input` and then closes: it ends at GET_REQUEST, and when
        nothing more comes or fits; BAD_REQUEST is replied to, and the loop goes on. How recv cuts the input up is
        left open; it shows in no result up to the first reply. */
    method Serve(input: seq<char>) returns (replies: seq<HttpCode>, ghost chunks: seq<seq<char>>)
      requires Valid() && Value() == INIT
      modifies buffer, this
      ensures Valid()
      ensures var x := Fitting(input);
              && readIndex <= |x| && Concat(chunks) == x[..readIndex] && [] !in chunks
              && Session(replies, Value(), |chunks|) == Replies(INIT, chunks)
              && (GetRequest !in replies ==> readIndex == |x|)
      ensures var x := Fitting(input);
              && Content(Received(INIT, x)).code == (if replies == [] then NoRequest else replies[0])
              && (replies == [] || replies == [GetRequest] ==>
                    Content(Received(INIT, x)).p == Received(Value(), x[readIndex..]))
    {
      hide Content, Replies;
      ghost var x := Fitting(input);
      replies, chunks := [], [];
      NothingServed();
      while readIndex < BUFFER_SIZE && readIndex < |input|
        invariant Valid() && readIndex <= |x| && Concat(chunks) == x[..readIndex] && [] !in chunks
        invariant Session(replies, Value(), |chunks|) == Replies(INIT, chunks) && GetRequest !in replies
        decreases BUFFER_SIZE - readIndex
      {
        ghost var p, at := Value(), readIndex;
        var n := Receive(input[readIndex..]);
        ghost var c := input[at..][..n];
        assert c != [] && x[..readIndex] == x[..at] + c;
        ConcatOneMore(chunks, c);
        RepliesOneMore(INIT, chunks, c);
        chunks := chunks + [c];
        var result := ParseContent();
        if result != NoRequest {
          replies := replies + [result];
          if result == GetRequest {
            break;
          }
        }
      }
      FirstReplyToAll(x, readIndex, chunks);
    }
  }

  /** What the buffer can take: the first 4096 bytes. */
  function Fitting(input: seq<char>): (x: seq<char>)
    ensures x <= input && |x| == if |input| <= 4096 then |input| else 4096
  {
    if |input| <= BUFFER_SIZE then input else input[..BUFFER_SIZE]
  }

  lemma NothingServed()
    ensures Replies(INIT, []) == Session([], INIT, 0)
  {
  }
}
