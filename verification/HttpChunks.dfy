/** What the parser of parse_http.cpp promises however the bytes arrive: the first decisive verdict, and all
    the state left behind, depend on the concatenated bytes alone. */
module HttpChunks {
  import opened HttpModel

  /** `p` after more bytes were received. */
  function Received(p: Parser, more: seq<char>): Parser {
    p.(buf := p.buf + more)
  }

  lemma ReceivedNothing(p: Parser)
    ensures Received(p, []) == p
  {
    assert p.buf + [] == p.buf;
  }

  lemma ReceivedTwice(p: Parser, a: seq<char>, b: seq<char>)
    ensures Received(Received(p, a), b) == Received(p, a + b)
  {
    assert p.buf + a + b == p.buf + (a + b);
  }

  // ---------- More bytes do not change what was decided ----------

  lemma {:induction false} MoreBytesLine(buf: seq<char>, i: nat, more: seq<char>)
    requires i <= |buf|
    ensures var l := ParseLine(buf, i);
            ParseLine(buf + more, i) ==
              if l.status == LineOpen then ParseLine(buf + more, l.checked) else l.(buf := l.buf + more)
    decreases |buf| - i
  {
    if i < |buf| {
      assert (buf + more)[i] == buf[i];
      if buf[i] == CR {
        if i + 1 < |buf| {
          assert (buf + more)[i + 1] == buf[i + 1];
          assert (buf + more)[i := NUL][i + 1 := NUL] == buf[i := NUL][i + 1 := NUL] + more;
        }
      } else if buf[i] == LF {
        if i > 1 {
          assert (buf + more)[i - 1] == buf[i - 1];
          assert (buf + more)[i - 1 := NUL][i := NUL] == buf[i - 1 := NUL][i := NUL] + more;
        }
      } else {
        MoreBytesLine(buf, i + 1, more);
      }
    }
  }

  lemma {:induction false} MoreBytesString(buf: seq<char>, p: nat, more: seq<char>)
    requires p <= |buf| && StrEnd(buf, p) < |buf|
    ensures StrEnd(buf + more, p) == StrEnd(buf, p) && CStr(buf + more, p) == CStr(buf, p)
    decreases |buf| - p
  {
    if p < |buf| && buf[p] != NUL {
      MoreBytesString(buf, p + 1, more);
    }
  }

  lemma Terminated(buf: seq<char>, p: nat, e: nat)
    requires p <= e < |buf| && buf[e] == NUL
    ensures StrEnd(buf, p) <= e
  {
  }

  lemma MoreBytesDone(p: Parser, buf: seq<char>, checked: nat, more: seq<char>)
    requires Indexed(p) && p.start < checked <= |buf| && buf[checked - 1] == NUL
    ensures var o := LineDone(p, buf, checked);
            LineDone(Received(p, more), buf + more, checked) == Outcome(o.code, Received(o.p, more))
  {
    hide RequestLine;
    Terminated(buf, p.start, checked - 1);
    MoreBytesString(buf, p.start, more);
    var edited := RequestLine(CStr(buf, p.start)).edited;
    assert Splice(buf + more, p.start, edited) == Splice(buf, p.start, edited) + more;
  }

  /** A decisive verdict stands, and an open one resumes where it stopped. */
  lemma {:induction false} MoreBytes(p: Parser, more: seq<char>)
    requires Indexed(p)
    ensures var o := Content(p);
            Content(Received(p, more)) ==
              if o.code == NoRequest then Content(Received(o.p, more)) else Outcome(o.code, Received(o.p, more))
    decreases |p.buf| - p.checked
  {
    hide RequestLine;
    var l := ParseLine(p.buf, p.checked);
    MoreBytesLine(p.buf, p.checked, more);
    if l.status == LineOk {
      MoreBytesDone(p, l.buf, l.checked, more);
      var o := LineDone(p, l.buf, l.checked);
      if o.code == NoRequest {
        MoreBytes(o.p, more);
      }
    }
  }

  // ---------- Receiving in chunks ----------

  function Concat(chunks: seq<seq<char>>): seq<char> {
    if chunks == [] then [] else chunks[0] + Concat(chunks[1..])
  }

  datatype Fed = Fed(code: HttpCode, p: Parser, used: nat)

  /** The receive loop up to the first result that is not NO_REQUEST; `used` counts the receives. */
  function Feed(p: Parser, chunks: seq<seq<char>>): (f: Fed)
    requires Indexed(p)
    ensures Indexed(f.p) && p.checked <= f.p.checked && f.used <= |chunks|
    ensures f.code == NoRequest || f.code == GetRequest || f.code == BadRequest
    decreases |chunks|
  {
    if chunks == [] then Fed(NoRequest, p, 0) else
      var o := Content(Received(p, chunks[0]));
      if o.code != NoRequest then Fed(o.code, o.p, 1)
      else
        var f := Feed(o.p, chunks[1..]);
        f.(used := f.used + 1)
  }

  /** The parser has nothing left to do with the bytes it holds: the state between two receives. */
  predicate Idle(p: Parser) {
    Indexed(p) && Content(p) == Outcome(NoRequest, p)
  }

  lemma InitIsIdle()
    ensures Idle(INIT) && NoDanglingCR(INIT)
  {
  }

  lemma ContentIdles(p: Parser)
    requires Indexed(p) && Content(p).code == NoRequest
    ensures Idle(Content(p).p)
  {
    MoreBytes(p, []);
    ReceivedNothing(p);
    ReceivedNothing(Content(p).p);
  }

  /** Main result: feeding chunks one by one gives the verdict, the indices, the state and the consumed part
      of the buffer that one call on the whole input gives. */
  lemma {:induction false} ChunksDoNotMatter(p: Parser, chunks: seq<seq<char>>)
    requires Idle(p)
    ensures var f := Feed(p, chunks);
            Content(Received(p, Concat(chunks))) == Outcome(f.code, Received(f.p, Concat(chunks[f.used..])))
    decreases |chunks|
  {
    hide ParseLine, LineDone;
    if chunks == [] {
      ReceivedNothing(p);
    } else {
      var q, rest := Received(p, chunks[0]), Concat(chunks[1..]);
      var o := Content(q);
      MoreBytes(q, rest);
      ReceivedTwice(p, chunks[0], rest);
      if o.code == NoRequest {
        ContentIdles(q);
        ChunksDoNotMatter(o.p, chunks[1..]);
        var f := Feed(o.p, chunks[1..]);
        assert chunks[1..][f.used..] == chunks[f.used + 1..];
      }
    }
  }

  /** Any two splits of the same bytes give the same first verdict and leave the same state. */
  lemma SplitsAgree(xs: seq<seq<char>>, ys: seq<seq<char>>)
    requires Concat(xs) == Concat(ys)
    ensures var f, g := Feed(INIT, xs), Feed(INIT, ys);
            && f.code == g.code && f.p.(buf := []) == g.p.(buf := [])
            && Received(f.p, Concat(xs[f.used..])) == Received(g.p, Concat(ys[g.used..]))
  {
    InitIsIdle();
    ChunksDoNotMatter(INIT, xs);
    ChunksDoNotMatter(INIT, ys);
    var f, g := Feed(INIT, xs), Feed(INIT, ys);
    assert Received(f.p, Concat(xs[f.used..])).(buf := []) == f.p.(buf := []);
    assert Received(g.p, Concat(ys[g.used..])).(buf := []) == g.p.(buf := []);
  }

  // ---------- What a call may touch ----------

  /** The byte just before `checked` is never a CR: the line before it was closed, or scanning went past it. */
  predicate NoDanglingCR(p: Parser)
    requires Indexed(p)
  {
    p.checked > 0 ==> p.buf[p.checked - 1] != CR
  }

  /** parse_line without the look-back at lines 57 to 62. */
  function ParseLineForward(buf: seq<char>, i: nat): Line
    requires i <= |buf|
    decreases |buf| - i
  {
    if i == |buf| then Line(LineOpen, buf, i)
    else if buf[i] == CR then
      if i + 1 == |buf| then Line(LineOpen, buf, i)
      else if buf[i + 1] == LF then Line(LineOk, buf[i := NUL][i + 1 := NUL], i + 2)
      else Line(LineBad, buf, i)
    else if buf[i] == LF then Line(LineBad, buf, i)
    else ParseLineForward(buf, i + 1)
  }

  /** The look-back never succeeds, and the scan ends with no CR behind it again. */
  lemma {:induction false} LookBackNeverTaken(buf: seq<char>, i: nat)
    requires i <= |buf| && (i > 0 ==> buf[i - 1] != CR)
    ensures ParseLine(buf, i) == ParseLineForward(buf, i)
    ensures var l := ParseLine(buf, i); l.checked > 0 ==> l.buf[l.checked - 1] != CR
    ensures var l := ParseLine(buf, i); l.status == LineOk ==> i + 2 <= l.checked
    decreases |buf| - i
  {
    if i < |buf| && buf[i] != CR && buf[i] != LF {
      LookBackNeverTaken(buf, i + 1);
    }
  }

  /** `after` differs from `before` only by NULs written over line ends and blanks in [from, to). */
  predicate OnlyNulsWritten(before: seq<char>, after: seq<char>, from: nat, to: nat) {
    |after| == |before| &&
    forall k :: 0 <= k < |before| ==>
      after[k] == before[k]
      || (from <= k < to && after[k] == NUL && (Blank(before[k]) || before[k] == CR || before[k] == LF))
  }

  lemma {:induction false} LineWrites(buf: seq<char>, i: nat)
    requires i <= |buf| && (i > 0 ==> buf[i - 1] != CR)
    ensures var l := ParseLine(buf, i); OnlyNulsWritten(buf, l.buf, i, l.checked)
    decreases |buf| - i
  {
    if i < |buf| && buf[i] != CR && buf[i] != LF {
      LineWrites(buf, i + 1);
    }
  }

  lemma RequestLineWrites(s: seq<char>)
    ensures OnlyNulsWritten(s, RequestLine(s).edited, 0, |s|)
  {
    hide PathOf, EqNoCase, FindBlank, SpanBlanks;
    var m := FindBlank(s);
    if m < |s| {
      var r := SkipBlanks(s[m + 1..]);
      var k := FindBlank(r);
      if k < |r| {
        TwoWrites(s, m, r, k);
      }
    }
  }

  lemma TwoWrites(s: seq<char>, m: nat, r: seq<char>, k: nat)
    requires m < |s| && Blank(s[m]) && k < |r| <= |s| && r == s[|s| - |r|..] && Blank(r[k])
    ensures OnlyNulsWritten(s, s[m := NUL][|s| - |r| + k := NUL], 0, |s|)
  {
    assert s[|s| - |r| + k] == r[k];
  }

  lemma SpliceWrites(buf: seq<char>, at: nat, s: seq<char>, to: nat)
    requires at + |s| <= to <= |buf| && OnlyNulsWritten(buf[at..at + |s|], s, 0, |s|)
    ensures OnlyNulsWritten(buf, Splice(buf, at, s), at, to)
    ensures forall k :: at + |s| <= k < |buf| ==> Splice(buf, at, s)[k] == buf[k]
  {
    forall k | at <= k < at + |s|
      ensures Splice(buf, at, s)[k] == s[k - at] && buf[k] == buf[at..at + |s|][k - at]
    {
    }
  }

  /** The C string a completed line is scanned as ends inside that line, so no scan reads behind it. */
  lemma DoneWrites(p: Parser, buf: seq<char>, checked: nat)
    requires Indexed(p) && p.start < checked <= |buf| && buf[checked - 1] == NUL
    ensures StrEnd(buf, p.start) < checked
    ensures OnlyNulsWritten(buf, LineDone(p, buf, checked).p.buf, p.start, checked)
    ensures LineDone(p, buf, checked).p.buf[checked - 1] == NUL
  {
    hide RequestLine, StrEnd;
    Terminated(buf, p.start, checked - 1);
    if p.state == RequestLineState {
      var s := CStr(buf, p.start);
      RequestLineWrites(s);
      SpliceWrites(buf, p.start, RequestLine(s).edited, checked);
    }
  }

  lemma WritesCompose(a: seq<char>, b: seq<char>, c: seq<char>, from: nat, mid: nat, to: nat)
    requires from <= mid <= to && OnlyNulsWritten(a, b, from, to) && OnlyNulsWritten(b, c, mid, to)
    ensures OnlyNulsWritten(a, c, from, to)
  {
  }

  lemma WritesWiden(a: seq<char>, b: seq<char>, from: nat, to: nat, to': nat)
    requires to <= to' && OnlyNulsWritten(a, b, from, to)
    ensures OnlyNulsWritten(a, b, from, to')
  {
  }

  lemma LineFrame(p: Parser)
    requires Indexed(p) && NoDanglingCR(p)
    requires ParseLine(p.buf, p.checked).status == LineOk
    ensures var l := ParseLine(p.buf, p.checked);
            var o := LineDone(p, l.buf, l.checked);
            OnlyNulsWritten(p.buf, o.p.buf, p.start, l.checked) && NoDanglingCR(o.p)
  {
    hide RequestLine, LineDone;
    var l := ParseLine(p.buf, p.checked);
    LineWrites(p.buf, p.checked);
    DoneWrites(p, l.buf, l.checked);
    WritesCompose(p.buf, l.buf, LineDone(p, l.buf, l.checked).p.buf, p.start, p.start, l.checked);
  }

  /** Main result: whatever a call decides, the indices stay ordered, it writes nothing but NULs over blanks and
      line ends between the start of the current line and `checked_index`, and no CR is left just before
      `checked_index`; every byte not yet checked is as it was received. */
  lemma {:induction false} ContentFrame(p: Parser)
    requires Indexed(p) && NoDanglingCR(p)
    ensures var o := Content(p);
            && o.p.start <= o.p.checked <= |o.p.buf| == |p.buf|
            && p.start <= o.p.start && p.checked <= o.p.checked
            && OnlyNulsWritten(p.buf, o.p.buf, p.start, o.p.checked)
            && NoDanglingCR(o.p)
    decreases |p.buf| - p.checked
  {
    hide RequestLine, ParseLine;
    var l := ParseLine(p.buf, p.checked);
    if l.status != LineOk {
      LookBackNeverTaken(p.buf, p.checked);
    } else {
      LineFrame(p);
      var o := LineDone(p, l.buf, l.checked);
      if o.code == NoRequest {
        ContentFrame(o.p);
        var o' := Content(o.p);
        WritesWiden(p.buf, o.p.buf, p.start, l.checked, o'.p.checked);
        WritesCompose(p.buf, o.p.buf, o'.p.buf, p.start, o.p.start, o'.p.checked);
      }
    }
  }

  lemma WritesExtend(a: seq<char>, b: seq<char>, from: nat, to: nat, more: seq<char>)
    requires OnlyNulsWritten(a, b, from, to)
    ensures OnlyNulsWritten(a + more, b + more, from, to)
  {
  }

  /** The invariant over whole runs of receives. */
  lemma {:induction false} FeedFrame(p: Parser, chunks: seq<seq<char>>)
    requires Indexed(p) && NoDanglingCR(p)
    ensures var f := Feed(p, chunks);
            && f.p.start <= f.p.checked <= |f.p.buf| && p.start <= f.p.start && NoDanglingCR(f.p)
            && OnlyNulsWritten(p.buf + Concat(chunks[..f.used]), f.p.buf, p.start, f.p.checked)
    decreases |chunks|
  {
    hide Content;
    if chunks == [] {
      ReceivedNothing(p);
    } else {
      var q := Received(p, chunks[0]);
      var o, f := Content(q), Feed(p, chunks);
      ContentFrame(q);
      assert NoDanglingCR(q) && chunks[..f.used][1..] == chunks[1..][..f.used - 1];
      var later := Concat(chunks[1..][..f.used - 1]);
      ReceivedTwice(p, chunks[0], later);
      if o.code == NoRequest {
        FeedFrame(o.p, chunks[1..]);
        WritesWiden(q.buf, o.p.buf, p.start, o.p.checked, f.p.checked);
        WritesExtend(q.buf, o.p.buf, p.start, f.p.checked, later);
        WritesCompose(q.buf + later, o.p.buf + later, f.p.buf, p.start, o.p.start, f.p.checked);
      } else {
        ReceivedNothing(q);
      }
    }
  }
}
