/** The bytes parse_http.cpp refuses, stated as HttpGrammar states what it accepts, and with them when the replies
    depend on how the bytes arrive (compare section 2.2 of RFC 9112 on bare line ends). */
module HttpRefusals {
  import opened HttpModel
  import opened HttpChunks
  import opened HttpReplies
  import opened HttpGrammar

  // ---------- What is refused ----------

  /** A lone LF, or a CR and something else than LF. */
  predicate BadEnd(e: seq<char>) {
    e == ['\n'] || (|e| == 2 && e[0] == '\r' && e[1] != '\n')
  }

  /** A line that is ended badly. */
  ghost predicate BrokenLine(y: seq<char>) {
    exists line, e :: y == line + e && Clean(line) && BadEnd(e)
  }

  /** Any number of header lines, and a line that is ended badly. */
  ghost predicate BrokenHeaders(y: seq<char>) {
    exists hs, z :: y == Block(hs) + z && GoodHeaders(hs) && BrokenLine(z)
  }

  /** A bad line end in the request line, or behind a good request line in the header section. */
  ghost predicate BadByte(y: seq<char>) {
    || BrokenLine(y)
    || exists line, z :: y == line + CRLF + z && Clean(line) && GoodRequestLine(Text(line)) && BrokenHeaders(z)
  }

  /** A line that is no request line. */
  ghost predicate BadLine(y: seq<char>) {
    exists line :: y == line + CRLF && Clean(line) && !GoodRequestLine(Text(line))
  }

  ghost predicate RefusedBy(y: seq<char>, n: nat) {
    n <= |y| && (BadLine(y[..n]) || BadByte(y[..n]))
  }

  ghost predicate Refused(y: seq<char>) {
    exists n: nat :: RefusedBy(y, n)
  }

  // ---------- Bad line ends in the buffer ----------

  predicate EndsBadlyAt(buf: seq<char>, k: nat) {
    k < |buf| && (buf[k] == LF || (buf[k] == CR && k + 1 < |buf| && buf[k + 1] != LF))
  }

  lemma {:induction false} BadEndFound(buf: seq<char>, i: nat, n: nat)
    requires i + n <= |buf| && Clean(buf[i..i + n]) && EndsBadlyAt(buf, i + n) && (i > 0 ==> buf[i - 1] != CR)
    ensures ParseLine(buf, i) == Line(LineBad, buf, i + n)
    decreases n
  {
    if n > 0 {
      assert buf[i] == buf[i..i + n][0];
      assert buf[i + 1..i + 1 + (n - 1)] == buf[i..i + n][1..];
      BadEndFound(buf, i + 1, n - 1);
    }
  }

  lemma {:induction false} FoundBadEnd(buf: seq<char>, i: nat)
    requires i <= |buf| && ParseLine(buf, i).status == LineBad
    ensures var k := ParseLine(buf, i).checked; Clean(buf[i..k]) && EndsBadlyAt(buf, k)
    decreases |buf| - i
  {
    if buf[i] != CR && buf[i] != LF {
      FoundBadEnd(buf, i + 1);
      var k := ParseLine(buf, i).checked;
      assert buf[i..k] == [buf[i]] + buf[i + 1..k];
    }
  }

  /** In any state, a badly ended line is refused, and the parser is stuck there. */
  lemma StuckAt(p: Parser, n: nat)
    requires AtLine(p) && p.checked + n <= |p.buf| && Clean(p.buf[p.checked..p.checked + n])
    requires EndsBadlyAt(p.buf, p.checked + n)
    ensures Content(p).code == BadRequest && Stuck(Content(p).p)
  {
    BadEndFound(p.buf, p.checked, n);
    BadStaysBad(p.buf, p.checked);
  }

  lemma BrokenLineSticks(p: Parser, z: seq<char>, rest: seq<char>)
    requires AtLine(p) && p.buf[p.checked..] == z + rest && BrokenLine(z)
    ensures Content(p).code == BadRequest && Stuck(Content(p).p)
  {
    hide Content, Clean, ParseLine, Stuck;
    var line, e :| z == line + e && Clean(line) && BadEnd(e);
    ReadBadEnd(p.buf, p.checked, line, e, rest);
    StuckAt(p, |line|);
  }

  lemma ReadBadEnd(buf: seq<char>, i: nat, line: seq<char>, e: seq<char>, rest: seq<char>)
    requires i <= |buf| && buf[i..] == line + e + rest && BadEnd(e)
    ensures i + |line| <= |buf| && buf[i..i + |line|] == line && EndsBadlyAt(buf, i + |line|)
  {
    var t, n := buf[i..], |line|;
    assert buf[i..i + n] == t[..n];
    assert t[n] == e[0] == buf[i + n] && (|e| == 2 ==> t[n + 1] == e[1] == buf[i + n + 1]);
  }

  /** A line found bad is the beginning of what is to come. */
  lemma FoundBrokenLine(p: Parser)
    requires AtLine(p) && ParseLine(p.buf, p.checked).status == LineBad
    ensures exists n :: 0 <= n <= |p.buf| - p.checked && BrokenLine(p.buf[p.checked..][..n])
  {
    hide ParseLine;
    FoundBadEnd(p.buf, p.checked);
    var y, k := p.buf[p.checked..], ParseLine(p.buf, p.checked).checked;
    var line := p.buf[p.checked..k];
    var e := if p.buf[k] == LF then [LF] else p.buf[k..k + 2];
    assert y[..|line| + |e|] == line + e && BadEnd(e);
    assert BrokenLine(y[..|line| + |e|]);
  }

  // ---------- The header section ----------

  lemma {:induction false} BrokenHeadersStick(p: Parser, hs: seq<seq<char>>, z: seq<char>, rest: seq<char>)
    requires AtLine(p) && p.state == HeaderState && GoodHeaders(hs) && BrokenLine(z)
    requires p.buf[p.checked..] == Block(hs) + z + rest
    ensures Content(p).code == BadRequest && Stuck(Content(p).p)
    decreases |hs|
  {
    hide RequestLine, ParseLine, LineDone, Content, Text, Clean, BrokenLine;
    if hs == [] {
      assert Block(hs) + z + rest == z + rest;
      BrokenLineSticks(p, z, rest);
    } else {
      var y := Block(hs[1..]) + z + rest;
      assert Block(hs) + z + rest == hs[0] + CRLF + y;
      HeaderLineRead(p, hs[0], y);
      var l := ParseLine(p.buf, p.checked);
      BrokenHeadersStick(LineDone(p, l.buf, l.checked).p, hs[1..], z, rest);
    }
  }

  lemma {:induction false} RefusalNeedsBrokenHeaders(p: Parser)
    requires AtLine(p) && p.state == HeaderState && Content(p).code == BadRequest
    ensures exists n :: 0 <= n <= |p.buf| - p.checked && BrokenHeaders(p.buf[p.checked..][..n])
    decreases |p.buf| - p.checked
  {
    hide RequestLine, ParseLine, CStr, Text, BrokenLine, BrokenHeaders;
    var l := ParseLine(p.buf, p.checked);
    var y := p.buf[p.checked..];
    if l.status == LineBad {
      FoundBrokenLine(p);
      var n :| 0 <= n <= |y| && BrokenLine(y[..n]);
      NoHeadersBroken(y[..n]);
    } else {
      LineSplits(p);
      var o := LineDone(p, l.buf, l.checked);
      var h, y' := p.buf[p.start..l.checked - 2], p.buf[l.checked..];
      assert o.p.buf[o.p.checked..] == y';
      RefusalNeedsBrokenHeaders(o.p);
      var n :| 0 <= n <= |y'| && BrokenHeaders(y'[..n]);
      HeaderBefore(h, y'[..n]);
      assert y[..|h| + 2 + n] == h + CRLF + y'[..n];
    }
  }

  lemma NoHeadersBroken(z: seq<char>)
    requires BrokenLine(z)
    ensures BrokenHeaders(z)
  {
    assert z == Block([]) + z && GoodHeaders([]);
  }

  lemma HeaderBefore(h: seq<char>, y: seq<char>)
    requires Text(h) != [] && Clean(h) && BrokenHeaders(y)
    ensures BrokenHeaders(h + CRLF + y)
  {
    var hs, z :| y == Block(hs) + z && GoodHeaders(hs) && BrokenLine(z);
    var hs' := [h] + hs;
    assert hs'[1..] == hs && GoodHeaders(hs');
    assert h + CRLF + y == Block(hs') + z;
  }

  // ---------- Whole requests ----------

  /** A good request line is read, and the header section is expected. */
  lemma RequestLineRead(p: Parser, line: seq<char>, y: seq<char>)
    requires AtLine(p) && p.state == RequestLineState && p.buf[p.checked..] == line + CRLF + y
    requires Clean(line) && GoodRequestLine(Text(line))
    ensures var o := LineDone(p, ParseLine(p.buf, p.checked).buf, ParseLine(p.buf, p.checked).checked);
            && o.p.state == HeaderState && AtLine(o.p) && o.p.buf[o.p.checked..] == y && Content(p) == Content(o.p)
  {
    hide RequestLine, ParseLine, CStr, Text, StrEnd, IndexOf, GoodRequestLine;
    NextLine(p, line, y);
    LineHandedOver(p, |line|);
    RequestLineLanguage(Text(line));
  }

  /** At a bad byte the parser refuses, and is stuck. */
  lemma BadByteSticks(p: Parser, y: seq<char>, rest: seq<char>)
    requires AtLine(p) && p.state == RequestLineState && p.buf[p.checked..] == y + rest && BadByte(y)
    ensures Content(p).code == BadRequest && Stuck(Content(p).p)
  {
    hide RequestLine, ParseLine, LineDone, Content, Text, Clean, BrokenLine, Block;
    if BrokenLine(y) {
      BrokenLineSticks(p, y, rest);
    } else {
      var line, z :| y == line + CRLF + z && Clean(line) && GoodRequestLine(Text(line)) && BrokenHeaders(z);
      var hs, w :| z == Block(hs) + w && GoodHeaders(hs) && BrokenLine(w);
      assert y + rest == line + CRLF + (Block(hs) + w + rest);
      RequestLineRead(p, line, Block(hs) + w + rest);
      var l := ParseLine(p.buf, p.checked);
      BrokenHeadersStick(LineDone(p, l.buf, l.checked).p, hs, w, rest);
    }
  }

  /** At a bad line the parser refuses, and goes on behind it. */
  lemma BadLinePassed(p: Parser, y: seq<char>, rest: seq<char>)
    requires AtLine(p) && p.state == RequestLineState && p.buf[p.checked..] == y + rest && BadLine(y)
    ensures var o := Content(p);
            && o.code == BadRequest && AtLine(o.p) && o.p.state == RequestLineState && o.p.buf[o.p.checked..] == rest
  {
    hide Content, Text, GoodRequestLine, Clean;
    var line :| y == line + CRLF && Clean(line) && !GoodRequestLine(Text(line));
    BadLineRefused(p, line, rest);
  }

  /** How a refusal comes about. */
  lemma RefusalNeedsLine(p: Parser)
    requires AtLine(p) && p.state == RequestLineState && Content(p).code == BadRequest
    requires ParseLine(p.buf, p.checked).status != LineBad
    ensures ParseLine(p.buf, p.checked).status == LineOk
    ensures var l := ParseLine(p.buf, p.checked);
            var o := LineDone(p, l.buf, l.checked);
            || RequestLine(CStr(l.buf, p.start)).code != NoRequest
            || (RequestLine(CStr(l.buf, p.start)).code == NoRequest && o.p.state == HeaderState
                && Content(o.p).code == BadRequest)
  {
    hide RequestLine, ParseLine, CStr;
  }

  lemma RefusedBehind(line: seq<char>, y: seq<char>, n: nat)
    requires Clean(line) && GoodRequestLine(Text(line)) && n <= |y| && BrokenHeaders(y[..n])
    ensures Refused(line + CRLF + y)
  {
    var x := line + CRLF + y;
    assert x[..|line| + 2 + n] == line + CRLF + y[..n];
    assert RefusedBy(x, |line| + 2 + n);
  }

  lemma RefusedAtEnd(y: seq<char>, n: nat)
    requires n <= |y| && BrokenLine(y[..n])
    ensures Refused(y)
  {
    assert RefusedBy(y, n);
  }

  lemma RefusedAtOnce(line: seq<char>, y: seq<char>)
    requires Clean(line) && !GoodRequestLine(Text(line))
    ensures Refused(line + CRLF + y)
  {
    var x := line + CRLF + y;
    assert x[..|line| + 2] == line + CRLF;
    assert RefusedBy(x, |line| + 2);
  }

  lemma RefusalNeedsRefused(p: Parser)
    requires AtLine(p) && p.state == RequestLineState && Content(p).code == BadRequest
    ensures Refused(p.buf[p.checked..])
  {
    hide RequestLine, ParseLine, LineDone, Content, CStr, Text, StrEnd, GoodRequestLine, BrokenLine, BrokenHeaders;
    hide Refused;
    var l, y := ParseLine(p.buf, p.checked), p.buf[p.checked..];
    if l.status == LineBad {
      FoundBrokenLine(p);
      var n :| 0 <= n <= |y| && BrokenLine(y[..n]);
      RefusedAtEnd(y, n);
    } else {
      RefusalNeedsLine(p);
      LineSplits(p);
      var line, y' := p.buf[p.start..l.checked - 2], p.buf[l.checked..];
      RequestLineLanguage(Text(line));
      if GoodRequestLine(Text(line)) {
        RefusalNeedsBrokenHeaders(LineDone(p, l.buf, l.checked).p);
        var n :| 0 <= n <= |y'| && BrokenHeaders(y'[..n]);
        RefusedBehind(line, y', n);
      } else {
        RefusedAtOnce(line, y');
      }
    }
  }

  /** Wherever a request line is expected, BAD_REQUEST is the verdict exactly on what is refused. */
  lemma VerdictIsRefused(p: Parser)
    requires AtLine(p) && p.state == RequestLineState
    ensures Content(p).code == BadRequest <==> Refused(p.buf[p.checked..])
  {
    hide Content, BadLine, BadByte;
    var y := p.buf[p.checked..];
    if Refused(y) {
      var n: nat :| RefusedBy(y, n);
      assert y == y[..n] + y[n..];
      if BadLine(y[..n]) {
        BadLinePassed(p, y[..n], y[n..]);
      } else {
        BadByteSticks(p, y[..n], y[n..]);
      }
    }
    if Content(p).code == BadRequest {
      RefusalNeedsRefused(p);
    }
  }

  /** Main result: on any input, however it is split into receives, the first verdict is BAD_REQUEST exactly on what
      the grammar refuses. */
  lemma RefusedLanguage(chunks: seq<seq<char>>)
    ensures Feed(INIT, chunks).code == BadRequest <==> Refused(Concat(chunks))
  {
    hide Content, Refused;
    InitIsIdle();
    ChunksDoNotMatter(INIT, chunks);
    StartsAtLine(Concat(chunks));
    VerdictIsRefused(Received(INIT, Concat(chunks)));
  }

  // ---------- When the replies depend on the split ----------

  /** The first `n` bytes are refused, there are more, and the parser goes on to a verdict on them, or stays stuck. */
  ghost predicate RepliedTwice(x: seq<char>, n: nat) {
    n < |x| && (BadByte(x[..n]) || (BadLine(x[..n]) && (Accepted(x[n..]) || Refused(x[n..]))))
  }

  /** What another call of the parser has to say, once the first `n` bytes were refused. */
  lemma SaidAgain(x: seq<char>, n: nat)
    requires RefusedBy(x, n)
    ensures var o := Content(Received(INIT, x));
            && o.code == BadRequest
            && (BadByte(x[..n]) ==> Content(o.p).code == BadRequest)
            && (BadLine(x[..n]) ==> (Content(o.p).code != NoRequest <==> Accepted(x[n..]) || Refused(x[n..])))
  {
    hide Content, BadLine, BadByte, Accepted, Refused;
    var p := Received(INIT, x);
    StartsAtLine(x);
    assert x == x[..n] + x[n..];
    if BadByte(x[..n]) {
      BadByteSticks(p, x[..n], x[n..]);
    }
    if BadLine(x[..n]) {
      BadLinePassed(p, x[..n], x[n..]);
      VerdictIsAccepted(Content(p).p);
      VerdictIsRefused(Content(p).p);
    }
  }

  lemma RefusedLonger(x: seq<char>, m: nat, n: nat)
    requires n <= m <= |x|
    ensures RefusedBy(x[..m], n) <==> RefusedBy(x, n)
  {
    assert x[..m][..n] == x[..n];
  }

  lemma RefusedInTime(x: seq<char>)
    requires x != []
    ensures Content(Received(INIT, x[..|x| - 1])).code == BadRequest <==> exists n: nat :: n < |x| && RefusedBy(x, n)
  {
    hide Content, RefusedBy;
    var a := x[..|x| - 1];
    StartsAtLine(a);
    VerdictIsRefused(Received(INIT, a));
    if n: nat :| RefusedBy(a, n) {
      assert n <= |a| by {
        BoundOf(a, n);
      }
      RefusedLonger(x, |a|, n);
    }
    if n: nat :| n < |x| && RefusedBy(x, n) {
      RefusedLonger(x, |a|, n);
    }
  }

  lemma BoundOf(x: seq<char>, n: nat)
    requires RefusedBy(x, n)
    ensures n <= |x|
  {
  }

  /** Refused before its last byte or not, the input is refused. */
  lemma RefusalStands(x: seq<char>)
    requires x != []
    requires Content(Received(INIT, x)).code == BadRequest && Content(Received(INIT, x[..|x| - 1])).code != NoRequest
    ensures Content(Received(INIT, x[..|x| - 1])).code == BadRequest
  {
    hide Content;
    var a, b := x[..|x| - 1], x[|x| - 1..];
    assert a + b == x;
    ReceivedTwice(INIT, a, b);
    MoreBytes(Received(INIT, a), b);
  }

  /** Main result: the replies depend on how the bytes are split if and only if some of them are refused with more to
      come, and these are behind a bad byte, or are accepted or refused themselves. */
  lemma SplitFreeInBytes(x: seq<char>)
    ensures SplitFree(x) <==> !exists n: nat :: RepliedTwice(x, n)
  {
    hide Content, SplitFree, Accepted, Refused, BadByte, BadLine;
    SplitFreeIff(x);
    if MoreToSay(x) {
      RefusalStands(x);
      RefusedInTime(x);
      var n: nat :| n < |x| && RefusedBy(x, n);
      SaidAgain(x, n);
      assert RepliedTwice(x, n);
    }
    if n: nat :| RepliedTwice(x, n) {
      assert RefusedBy(x, n);
      SaidAgain(x, n);
      RefusedInTime(x);
    }
  }
}
