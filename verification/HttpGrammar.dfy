/** The language parse_http.cpp accepts, stated by a grammar that does not mention the parser (compare sections
    2.1, 2.2, 3, 3.2.1 and 3.2.2 of RFC 9112), and the round trip from a printed request back to its path. */
module HttpGrammar {
  import opened Common
  import opened HttpModel
  import opened HttpChunks
  import opened HttpReplies

  const CRLF := "\r\n"

  /** Free of line ends: the bytes a line may hold. */
  predicate Clean(s: seq<char>) {
    forall k :: 0 <= k < |s| ==> s[k] != '\r' && s[k] != '\n'
  }

  predicate NulFree(s: seq<char>) {
    forall k :: 0 <= k < |s| ==> s[k] != '\0'
  }

  predicate Blanks(s: seq<char>) {
    s != [] && forall k :: 0 <= k < |s| ==> s[k] == ' ' || s[k] == '\t'
  }

  predicate NoBlank(s: seq<char>) {
    forall k :: 0 <= k < |s| ==> s[k] != ' ' && s[k] != '\t'
  }

  /** `GET` in any case. */
  predicate GetWord(s: seq<char>) {
    |s| == 3 && (s[0] == 'G' || s[0] == 'g') && (s[1] == 'E' || s[1] == 'e') && (s[2] == 'T' || s[2] == 't')
  }

  /** `HTTP/1.1` in any case. */
  predicate VersionWord(s: seq<char>) {
    && |s| == 8 && (s[0] == 'H' || s[0] == 'h') && (s[1] == 'T' || s[1] == 't') && (s[2] == 'T' || s[2] == 't')
    && (s[3] == 'P' || s[3] == 'p') && s[4] == '/' && s[5] == '1' && s[6] == '.' && s[7] == '1'
  }

  /** Begins with `http://` in any case. */
  predicate HasScheme(s: seq<char>) {
    && 7 <= |s| && (s[0] == 'H' || s[0] == 'h') && (s[1] == 'T' || s[1] == 't') && (s[2] == 'T' || s[2] == 't')
    && (s[3] == 'P' || s[3] == 'p') && s[4] == ':' && s[5] == '/' && s[6] == '/'
  }

  /** An origin-form target, or a scheme followed, not necessarily at once, by a `/`. */
  predicate GoodTarget(t: seq<char>) {
    (t != [] && t[0] == '/') || (HasScheme(t) && '/' in t[7..])
  }

  /** The five parts of a request line. */
  ghost predicate Parts(line: seq<char>, m: seq<char>, s1: seq<char>, t: seq<char>, s2: seq<char>, v: seq<char>) {
    && line == m + s1 + t + s2 + v
    && GetWord(m) && Blanks(s1) && NoBlank(t) && t != [] && Blanks(s2) && VersionWord(v)
  }

  ghost predicate GoodRequestLine(line: seq<char>) {
    exists m, s1, t, s2, v :: Parts(line, m, s1, t, s2, v) && GoodTarget(t)
  }

  ghost predicate GoodHeaders(hs: seq<seq<char>>) {
    forall k :: 0 <= k < |hs| ==> Text(hs[k]) != [] && Clean(hs[k])
  }

  function Block(hs: seq<seq<char>>): seq<char> {
    if hs == [] then [] else hs[0] + CRLF + Block(hs[1..])
  }

  /** A request line, any number of header lines, a line without text, and whatever follows. */
  ghost predicate Accepted(x: seq<char>) {
    exists line, y :: x == line + CRLF + y && Clean(line) && GoodRequestLine(Text(line)) && AcceptedHeaders(y)
  }

  ghost predicate AcceptedHeaders(y: seq<char>) {
    exists hs, last, rest :: HeadersSplit(y, hs, last, rest)
  }

  ghost predicate HeadersSplit(y: seq<char>, hs: seq<seq<char>>, last: seq<char>, rest: seq<char>) {
    GoodHeaders(hs) && LastLine(last) && y == Block(hs) + last + CRLF + rest
  }

  ghost predicate LastLine(last: seq<char>) {
    Clean(last) && Text(last) == []
  }

  // ---------- The parser's words, in letters ----------

  lemma LowerIs(c: char, lower: char, upper: char)
    requires 'a' <= lower <= 'z' && upper == lower - 'a' + 'A'
    ensures Lower(c) == lower <==> c == lower || c == upper
  {
  }

  lemma LowerOfOther(c: char, d: char)
    requires !('a' <= d <= 'z') && !('A' <= d <= 'Z')
    ensures Lower(c) == Lower(d) <==> c == d
  {
  }

  lemma GetInLetters(s: seq<char>)
    ensures EqNoCase(s, GET) <==> GetWord(s)
  {
    if |s| == 3 {
      LowerIs(s[0], 'g', 'G');
      LowerIs(s[1], 'e', 'E');
      LowerIs(s[2], 't', 'T');
      assert Lower(GET[0]) == 'g' && Lower(GET[1]) == 'e' && Lower(GET[2]) == 't';
    }
  }

  lemma HttpInLetters(s: seq<char>, t: seq<char>)
    requires |s| == |t| >= 4 && (t[..4] == "HTTP" || t[..4] == "http")
    ensures (forall k :: 0 <= k < 4 ==> Lower(s[k]) == Lower(t[k])) <==>
              && (s[0] == 'H' || s[0] == 'h') && (s[1] == 'T' || s[1] == 't') && (s[2] == 'T' || s[2] == 't')
              && (s[3] == 'P' || s[3] == 'p')
  {
    LowerIs(s[0], 'h', 'H');
    LowerIs(s[1], 't', 'T');
    LowerIs(s[2], 't', 'T');
    LowerIs(s[3], 'p', 'P');
    assert t[..4][0] == t[0] && t[..4][1] == t[1] && t[..4][2] == t[2] && t[..4][3] == t[3];
    assert Lower(t[0]) == 'h' && Lower(t[1]) == 't' && Lower(t[2]) == 't' && Lower(t[3]) == 'p';
  }

  lemma VersionInLetters(s: seq<char>)
    ensures EqNoCase(s, VERSION) <==> VersionWord(s)
  {
    if |s| == 8 {
      HttpInLetters(s, VERSION);
      LowerOfOther(s[4], '/');
      LowerOfOther(s[5], '1');
      LowerOfOther(s[6], '.');
      LowerOfOther(s[7], '1');
    }
  }

  lemma SchemeInLetters(s: seq<char>)
    ensures PrefixNoCase(s, SCHEME) <==> HasScheme(s)
  {
    if |s| >= 7 {
      var p := s[..7];
      HttpInLetters(p, SCHEME);
      LowerOfOther(p[4], ':');
      LowerOfOther(p[5], '/');
      LowerOfOther(p[6], '/');
    }
  }

  // ---------- One request line ----------

  lemma {:induction false} WordEnds(word: seq<char>, rest: seq<char>)
    requires NoBlank(word) && (rest != [] ==> Blank(rest[0]))
    ensures FindBlank(word + rest) == |word|
  {
    if word == [] {
      assert word + rest == rest;
    } else {
      assert (word + rest)[1..] == word[1..] + rest;
      WordEnds(word[1..], rest);
    }
  }

  lemma {:induction false} BlanksSkipped(blanks: seq<char>, rest: seq<char>)
    requires (blanks != [] ==> Blanks(blanks)) && (rest != [] ==> !Blank(rest[0]))
    ensures SkipBlanks(blanks + rest) == rest
  {
    if blanks == [] {
      assert blanks + rest == rest;
    } else {
      assert (blanks + rest)[1..] == blanks[1..] + rest;
      BlanksSkipped(blanks[1..], rest);
    }
  }

  lemma CutAfter<T>(a: seq<T>, b: seq<T>, c: seq<T>)
    requires b != []
    ensures (a + (b + c))[..|a|] == a && (a + (b + c))[|a| + 1..] == b[1..] + c
  {
  }

  lemma PathExists(t: seq<char>)
    ensures GoodTarget(t) <==> PathOf(t).Some?
  {
    SchemeInLetters(t);
    hide PrefixNoCase;
  }

  /** The URL reported is what begins at the target's first `/`, that of the scheme aside. */
  lemma UrlInLetters(t: seq<char>)
    ensures t != [] && t[0] == '/' ==> PathOf(t) == Some(t)
    ensures forall host, path ::
              HasScheme(t) && t[7..] == host + path && '/' !in host && path != [] && path[0] == '/' ==>
                PathOf(t) == Some(path)
  {
    hide PrefixNoCase, IndexOf;
    SchemeInLetters(t);
    forall host, path | HasScheme(t) && t[7..] == host + path && '/' !in host && path != [] && path[0] == '/'
      ensures PathOf(t) == Some(path)
    {
      assert host + path == host + ['/'] + path[1..];
      IndexOfFirst(host, '/', path[1..]);
      assert (host + path)[|host|..] == path;
    }
  }

  /** One scan: a word up to the blanks behind it, then those blanks up to the next word. */
  lemma OneScan(word: seq<char>, blanks: seq<char>, rest: seq<char>)
    requires NoBlank(word) && Blanks(blanks) && (rest != [] ==> !Blank(rest[0]))
    ensures var s := word + (blanks + rest);
            FindBlank(s) == |word| < |s| && s[..|word|] == word && SkipBlanks(s[|word| + 1..]) == rest
  {
    hide FindBlank, SpanBlanks;
    WordEnds(word, blanks + rest);
    CutAfter(word, blanks, rest);
    BlanksSkipped(blanks[1..], rest);
  }

  lemma ScannedLineParses(s: seq<char>, m: nat, r: seq<char>, k: nat)
    requires FindBlank(s) == m < |s| && EqNoCase(s[..m], GET) && SkipBlanks(s[m + 1..]) == r
    requires FindBlank(r) == k < |r| && EqNoCase(SkipBlanks(r[k + 1..]), VERSION)
    ensures RequestLine(s).url == PathOf(r[..k])
    ensures RequestLine(s).code == if PathOf(r[..k]).Some? then NoRequest else BadRequest
  {
    hide PathOf, FindBlank, SpanBlanks, SkipBlanks, IndexOf, StrEnd;
  }

  /** The parser's scans stop where the parts of the line meet. */
  lemma GoodLineParses(line: seq<char>, m: seq<char>, s1: seq<char>, t: seq<char>, s2: seq<char>, v: seq<char>)
    requires Parts(line, m, s1, t, s2, v)
    ensures RequestLine(line).code == if GoodTarget(t) then NoRequest else BadRequest
    ensures RequestLine(line).url == PathOf(t)
  {
    hide RequestLine, PathOf, GoodTarget, FindBlank, SpanBlanks, SkipBlanks, IndexOf, StrEnd, EqNoCase;
    var r := t + (s2 + v);
    assert line == m + (s1 + r);
    GetInLetters(m);
    VersionInLetters(v);
    assert NoBlank(m) && NoBlank(v);
    OneScan(m, s1, r);
    OneScan(t, s2, v);
    ScannedLineParses(line, |m|, r, |t|);
    PathExists(t);
  }

  /** Whatever a scan skips is a word and then blanks. */
  lemma ScanSplits(s: seq<char>)
    requires FindBlank(s) < |s|
    ensures var m, rest := FindBlank(s), SkipBlanks(s[FindBlank(s) + 1..]);
            && |rest| < |s| - m && NoBlank(s[..m]) && Blanks(s[m..|s| - |rest|])
            && s == s[..m] + s[m..|s| - |rest|] + rest && (rest != [] ==> !Blank(rest[0]))
  {
    hide FindBlank, SpanBlanks;
    var m := FindBlank(s);
    var tail, rest := s[m + 1..], SkipBlanks(s[m + 1..]);
    forall j | m < j < |s| - |rest|
      ensures Blank(s[j])
    {
      assert s[j] == tail[j - m - 1];
    }
    assert s[|s| - |rest|..] == rest;
  }

  lemma ParsedLineScans(s: seq<char>)
    requires RequestLine(s).code == NoRequest
    ensures FindBlank(s) < |s|
    ensures var m, r := FindBlank(s), SkipBlanks(s[FindBlank(s) + 1..]);
            && EqNoCase(s[..m], GET) && FindBlank(r) < |r|
            && EqNoCase(SkipBlanks(r[FindBlank(r) + 1..]), VERSION) && PathOf(r[..FindBlank(r)]).Some?
  {
    hide PathOf, FindBlank, SpanBlanks, SkipBlanks, IndexOf, EqNoCase;
  }

  lemma ParsedLineIsGood(line: seq<char>)
    requires RequestLine(line).code == NoRequest
    ensures GoodRequestLine(line)
  {
    hide EqNoCase, GetWord, VersionWord;
    hide RequestLine, PathOf, GoodTarget, GoodRequestLine, FindBlank, SpanBlanks, SkipBlanks, IndexOf, StrEnd;
    ParsedLineScans(line);
    ScanSplits(line);
    var m := FindBlank(line);
    var r := SkipBlanks(line[m + 1..]);
    ScanSplits(r);
    var k := FindBlank(r);
    var v := SkipBlanks(r[k + 1..]);
    PathExists(r[..k]);
    GetInLetters(line[..m]);
    VersionInLetters(v);
    Assembled(line, line[..m], line[m..|line| - |r|], r, r[..k], r[k..|r| - |v|], v);
  }

  lemma Assembled(line: seq<char>, m: seq<char>, s1: seq<char>, r: seq<char>, t: seq<char>, s2: seq<char>, v: seq<char>)
    requires line == m + s1 + r && r == t + s2 + v && r != [] && !Blank(r[0])
    requires GetWord(m) && Blanks(s1) && NoBlank(t) && Blanks(s2) && VersionWord(v) && GoodTarget(t)
    ensures GoodRequestLine(line)
  {
    assert r[|t|] == s2[0];
    assert Parts(line, m, s1, t, s2, v);
  }

  /** The parser takes a request line for good exactly when the grammar does. */
  lemma RequestLineLanguage(line: seq<char>)
    ensures RequestLine(line).code == NoRequest <==> GoodRequestLine(line)
  {
    if RequestLine(line).code == NoRequest {
      ParsedLineIsGood(line);
    }
    if GoodRequestLine(line) {
      var m, s1, t, s2, v :| Parts(line, m, s1, t, s2, v) && GoodTarget(t);
      GoodLineParses(line, m, s1, t, s2, v);
    }
  }

  /** The same letter by letter: what passes is `GET` in any case, spaces or tabs, a word that begins with `/`, or
      with `http://` in any case and has a `/` behind that, spaces or tabs, and `HTTP/1.1` in any case. */
  lemma RequestLineInLetters(line: seq<char>)
    ensures RequestLine(line).code == NoRequest <==>
            exists m, s1, t, s2, v :: line == m + s1 + t + s2 + v
              && |m| == 3 && m[0] in "Gg" && m[1] in "Ee" && m[2] in "Tt"
              && s1 != [] && (forall c :: c in s1 ==> c in " \t")
              && t != [] && ' ' !in t && '\t' !in t
              && (t[0] == '/'
                  || (|t| > 7 && t[0] in "Hh" && t[1] in "Tt" && t[2] in "Tt" && t[3] in "Pp" && t[4..7] == "://"
                      && '/' in t[7..]))
              && s2 != [] && (forall c :: c in s2 ==> c in " \t")
              && |v| == 8 && v[0] in "Hh" && v[1] in "Tt" && v[2] in "Tt" && v[3] in "Pp" && v[4..] == "/1.1"
  {
    hide RequestLine, Blanks, NoBlank, GetWord, VersionWord, GoodTarget;
    RequestLineLanguage(line);
    if GoodRequestLine(line) {
      var m, s1, t, s2, v :| Parts(line, m, s1, t, s2, v) && GoodTarget(t);
      PartsLetters(m, s1, t, s2, v);
      assert line == m + s1 + t + s2 + v;
    }
    forall m, s1, t, s2, v | line == m + s1 + t + s2 + v
        && |m| == 3 && m[0] in "Gg" && m[1] in "Ee" && m[2] in "Tt"
        && s1 != [] && (forall c :: c in s1 ==> c in " \t")
        && t != [] && ' ' !in t && '\t' !in t
        && (t[0] == '/'
            || (|t| > 7 && t[0] in "Hh" && t[1] in "Tt" && t[2] in "Tt" && t[3] in "Pp" && t[4..7] == "://"
                && '/' in t[7..]))
        && s2 != [] && (forall c :: c in s2 ==> c in " \t")
        && |v| == 8 && v[0] in "Hh" && v[1] in "Tt" && v[2] in "Tt" && v[3] in "Pp" && v[4..] == "/1.1"
      ensures GoodRequestLine(line)
    {
      PartsLetters(m, s1, t, s2, v);
      assert Parts(line, m, s1, t, s2, v);
    }
  }

  lemma PartsLetters(m: seq<char>, s1: seq<char>, t: seq<char>, s2: seq<char>, v: seq<char>)
    ensures GetWord(m) <==> |m| == 3 && m[0] in "Gg" && m[1] in "Ee" && m[2] in "Tt"
    ensures Blanks(s1) <==> s1 != [] && forall c :: c in s1 ==> c in " \t"
    ensures NoBlank(t) <==> ' ' !in t && '\t' !in t
    ensures t != [] ==>
              (GoodTarget(t) <==>
                 || t[0] == '/'
                 || (|t| > 7 && t[0] in "Hh" && t[1] in "Tt" && t[2] in "Tt" && t[3] in "Pp" && t[4..7] == "://"
                     && '/' in t[7..]))
    ensures Blanks(s2) <==> s2 != [] && forall c :: c in s2 ==> c in " \t"
    ensures VersionWord(v) <==>
              |v| == 8 && v[0] in "Hh" && v[1] in "Tt" && v[2] in "Tt" && v[3] in "Pp" && v[4..] == "/1.1"
  {
    hide Blanks, NoBlank, GetWord, VersionWord, GoodTarget;
    GetLetters(m);
    BlankLetters(s1);
    BlankLetters(t);
    BlankLetters(s2);
    VersionLetters(v);
    TargetLetters(t);
  }

  lemma TargetLetters(t: seq<char>)
    ensures t != [] ==>
              (GoodTarget(t) <==>
                 || t[0] == '/'
                 || (|t| > 7 && t[0] in "Hh" && t[1] in "Tt" && t[2] in "Tt" && t[3] in "Pp" && t[4..7] == "://"
                     && '/' in t[7..]))
  {
    assert |t| >= 7 ==> (t[4..7] == "://" <==> t[4] == ':' && t[5] == '/' && t[6] == '/');
  }

  lemma GetLetters(m: seq<char>)
    ensures GetWord(m) <==> |m| == 3 && m[0] in "Gg" && m[1] in "Ee" && m[2] in "Tt"
  {
  }

  lemma BlankLetters(s: seq<char>)
    ensures Blanks(s) <==> s != [] && forall c :: c in s ==> c in " \t"
    ensures NoBlank(s) <==> ' ' !in s && '\t' !in s
  {
    assert forall k :: 0 <= k < |s| ==> s[k] in s;
    assert forall c :: c in " \t" <==> c == ' ' || c == '\t';
  }

  lemma VersionLetters(v: seq<char>)
    ensures VersionWord(v) <==>
            |v| == 8 && v[0] in "Hh" && v[1] in "Tt" && v[2] in "Tt" && v[3] in "Pp" && v[4..] == "/1.1"
  {
    assert |v| == 8 ==> (v[4..] == "/1.1" <==> v[4] == '/' && v[5] == '1' && v[6] == '.' && v[7] == '1');
  }

  // ---------- Lines in the buffer ----------

  /** A clean line and its CR LF at `i` are found, and only the CR LF is overwritten. */
  lemma {:induction false} CleanLineFound(buf: seq<char>, i: nat, n: nat)
    requires i + n + 1 < |buf| && Clean(buf[i..i + n]) && buf[i + n] == CR && buf[i + n + 1] == LF
    ensures ParseLine(buf, i) == Line(LineOk, buf[i + n := NUL][i + n + 1 := NUL], i + n + 2)
    decreases n
  {
    if n > 0 {
      assert buf[i] == buf[i..i + n][0];
      assert forall k :: i < k < i + n ==> buf[k] == buf[i..i + n][k - i];
      CleanLineFound(buf, i + 1, n - 1);
    }
  }

  /** Conversely, a line that is found is clean and ended by CR LF. */
  lemma {:induction false} FoundLineIsClean(buf: seq<char>, i: nat)
    requires i <= |buf| && (i > 0 ==> buf[i - 1] != CR)
    requires ParseLine(buf, i).status == LineOk
    ensures var n := ParseLine(buf, i).checked - i - 2;
            0 <= n && Clean(buf[i..i + n]) && buf[i + n] == CR && buf[i + n + 1] == LF
    decreases |buf| - i
  {
    if buf[i] != CR && buf[i] != LF {
      FoundLineIsClean(buf, i + 1);
      var n := ParseLine(buf, i).checked - i - 2;
      assert buf[i..i + n] == [buf[i]] + buf[i + 1..i + n];
    }
  }

  lemma {:induction false} StringIsText(buf: seq<char>, p: nat, n: nat)
    requires p + n < |buf| && buf[p + n] == NUL
    ensures CStr(buf, p) == Text(buf[p..p + n])
    decreases n
  {
    var s := buf[p..p + n];
    if n == 0 {
      assert s == [] && StrEnd(buf, p) == p;
    } else if buf[p] == NUL {
      assert s[0] == NUL && StrEnd(buf, p) == p;
    } else {
      var s' := buf[p + 1..p + 1 + (n - 1)];
      assert s == [buf[p]] + s' && s[1..] == s';
      StringIsText(buf, p + 1, n - 1);
      var e := StrEnd(buf, p + 1);
      assert StrEnd(buf, p) == e && buf[p..e] == [buf[p]] + buf[p + 1..e];
      assert IndexOf(s, NUL) == 1 + IndexOf(s', NUL);
      assert Text(s) == [buf[p]] + Text(s');
    }
  }

  /** The parser at the start of a line, nothing of it checked yet. */
  predicate AtLine(p: Parser) {
    Indexed(p) && p.start == p.checked && NoDanglingCR(p)
  }

  /** What happens at a line of `n` clean bytes: its text is handed over, and the next line starts. */
  lemma LineHandedOver(p: Parser, n: nat)
    requires AtLine(p)
    requires p.start + n + 1 < |p.buf| && Clean(p.buf[p.start..p.start + n])
    requires p.buf[p.start + n] == CR && p.buf[p.start + n + 1] == LF
    ensures var l := ParseLine(p.buf, p.checked);
            var o := LineDone(p, l.buf, l.checked);
            && l.status == LineOk && l.checked == p.start + n + 2
            && CStr(l.buf, p.start) == Text(p.buf[p.start..p.start + n])
            && o.p.buf[l.checked..] == p.buf[l.checked..]
            && AtLine(o.p)
  {
    hide RequestLine, CStr, Text, StrEnd, IndexOf;
    CleanLineFound(p.buf, p.checked, n);
    var l := ParseLine(p.buf, p.checked);
    assert l.buf[p.start..p.start + n] == p.buf[p.start..p.start + n];
    StringIsText(l.buf, p.start, n);
    var o := LineDone(p, l.buf, l.checked);
    assert l.buf[l.checked - 1] == NUL;
    DoneWrites(p, l.buf, l.checked);
    assert o.p.buf[l.checked..] == l.buf[l.checked..] == p.buf[l.checked..];
  }

  // ---------- The header section ----------

  /** What a line of the header section comes to: the verdict if it has no text, otherwise the next line. */
  lemma HeaderLineRead(p: Parser, h: seq<char>, y: seq<char>)
    requires AtLine(p) && p.state == HeaderState && Clean(h) && p.buf[p.checked..] == h + CRLF + y
    ensures var o := LineDone(p, ParseLine(p.buf, p.checked).buf, ParseLine(p.buf, p.checked).checked);
            && o.p.url == p.url && o.p.state == HeaderState && AtLine(o.p) && o.p.buf[o.p.checked..] == y
            && (Text(h) == [] ==> Content(p) == Outcome(GetRequest, o.p))
            && (Text(h) != [] ==> Content(p) == Content(o.p))
  {
    hide RequestLine, ParseLine, CStr, Text, StrEnd, IndexOf;
    NextLine(p, h, y);
    LineHandedOver(p, |h|);
  }

  /** With the header section still to come, GET_REQUEST is the verdict exactly when it is well formed. */
  lemma {:induction false} HeadersGiveVerdict(p: Parser, hs: seq<seq<char>>, last: seq<char>, rest: seq<char>)
    requires AtLine(p) && p.state == HeaderState && GoodHeaders(hs) && LastLine(last)
    requires p.buf[p.checked..] == Block(hs) + last + CRLF + rest
    ensures Content(p).code == GetRequest && Content(p).p.url == p.url
    decreases |hs|
  {
    hide RequestLine, ParseLine, LineDone, Content, CStr, Text, StrEnd, IndexOf, Clean;
    if hs == [] {
      assert Block(hs) + last + CRLF + rest == last + CRLF + rest;
      HeaderLineRead(p, last, rest);
    } else {
      var y := Block(hs[1..]) + last + CRLF + rest;
      assert Block(hs) + last + CRLF + rest == hs[0] + CRLF + y;
      HeaderLineRead(p, hs[0], y);
      var l := ParseLine(p.buf, p.checked);
      HeadersGiveVerdict(LineDone(p, l.buf, l.checked).p, hs[1..], last, rest);
    }
  }

  /** Reading the next line off the bytes to come. */
  lemma NextLine(p: Parser, h: seq<char>, y: seq<char>)
    requires Indexed(p) && p.start == p.checked && p.buf[p.checked..] == h + CRLF + y
    ensures var n := |h|;
            && p.start + n + 1 < |p.buf| && p.buf[p.start..p.start + n] == h
            && p.buf[p.start + n] == CR && p.buf[p.start + n + 1] == LF && p.buf[p.start + n + 2..] == y
  {
    var t, n := p.buf[p.checked..], |h|;
    assert |CRLF| == 2 && CRLF[0] == CR && CRLF[1] == LF;
    assert t[..n] == h && t[n] == CR && t[n + 1] == LF && t[n + 2..] == y;
    assert p.buf[p.start..p.start + n] == t[..n];
    assert p.buf[p.start + n] == t[n] && p.buf[p.start + n + 1] == t[n + 1];
    assert p.buf[p.start + n + 2..] == t[n + 2..];
  }

  /** A line that is found splits the bytes to come. */
  lemma LineSplits(p: Parser)
    requires AtLine(p) && ParseLine(p.buf, p.checked).status == LineOk
    ensures var l := ParseLine(p.buf, p.checked);
            var o := LineDone(p, l.buf, l.checked);
            var n := l.checked - p.checked - 2;
            && 0 <= n && Clean(p.buf[p.start..p.start + n])
            && p.buf[p.checked..] == p.buf[p.start..p.start + n] + CRLF + p.buf[l.checked..]
            && CStr(l.buf, p.start) == Text(p.buf[p.start..p.start + n])
            && o.p.buf[l.checked..] == p.buf[l.checked..]
            && AtLine(o.p)
  {
    hide RequestLine, CStr, Text, StrEnd, IndexOf, LineDone;
    FoundLineIsClean(p.buf, p.checked);
    var n := ParseLine(p.buf, p.checked).checked - p.checked - 2;
    LineHandedOver(p, n);
    SplitLine(p, n);
  }

  lemma {:induction false} VerdictNeedsHeaders(p: Parser)
    requires AtLine(p) && p.state == HeaderState && Content(p).code == GetRequest
    ensures AcceptedHeaders(p.buf[p.checked..])
    decreases |p.buf| - p.checked
  {
    hide RequestLine, ParseLine, CStr, Text, StrEnd, IndexOf, AcceptedHeaders;
    LineSplits(p);
    var l := ParseLine(p.buf, p.checked);
    var h, y := p.buf[p.start..l.checked - 2], p.buf[l.checked..];
    if Text(h) == [] {
      LastLineAccepted(p.buf[p.checked..], h, y);
    } else {
      VerdictNeedsHeaders(LineDone(p, l.buf, l.checked).p);
      HeaderPrepended(p.buf[p.checked..], h, y);
    }
  }

  lemma SplitLine(p: Parser, n: nat)
    requires Indexed(p) && p.start == p.checked && p.start + n + 1 < |p.buf|
    requires p.buf[p.start + n] == CR && p.buf[p.start + n + 1] == LF
    ensures p.buf[p.checked..] == p.buf[p.start..p.start + n] + CRLF + p.buf[p.start + n + 2..]
  {
    assert CRLF == [CR, LF];
  }

  lemma LastLineAccepted(x: seq<char>, last: seq<char>, y: seq<char>)
    requires x == last + CRLF + y && LastLine(last)
    ensures AcceptedHeaders(x)
  {
    assert HeadersSplit(x, [], last, y);
  }

  lemma HeaderPrepended(x: seq<char>, h: seq<char>, y: seq<char>)
    requires x == h + CRLF + y && Text(h) != [] && Clean(h) && AcceptedHeaders(y)
    ensures AcceptedHeaders(x)
  {
    var hs, last, rest :| HeadersSplit(y, hs, last, rest);
    var hs' := [h] + hs;
    assert hs'[1..] == hs;
    assert x == Block(hs') + last + CRLF + rest;
    assert GoodHeaders(hs') && HeadersSplit(x, hs', last, rest);
  }

  // ---------- Whole requests ----------

  lemma StartsAtLine(x: seq<char>)
    ensures AtLine(Received(INIT, x)) && Received(INIT, x).buf == x && x[0..] == x
  {
    assert [] + x == x;
  }

  /** Wherever a request line is expected, a request of the grammar gives the verdict GET_REQUEST. */
  lemma RequestGivesVerdict(p: Parser, line: seq<char>, hs: seq<seq<char>>, last: seq<char>, rest: seq<char>)
    requires AtLine(p) && p.state == RequestLineState
    requires p.buf[p.checked..] == line + CRLF + (Block(hs) + last + CRLF + rest)
    requires Clean(line) && GoodRequestLine(Text(line)) && GoodHeaders(hs) && LastLine(last)
    ensures Content(p).code == GetRequest && Content(p).p.url == RequestLine(Text(line)).url
  {
    hide RequestLine, ParseLine, CStr, Text, StrEnd, IndexOf, GoodRequestLine;
    NextLine(p, line, Block(hs) + last + CRLF + rest);
    LineHandedOver(p, |line|);
    RequestLineLanguage(Text(line));
    var l := ParseLine(p.buf, p.checked);
    HeadersGiveVerdict(LineDone(p, l.buf, l.checked).p, hs, last, rest);
  }

  lemma AcceptedGivesVerdict(x: seq<char>, line: seq<char>, hs: seq<seq<char>>, last: seq<char>, rest: seq<char>)
    requires x == line + CRLF + (Block(hs) + last + CRLF + rest)
    requires Clean(line) && GoodRequestLine(Text(line)) && GoodHeaders(hs) && LastLine(last)
    ensures Content(Received(INIT, x)).code == GetRequest
    ensures Content(Received(INIT, x)).p.url == RequestLine(Text(line)).url
  {
    hide Content, RequestLine, Text, GoodRequestLine, GoodHeaders, LastLine;
    StartsAtLine(x);
    RequestGivesVerdict(Received(INIT, x), line, hs, last, rest);
  }

  lemma VerdictNeedsRequestLine(p: Parser)
    requires AtLine(p) && p.state == RequestLineState && Content(p).code == GetRequest
    ensures ParseLine(p.buf, p.checked).status == LineOk
    ensures var l := ParseLine(p.buf, p.checked);
            var o := LineDone(p, l.buf, l.checked);
            && RequestLine(CStr(l.buf, p.start)).code == NoRequest && o.code == NoRequest
            && o.p.state == HeaderState && Content(o.p).code == GetRequest
  {
    hide RequestLine, ParseLine, CStr;
  }

  lemma VerdictNeedsAccepted(p: Parser)
    requires AtLine(p) && p.state == RequestLineState && Content(p).code == GetRequest
    ensures Accepted(p.buf[p.checked..])
  {
    hide RequestLine, ParseLine, LineDone, Content, CStr, Text, StrEnd, IndexOf;
    hide GoodRequestLine, AcceptedHeaders, Accepted;
    VerdictNeedsRequestLine(p);
    LineSplits(p);
    var l := ParseLine(p.buf, p.checked);
    RequestLineLanguage(Text(p.buf[p.start..l.checked - 2]));
    VerdictNeedsHeaders(LineDone(p, l.buf, l.checked).p);
    RequestAccepted(p.buf[p.checked..], p.buf[p.start..l.checked - 2], p.buf[l.checked..]);
  }

  lemma RequestAccepted(x: seq<char>, line: seq<char>, y: seq<char>)
    requires x == line + CRLF + y && Clean(line) && GoodRequestLine(Text(line)) && AcceptedHeaders(y)
    ensures Accepted(x)
  {
  }

  /** Wherever a request line is expected, GET_REQUEST is the verdict exactly on a request of the grammar. */
  lemma VerdictIsAccepted(p: Parser)
    requires AtLine(p) && p.state == RequestLineState
    ensures Content(p).code == GetRequest <==> Accepted(p.buf[p.checked..])
  {
    hide RequestLine, Content, Text, GoodRequestLine;
    var x := p.buf[p.checked..];
    if Accepted(x) {
      var line, y :| x == line + CRLF + y && Clean(line) && GoodRequestLine(Text(line)) && AcceptedHeaders(y);
      var hs, last, rest :| HeadersSplit(y, hs, last, rest);
      RequestGivesVerdict(p, line, hs, last, rest);
    }
    if Content(p).code == GetRequest {
      VerdictNeedsAccepted(p);
    }
  }

  /** Main result: on any input, however it is split into receives, the first verdict is GET_REQUEST exactly for
      the requests of the grammar. */
  lemma AcceptedLanguage(chunks: seq<seq<char>>)
    ensures Feed(INIT, chunks).code == GetRequest <==> Accepted(Concat(chunks))
  {
    hide Content, Accepted;
    InitIsIdle();
    ChunksDoNotMatter(INIT, chunks);
    StartsAtLine(Concat(chunks));
    VerdictIsAccepted(Received(INIT, Concat(chunks)));
  }

  // ---------- After a bad request line ----------

  /** A line that is no request line is refused, and the next line is again taken for a request line. */
  lemma BadLineRefused(p: Parser, line: seq<char>, y: seq<char>)
    requires AtLine(p) && p.state == RequestLineState && p.buf[p.checked..] == line + CRLF + y
    requires Clean(line) && !GoodRequestLine(Text(line))
    ensures var o := Content(p);
            o.code == BadRequest && AtLine(o.p) && o.p.state == RequestLineState && o.p.buf[o.p.checked..] == y
  {
    hide RequestLine, ParseLine, CStr, Text, StrEnd, IndexOf, GoodRequestLine;
    NextLine(p, line, y);
    LineHandedOver(p, |line|);
    RequestLineLanguage(Text(line));
  }

  /** BAD_REQUEST leaves the parser stuck at a bad byte, or at the next line, expecting a request line. */
  lemma {:induction false} AfterBadRequest(p: Parser)
    requires Indexed(p) && NoDanglingCR(p) && Content(p).code == BadRequest
    ensures var q := Content(p).p; Stuck(q) || (AtLine(q) && q.state == RequestLineState)
    decreases |p.buf| - p.checked
  {
    var l := ParseLine(p.buf, p.checked);
    if l.status == LineBad {
      BadStaysBad(p.buf, p.checked);
    } else {
      hide RequestLine, ParseLine;
      LineFrame(p);
      var o := LineDone(p, l.buf, l.checked);
      if o.code == NoRequest {
        AfterBadRequest(o.p);
      }
    }
  }

  lemma {:induction false} BadStaysBad(buf: seq<char>, i: nat)
    requires i <= |buf| && ParseLine(buf, i).status == LineBad
    ensures ParseLine(buf, ParseLine(buf, i).checked) == ParseLine(buf, i)
    decreases |buf| - i
  {
    if buf[i] != CR && buf[i] != LF {
      BadStaysBad(buf, i + 1);
    }
  }

  /** What is sent after the first reply does depend on how the bytes are split: behind a bad request line, a good
      request is accepted if it arrives by itself, and never looked at if it arrives together with that line. */
  lemma SplitShowsAfterBad(bad: seq<char>, x: seq<char>)
    requires Clean(bad) && !GoodRequestLine(Text(bad)) && Accepted(x)
    ensures Replies(INIT, [bad + CRLF, x]).replies == [BadRequest, GetRequest]
    ensures Replies(INIT, [bad + CRLF + x]).replies == [BadRequest]
  {
    var line, y :| x == line + CRLF + y && Clean(line) && GoodRequestLine(Text(line)) && AcceptedHeaders(y);
    var hs, last, rest :| HeadersSplit(y, hs, last, rest);
    hide Content, Text, GoodRequestLine, GoodHeaders, LastLine, Block;
    var b := bad + CRLF;
    assert b == bad + CRLF + [];
    StartsAtLine(b);
    BadLineRefused(Received(INIT, b), bad, []);
    var p := Content(Received(INIT, b)).p;
    MoreAtLine(p, x);
    RequestGivesVerdict(Received(p, x), line, hs, last, rest);
    TwoReplies(b, x);
    StartsAtLine(b + x);
    BadLineRefused(Received(INIT, b + x), bad, x);
    OneReply(b + x);
  }

  lemma TwoReplies(b: seq<char>, x: seq<char>)
    requires Content(Received(INIT, b)).code == BadRequest
    requires Content(Received(Content(Received(INIT, b)).p, x)).code == GetRequest
    ensures Replies(INIT, [b, x]).replies == [BadRequest, GetRequest]
  {
    hide Content;
    assert [b, x][1..] == [x];
  }

  lemma OneReply(b: seq<char>)
    requires Content(Received(INIT, b)).code == BadRequest
    ensures Replies(INIT, [b]).replies == [BadRequest]
  {
    hide Content;
    assert [b][1..] == [];
  }

  lemma MoreAtLine(p: Parser, x: seq<char>)
    requires AtLine(p) && p.buf[p.checked..] == []
    ensures AtLine(Received(p, x)) && Received(p, x).buf[p.checked..] == x
  {
  }

  // ---------- Input without NULs ----------

  lemma TextOfNulFree(s: seq<char>)
    requires NulFree(s)
    ensures Text(s) == s
  {
  }

  /** The grammar for input without NULs: a good request line, non-empty header lines, an empty line. */
  ghost predicate PlainRequest(x: seq<char>, line: seq<char>, hs: seq<seq<char>>, rest: seq<char>) {
    && x == line + CRLF + (Block(hs) + [] + CRLF + rest)
    && Clean(line) && GoodRequestLine(line)
    && forall k :: 0 <= k < |hs| ==> hs[k] != [] && Clean(hs[k])
  }

  lemma {:induction false} HeadersOfNulFree(hs: seq<seq<char>>, y: seq<char>)
    requires NulFree(Block(hs) + y)
    ensures forall k :: 0 <= k < |hs| ==> Text(hs[k]) == hs[k]
    ensures NulFree(y)
  {
    if hs == [] {
      assert Block(hs) + y == y;
    } else {
      var s := Block(hs) + y;
      assert s == hs[0] + (CRLF + (Block(hs[1..]) + y));
      assert forall k :: 0 <= k < |hs[0]| ==> s[k] == hs[0][k];
      TextOfNulFree(hs[0]);
      var t := Block(hs[1..]) + y;
      assert s[|hs[0]| + 2..] == t;
      HeadersOfNulFree(hs[1..], y);
      assert forall k :: 0 < k < |hs| ==> hs[k] == hs[1..][k - 1];
    }
  }

  lemma PartsNulFree(x: seq<char>, line: seq<char>, y: seq<char>)
    requires NulFree(x) && x == line + CRLF + y
    ensures NulFree(line) && Text(line) == line && NulFree(y)
  {
    assert forall k :: 0 <= k < |line| ==> x[k] == line[k];
    assert forall k :: 0 <= k < |y| ==> x[|line| + 2 + k] == y[k];
    TextOfNulFree(line);
  }

  lemma Regroup(a: seq<char>, b: seq<char>, c: seq<char>, d: seq<char>)
    ensures a + b + c + d == a + (b + c + d)
  {
  }

  lemma HeadersArePlain(y: seq<char>, hs: seq<seq<char>>, last: seq<char>, rest: seq<char>)
    requires NulFree(y) && y == Block(hs) + last + CRLF + rest
    ensures (forall k :: 0 <= k < |hs| ==> Text(hs[k]) == hs[k]) && Text(last) == last
  {
    Regroup(Block(hs), last, CRLF, rest);
    HeadersOfNulFree(hs, last + CRLF + rest);
    PartsNulFree(last + CRLF + rest, last, rest);
  }

  lemma AcceptedIsPlain(x: seq<char>)
    requires NulFree(x) && Accepted(x)
    ensures exists line, hs, rest :: PlainRequest(x, line, hs, rest)
  {
    var line, y :| x == line + CRLF + y && Clean(line) && GoodRequestLine(Text(line)) && AcceptedHeaders(y);
    var hs, last, rest :| HeadersSplit(y, hs, last, rest);
    PartsNulFree(x, line, y);
    HeadersArePlain(y, hs, last, rest);
    assert PlainRequest(x, line, hs, rest);
  }

  lemma PlainIsAccepted(x: seq<char>, line: seq<char>, hs: seq<seq<char>>, rest: seq<char>)
    requires NulFree(x) && PlainRequest(x, line, hs, rest)
    ensures Accepted(x)
  {
    var y := Block(hs) + [] + CRLF + rest;
    PartsNulFree(x, line, y);
    HeadersArePlain(y, hs, [], rest);
    assert GoodHeaders(hs) && LastLine([]) && HeadersSplit(y, hs, [], rest);
    RequestAccepted(x, line, y);
  }

  /** Without NULs, the verdict is GET_REQUEST exactly for the plain requests. */
  lemma AcceptedNulFree(chunks: seq<seq<char>>)
    requires NulFree(Concat(chunks))
    ensures Feed(INIT, chunks).code == GetRequest <==>
            exists line, hs, rest :: PlainRequest(Concat(chunks), line, hs, rest)
  {
    hide Accepted, PlainRequest;
    var x := Concat(chunks);
    AcceptedLanguage(chunks);
    if Accepted(x) {
      AcceptedIsPlain(x);
    }
    forall line, hs, rest | PlainRequest(x, line, hs, rest)
      ensures Accepted(x)
    {
      PlainIsAccepted(x, line, hs, rest);
    }
  }

  // ---------- Round trip ----------

  /** A path is sent as it is, or behind a scheme and a host. */
  datatype Form = Origin | Absolute(host: seq<char>)

  predicate GoodPath(path: seq<char>) {
    path != [] && path[0] == '/' && Clean(path) && NulFree(path) && NoBlank(path)
  }

  predicate GoodForm(form: Form) {
    form.Absolute? ==> Clean(form.host) && NulFree(form.host) && NoBlank(form.host) && '/' !in form.host
  }

  function PrintTarget(form: Form, path: seq<char>): seq<char> {
    match form
    case Origin => path
    case Absolute(host) => SCHEME + host + path
  }

  function PrintLine(form: Form, path: seq<char>): seq<char> {
    GET + " " + PrintTarget(form, path) + " " + VERSION
  }

  function Print(form: Form, path: seq<char>, hs: seq<seq<char>>): seq<char> {
    PrintLine(form, path) + CRLF + (Block(hs) + CRLF)
  }

  lemma {:induction false} IndexOfFirst(s: seq<char>, c: char, t: seq<char>)
    requires c !in s
    ensures IndexOf(s + [c] + t, c) == |s|
  {
    if s != [] {
      assert (s + [c] + t)[1..] == s[1..] + [c] + t;
      IndexOfFirst(s[1..], c, t);
    }
  }

  lemma PrintedTarget(form: Form, path: seq<char>)
    requires GoodPath(path) && GoodForm(form)
    ensures var t := PrintTarget(form, path);
            PathOf(t) == Some(path) && t != [] && NoBlank(t) && Clean(t) && NulFree(t)
  {
    hide IndexOf;
    var t := PrintTarget(form, path);
    if form.Absolute? {
      var rest := form.host + path;
      assert t == SCHEME + rest && t[|SCHEME|..] == rest && t[..|SCHEME|] == SCHEME;
      assert rest == form.host + ['/'] + path[1..];
      IndexOfFirst(form.host, '/', path[1..]);
      assert rest[|form.host|..] == path;
      assert NoBlank(SCHEME) && Clean(SCHEME) && NulFree(SCHEME);
    } else {
      if |SCHEME| <= |t| {
        assert t[..|SCHEME|][0] == '/' && Lower('/') != Lower(SCHEME[0]);
      }
    }
  }

  lemma PrintedLineParses(form: Form, path: seq<char>)
    requires GoodPath(path) && GoodForm(form)
    ensures GoodRequestLine(PrintLine(form, path)) && RequestLine(PrintLine(form, path)).url == Some(path)
  {
    var line, t := PrintLine(form, path), PrintTarget(form, path);
    PrintedTarget(form, path);
    PathExists(t);
    PartsPrinted(t);
    GoodLineParses(line, GET, " ", t, " ", VERSION);
  }

  lemma PartsPrinted(t: seq<char>)
    requires t != [] && NoBlank(t)
    ensures Parts(GET + " " + t + " " + VERSION, GET, " ", t, " ", VERSION)
  {
    assert Blanks(" ");
  }

  lemma CleanTogether(a: seq<char>, b: seq<char>, c: seq<char>)
    requires Clean(a) && NulFree(a) && Clean(b) && NulFree(b) && Clean(c) && NulFree(c)
    ensures Clean(a + b + c) && NulFree(a + b + c)
  {
  }

  lemma PrintedLineIsClean(form: Form, path: seq<char>)
    requires GoodPath(path) && GoodForm(form)
    ensures Clean(PrintLine(form, path)) && Text(PrintLine(form, path)) == PrintLine(form, path)
  {
    var line, t := PrintLine(form, path), PrintTarget(form, path);
    assert Clean(GET + " ") && Clean(" " + VERSION) && NulFree(GET + " ") && NulFree(" " + VERSION);
    assert line == (GET + " ") + t + (" " + VERSION);
    hide Clean, NulFree, Text, PrintLine, PrintTarget, PathOf;
    PrintedTarget(form, path);
    CleanTogether(GET + " ", t, " " + VERSION);
    TextOfNulFree(line);
  }

  lemma NothingBehind(s: seq<char>)
    ensures s + [] + CRLF + [] == s + CRLF
  {
  }

  /** Main result: a printed request, fed in any chunks, is accepted and its path recovered. */
  lemma RoundTrip(form: Form, path: seq<char>, hs: seq<seq<char>>, chunks: seq<seq<char>>)
    requires GoodPath(path) && GoodForm(form) && GoodHeaders(hs)
    requires Concat(chunks) == Print(form, path, hs)
    ensures Feed(INIT, chunks).code == GetRequest && Feed(INIT, chunks).p.url == Some(path)
  {
    hide RequestLine, Content, GoodRequestLine;
    var x, line := Concat(chunks), PrintLine(form, path);
    PrintedLineParses(form, path);
    PrintedLineIsClean(form, path);
    NothingBehind(Block(hs));
    AcceptedGivesVerdict(x, line, hs, [], []);
    InitIsIdle();
    ChunksDoNotMatter(INIT, chunks);
  }
}
