/** The incremental request parser of parse_http.cpp as functions on the bytes received so far. `buf` is the
    part of the buffer below read_index; parsing edits it in place and never changes its length. */
module HttpModel {
  import opened Common

  const CR := '\r'
  const LF := '\n'
  const NUL := '\0'

  datatype LineStatus = LineOk | LineBad | LineOpen

  datatype HttpCode = NoRequest | GetRequest | BadRequest | ForbiddenRequest | InternalError | ClosedConnection

  datatype CheckState = RequestLineState | HeaderState

  // ---------- parse_line ----------

  datatype Line = Line(status: LineStatus, buf: seq<char>, checked: nat)

  /** Scans from `i` for the end of the current line, and overwrites the CR LF that ends it. */
  function ParseLine(buf: seq<char>, i: nat): (l: Line)
    requires i <= |buf|
    ensures |l.buf| == |buf| && i <= l.checked <= |buf|
    ensures l.status == LineOk ==> i < l.checked && l.buf[l.checked - 1] == NUL
    ensures l.status != LineOk ==> l.buf == buf
    decreases |buf| - i
  {
    if i == |buf| then Line(LineOpen, buf, i)
    else if buf[i] == CR then
      if i + 1 == |buf| then Line(LineOpen, buf, i)
      else if buf[i + 1] == LF then Line(LineOk, buf[i := NUL][i + 1 := NUL], i + 2)
      else Line(LineBad, buf, i)
    else if buf[i] == LF then
      if i > 1 && buf[i - 1] == CR then Line(LineOk, buf[i - 1 := NUL][i := NUL], i + 1)
      else Line(LineBad, buf, i)
    else ParseLine(buf, i + 1)
  }

  // ---------- C strings ----------

  predicate Blank(c: char) {
    c == ' ' || c == '\t'
  }

  /** Where the C string that starts at `p` ends. */
  function StrEnd(buf: seq<char>, p: nat): (e: nat)
    requires p <= |buf|
    ensures p <= e <= |buf|
    ensures e < |buf| ==> buf[e] == NUL
    ensures forall k :: p <= k < e ==> buf[k] != NUL
    decreases |buf| - p
  {
    if p == |buf| || buf[p] == NUL then p else StrEnd(buf, p + 1)
  }

  function CStr(buf: seq<char>, p: nat): (s: seq<char>)
    requires p <= |buf|
    ensures p + |s| <= |buf|
  {
    buf[p..StrEnd(buf, p)]
  }

  /** strpbrk(s, " \t") as an index, |s| when there is none. */
  function FindBlank(s: seq<char>): (k: nat)
    ensures k <= |s| && (k < |s| ==> Blank(s[k])) && forall j :: 0 <= j < k ==> !Blank(s[j])
  {
    if s == [] || Blank(s[0]) then 0 else 1 + FindBlank(s[1..])
  }

  /** strspn(s, " \t"). */
  function SpanBlanks(s: seq<char>): (k: nat)
    ensures k <= |s| && (k < |s| ==> !Blank(s[k])) && forall j :: 0 <= j < k ==> Blank(s[j])
  {
    if s == [] || !Blank(s[0]) then 0 else 1 + SpanBlanks(s[1..])
  }

  function SkipBlanks(s: seq<char>): seq<char> {
    s[SpanBlanks(s)..]
  }

  /** strchr(s, c) as an index, |s| when there is none. */
  function IndexOf(s: seq<char>, c: char): (k: nat)
    ensures k <= |s| && (k < |s| ==> s[k] == c) && forall j :: 0 <= j < k ==> s[j] != c
  {
    if s == [] || s[0] == c then 0 else 1 + IndexOf(s[1..], c)
  }

  /** The part of a line that the C string functions see: all of it, but for a NUL and what follows. */
  function Text(line: seq<char>): (t: seq<char>)
    ensures t <= line && '\0' !in t && (t != line ==> line[|t|] == '\0')
  {
    line[..IndexOf(line, NUL)]
  }

  function Lower(c: char): char {
    if 'A' <= c <= 'Z' then c - 'A' + 'a' else c
  }

  /** strcasecmp(s, t) == 0. */
  predicate EqNoCase(s: seq<char>, t: seq<char>) {
    |s| == |t| && forall k :: 0 <= k < |s| ==> Lower(s[k]) == Lower(t[k])
  }

  /** strncasecmp(s, t, strlen(t)) == 0. */
  predicate PrefixNoCase(s: seq<char>, t: seq<char>) {
    |t| <= |s| && EqNoCase(s[..|t|], t)
  }

  // ---------- parse_request_line ----------

  const GET := "GET"
  const VERSION := "HTTP/1.1"
  const SCHEME := "http://"

  /** The verdict on one request line, the line as the parser leaves it, and the URL it reports. */
  datatype Request = Request(code: HttpCode, edited: seq<char>, url: Option<seq<char>>)

  /** What the target has to offer: from its first `/`, or after a scheme from the next one. */
  function PathOf(target: seq<char>): Option<seq<char>> {
    if PrefixNoCase(target, SCHEME) then
      var rest := target[|SCHEME|..];
      if IndexOf(rest, '/') == |rest| then None else Some(rest[IndexOf(rest, '/')..])
    else if target == [] || target[0] != '/' then None
    else Some(target)
  }

  /** Parses the C string `s`. */
  function RequestLine(s: seq<char>): (r: Request)
    ensures |r.edited| == |s| && (r.code == NoRequest || r.code == BadRequest)
  {
    var m := FindBlank(s);
    if m == |s| then Request(BadRequest, s, None) else
    var s1 := s[m := NUL];
    if !EqNoCase(s[..m], GET) then Request(BadRequest, s1, None) else
    var r := SkipBlanks(s[m + 1..]);
    var k := FindBlank(r);
    if k == |r| then Request(BadRequest, s1, None) else
    var s2 := s1[|s| - |r| + k := NUL];
    if !EqNoCase(SkipBlanks(r[k + 1..]), VERSION) then Request(BadRequest, s2, None) else
    var url := PathOf(r[..k]);
    Request(if url == None then BadRequest else NoRequest, s2, url)
  }

  // ---------- parse_content ----------

  /** Everything that persists between receives; `url` is what the parser last reported. */
  datatype Parser = Parser(buf: seq<char>, checked: nat, start: nat, state: CheckState, url: Option<seq<char>>)

  datatype Outcome = Outcome(code: HttpCode, p: Parser)

  const INIT := Parser([], 0, 0, RequestLineState, None)

  predicate Indexed(p: Parser) {
    p.start <= p.checked <= |p.buf|
  }

  function Splice(buf: seq<char>, at: nat, s: seq<char>): (r: seq<char>)
    requires at + |s| <= |buf|
    ensures |r| == |buf|
  {
    buf[..at] + s + buf[at + |s|..]
  }

  /** One completed line: `buf` is the buffer with the line's end overwritten, `checked` the index behind it. */
  function LineDone(p: Parser, buf: seq<char>, checked: nat): (o: Outcome)
    requires Indexed(p) && p.start <= checked <= |buf|
    ensures Indexed(o.p) && o.p.checked == checked && |o.p.buf| == |buf|
    ensures o.code == NoRequest || o.code == GetRequest || o.code == BadRequest
  {
    var q := p.(buf := buf, checked := checked, start := checked);
    match p.state
    case RequestLineState =>
      var r := RequestLine(CStr(buf, p.start));
      var q' := q.(buf := Splice(buf, p.start, r.edited));
      if r.code == BadRequest then Outcome(BadRequest, q')
      else Outcome(NoRequest, q'.(state := HeaderState, url := r.url))
    case HeaderState =>
      if CStr(buf, p.start) == [] then Outcome(GetRequest, q) else Outcome(NoRequest, q)
  }

  function Content(p: Parser): (o: Outcome)
    requires Indexed(p)
    ensures Indexed(o.p) && |o.p.buf| == |p.buf| && p.checked <= o.p.checked
    ensures o.code == NoRequest || o.code == GetRequest || o.code == BadRequest
    decreases |p.buf| - p.checked
  {
    var l := ParseLine(p.buf, p.checked);
    match l.status
    case LineOpen => Outcome(NoRequest, p.(buf := l.buf, checked := l.checked))
    case LineBad => Outcome(BadRequest, p.(buf := l.buf, checked := l.checked))
    case LineOk =>
      var o := LineDone(p, l.buf, l.checked);
      if o.code != NoRequest then o else Content(o.p)
  }
}
