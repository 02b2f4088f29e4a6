/** The receive loop of parse_http.cpp as a whole: what it replies, which after BAD_REQUEST is not the end, and how far
    the replies depend on the way the bytes arrive. */
module HttpReplies {
  import opened HttpModel
  import opened HttpChunks

  datatype Session = Session(replies: seq<HttpCode>, p: Parser, used: nat)

  /** The whole receive loop: it replies to every result but NO_REQUEST, and ends at GET_REQUEST only; after
      BAD_REQUEST it goes on receiving. */
  function Replies(p: Parser, chunks: seq<seq<char>>): (r: Session)
    requires Indexed(p)
    ensures Indexed(r.p) && r.used <= |chunks| && NoRequest !in r.replies
    decreases |chunks|
  {
    if chunks == [] then Session([], p, 0) else
      var o := Content(Received(p, chunks[0]));
      if o.code == GetRequest then Session([GetRequest], o.p, 1)
      else
        var r := Replies(o.p, chunks[1..]);
        Session((if o.code == NoRequest then [] else [o.code]) + r.replies, r.p, r.used + 1)
  }

  /** The first reply is the first verdict; only after BAD_REQUEST is there more to come. */
  lemma {:induction false} FirstReply(p: Parser, chunks: seq<seq<char>>)
    requires Indexed(p)
    ensures var f, r := Feed(p, chunks), Replies(p, chunks);
            if f.code == BadRequest then r.replies != [] && r.replies[0] == BadRequest
            else r == Session(if f.code == NoRequest then [] else [GetRequest], f.p, f.used)
    decreases |chunks|
  {
    if chunks != [] {
      var o := Content(Received(p, chunks[0]));
      if o.code == NoRequest {
        FirstReply(o.p, chunks[1..]);
      }
    }
  }

  /** So two splits of the same bytes agree in all replies unless the first is BAD_REQUEST, and in the first always. */
  lemma RepliesAgree(xs: seq<seq<char>>, ys: seq<seq<char>>)
    requires Concat(xs) == Concat(ys)
    ensures var f, r, t := Feed(INIT, xs), Replies(INIT, xs).replies, Replies(INIT, ys).replies;
            if f.code == BadRequest then r != [] && t != [] && r[0] == t[0] == BadRequest else r == t
  {
    hide Content;
    SplitsAgree(xs, ys);
    FirstReply(INIT, xs);
    FirstReply(INIT, ys);
  }

  lemma {:induction false} RepliesOneMore(p: Parser, chunks: seq<seq<char>>, c: seq<char>)
    requires Indexed(p) && GetRequest !in Replies(p, chunks).replies
    ensures var r := Replies(p, chunks);
            var o := Content(Received(r.p, c));
            && r.used == |chunks|
            && Replies(p, chunks + [c]) ==
                 Session(r.replies + (if o.code == NoRequest then [] else [o.code]), o.p, |chunks| + 1)
    decreases |chunks|
  {
    hide Content;
    if chunks == [] {
      assert [c][1..] == [] && chunks + [c] == [c];
    } else {
      var o := Content(Received(p, chunks[0]));
      assert (chunks + [c])[1..] == chunks[1..] + [c] && (chunks + [c])[0] == chunks[0];
      RepliesOneMore(o.p, chunks[1..], c);
    }
  }

  lemma {:induction false} ConcatOneMore(chunks: seq<seq<char>>, c: seq<char>)
    ensures Concat(chunks + [c]) == Concat(chunks) + c
  {
    if chunks == [] {
      assert chunks + [c] == [c] && [c][1..] == [];
    } else {
      assert (chunks + [c])[1..] == chunks[1..] + [c];
      ConcatOneMore(chunks[1..], c);
    }
  }

  lemma FirstReplyToThese(chunks: seq<seq<char>>)
    ensures var o, r := Content(Received(INIT, Concat(chunks))), Replies(INIT, chunks);
            && o.code == (if r.replies == [] then NoRequest else r.replies[0])
            && (r.used == |chunks| && (r.replies == [] || r.replies == [GetRequest]) ==> o.p == r.p)
  {
    hide Content, Feed, Replies;
    InitIsIdle();
    ChunksDoNotMatter(INIT, chunks);
    FirstReply(INIT, chunks);
    var f := Feed(INIT, chunks);
    if f.used == |chunks| {
      assert chunks[f.used..] == [];
      ReceivedNothing(f.p);
    }
  }

  /** What the replies to the first `n` bytes, in chunks, say about the whole input. */
  lemma FirstReplyToAll(x: seq<char>, n: nat, chunks: seq<seq<char>>)
    requires n <= |x| && Concat(chunks) == x[..n]
    requires n == |x| || Replies(INIT, chunks).replies != []
    ensures var o, r := Content(Received(INIT, x)), Replies(INIT, chunks);
            && o.code == (if r.replies == [] then NoRequest else r.replies[0])
            && (r.used == |chunks| && (r.replies == [] || r.replies == [GetRequest]) ==> o.p == Received(r.p, x[n..]))
  {
    hide Content, Replies, Concat;
    FirstReplyToThese(chunks);
    assert x[..n] + x[n..] == x;
    ReceivedTwice(INIT, x[..n], x[n..]);
    if n < |x| {
      MoreBytes(Received(INIT, x[..n]), x[n..]);
    } else {
      assert x[..n] == x && x[n..] == [];
      ReceivedNothing(Replies(INIT, chunks).p);
    }
  }

  /** The parser stands before a byte that makes the line bad, and does not get past it. */
  predicate Stuck(p: Parser) {
    Indexed(p) && Content(p) == Outcome(BadRequest, p)
  }

  /** From there on every receive is answered with BAD_REQUEST, and no byte is looked at any more. */
  lemma {:induction false} StuckForGood(p: Parser, chunks: seq<seq<char>>)
    requires Stuck(p)
    ensures Replies(p, chunks) == Session(seq(|chunks|, i => BadRequest), Received(p, Concat(chunks)), |chunks|)
    decreases |chunks|
  {
    hide Content;
    if chunks == [] {
      ReceivedNothing(p);
    } else {
      var q, rest := Received(p, chunks[0]), Concat(chunks[1..]);
      MoreBytes(p, chunks[0]);
      StuckForGood(q, chunks[1..]);
      ReceivedTwice(p, chunks[0], rest);
      assert [BadRequest] + seq(|chunks| - 1, i => BadRequest) == seq(|chunks|, i => BadRequest);
    }
  }

  /** However the receives, which are never empty, split `x`, the replies are those to `x` in one piece. */
  ghost predicate SplitFree(x: seq<char>) {
    forall xs :: Concat(xs) == x && [] !in xs ==> Replies(INIT, xs).replies == Replies(INIT, [x]).replies
  }

  /** The refusal is decided before the last byte, and the parser, called once more, has something to say. */
  predicate MoreToSay(x: seq<char>) {
    var o := Content(Received(INIT, x));
    && o.code == BadRequest && Content(o.p).code != NoRequest
    && x != [] && Content(Received(INIT, x[..|x| - 1])).code != NoRequest
  }

  lemma OneReceive(p: Parser, x: seq<char>)
    requires Indexed(p)
    ensures var o := Content(Received(p, x));
            Replies(p, [x]) == Session(if o.code == NoRequest then [] else [o.code], o.p, 1)
  {
    hide Content;
    assert [x][1..] == [];
  }

  lemma UndecidedBefore(p: Parser, a: seq<char>, b: seq<char>)
    requires Indexed(p) && Content(Received(p, a + b)).code == NoRequest
    ensures Content(Received(p, a)).code == NoRequest
    ensures Content(Received(Content(Received(p, a)).p, b)).code == NoRequest
  {
    hide Content;
    ReceivedTwice(p, a, b);
    MoreBytes(Received(p, a), b);
  }

  lemma {:induction false} NoReply(p: Parser, chunks: seq<seq<char>>)
    requires Indexed(p) && Content(Received(p, Concat(chunks))).code == NoRequest
    ensures Replies(p, chunks).replies == []
    decreases |chunks|
  {
    hide Content;
    if chunks != [] {
      UndecidedBefore(p, chunks[0], Concat(chunks[1..]));
      NoReply(Content(Received(p, chunks[0])).p, chunks[1..]);
    }
  }

  /** With nothing more to say there is one reply, wherever in the chunks it comes. */
  lemma {:induction false} OneBadReply(p: Parser, chunks: seq<seq<char>>)
    requires Idle(p)
    requires var o := Content(Received(p, Concat(chunks))); o.code == BadRequest && Content(o.p).code == NoRequest
    ensures Replies(p, chunks).replies == [BadRequest]
    decreases |chunks|
  {
    hide Content;
    if chunks == [] {
      ReceivedNothing(p);
    } else {
      var q, rest := Received(p, chunks[0]), Concat(chunks[1..]);
      var o := Content(q);
      ReceivedTwice(p, chunks[0], rest);
      MoreBytes(q, rest);
      if o.code == NoRequest {
        ContentIdles(q);
        OneBadReply(o.p, chunks[1..]);
      } else {
        NoReply(o.p, chunks[1..]);
      }
    }
  }

  /** Decided by the last byte, the refusal can only be the reply to the last receive. */
  lemma LastByteDecides(x: seq<char>, xs: seq<seq<char>>)
    requires Concat(xs) == x && [] !in xs && x != []
    requires Content(Received(INIT, x[..|x| - 1])).code == NoRequest
    ensures Replies(INIT, xs).replies == Replies(INIT, [x]).replies
  {
    hide Content, Replies, Concat;
    var ys, c := SplitLast(xs, x);
    var n := |Concat(ys)|;
    assert x[..|x| - 1] == Concat(ys) + x[n..|x| - 1];
    UndecidedBefore(INIT, Concat(ys), x[n..|x| - 1]);
    NoReply(INIT, ys);
    RepliesOneMore(INIT, ys, c);
    OneReceive(INIT, x);
    UndecidedPrefix(ys);
    ReceivedTwice(INIT, Concat(ys), c);
    MoreBytes(Received(INIT, Concat(ys)), c);
  }

  lemma SplitLast(xs: seq<seq<char>>, x: seq<char>) returns (ys: seq<seq<char>>, c: seq<char>)
    requires Concat(xs) == x && [] !in xs && x != []
    ensures xs == ys + [c] && c != [] && x == Concat(ys) + c
  {
    assert xs != [];
    ys, c := xs[..|xs| - 1], xs[|xs| - 1];
    assert xs == ys + [c] && c in xs;
    ConcatOneMore(ys, c);
  }

  /** As long as there is no reply, the parser stands where one call would leave it. */
  lemma UndecidedPrefix(ys: seq<seq<char>>)
    requires Replies(INIT, ys).replies == []
    ensures Content(Received(INIT, Concat(ys))) == Outcome(NoRequest, Replies(INIT, ys).p)
  {
    hide Content, Feed;
    InitIsIdle();
    ChunksDoNotMatter(INIT, ys);
    FirstReply(INIT, ys);
    RepliesOneMore(INIT, ys, []);
    var f := Feed(INIT, ys);
    assert ys[f.used..] == [];
    ReceivedNothing(f.p);
  }

  /** When the replies depend on how the bytes are split, by what the parser says; what bytes these are is said in
      HttpRefusals. */
  lemma SplitFreeIff(x: seq<char>)
    ensures SplitFree(x) <==> !MoreToSay(x)
  {
    hide Content, Replies, Concat;
    InitIsIdle();
    var o := Content(Received(INIT, x));
    OneReceive(INIT, x);
    if MoreToSay(x) {
      TwoSplitsDiffer(x);
    } else {
      forall xs | Concat(xs) == x && [] !in xs
        ensures Replies(INIT, xs).replies == Replies(INIT, [x]).replies
      {
        if o.code != BadRequest {
          ConcatOne(x);
          FirstReplyToThese(xs);
          RepliesAgree(xs, [x]);
          FirstReply(INIT, xs);
        } else if Content(o.p).code == NoRequest {
          OneBadReply(INIT, xs);
        } else if x == [] {
          ReceivedNothing(INIT);
        } else {
          LastByteDecides(x, xs);
        }
      }
    }
  }

  lemma ConcatOne(x: seq<char>)
    ensures Concat([x]) == x
  {
    assert [x][1..] == [];
  }

  /** The last byte alone brings one reply more. */
  lemma TwoSplitsDiffer(x: seq<char>)
    requires MoreToSay(x)
    ensures !SplitFree(x)
  {
    hide Content, Replies;
    var a, b := x[..|x| - 1], x[|x| - 1..];
    var q := Received(INIT, a);
    assert a + b == x;
    ReceivedTwice(INIT, a, b);
    MoreBytes(q, b);
    OneReceive(INIT, a);
    OneReceive(INIT, x);
    RepliesOneMore(INIT, [a], b);
    ConcatOne(a);
    ConcatOneMore([a], b);
    if a == [] {
      InitIsIdle();
      ReceivedNothing(INIT);
    }
    assert [] !in [a] + [b] && Concat([a] + [b]) == x;
    assert |Replies(INIT, [a] + [b]).replies| == 2;
  }
}
