/** Logging in: whatever the server asks, in whatever order, and however often
    TLS is denied before, the proxy passes on each request and each answer. */
module PgLogin {
  import opened Bytes
  import opened PgCodec
  import opened PgConn
  import opened PgHandshake
  import opened PgProtocol

  /** The client has nothing to say to the server's last two messages of a
      successful authentication, and answers everything else. */
  predicate Answered(r: AuthRequest) {
    match r
    case AuthenticationOk => false
    case SASLFinal(_) => false
    case _ => true
  }

  function AnswersTo(bs: seq<Backend>): nat {
    if bs == [] then 0
    else
      var b := bs[|bs| - 1];
      AnswersTo(bs[..|bs| - 1]) + if b.Authentication? && Answered(b.request) then 1 else 0
  }

  lemma AnsweredOnWire(b: Backend)
    requires ValidReply(b)
    ensures Challenge(FromServer(b)) <==> b.Authentication? && Answered(b.request)
  {
    if b.Authentication? {
      var code := AuthPayload(b.request)[..4];
      assert code[0] == code[1] == code[2] == '\U{0}';
    }
  }

  lemma {:induction false} AnswersOnWire(bs: seq<Backend>)
    requires AllReplies(bs)
    ensures Challenges(Replies(bs)) == AnswersTo(bs)
  {
    if bs != [] {
      AnswersOnWire(bs[..|bs| - 1]);
      AnsweredOnWire(bs[|bs| - 1]);
      assert Replies(bs)[..|bs| - 1] == Replies(bs[..|bs| - 1]);
    }
  }

  lemma {:induction false} ChallengesPrefix(a: seq<Msg>, b: seq<Msg>)
    requires a <= b
    ensures Challenges(a) <= Challenges(b)
    decreases |b|
  {
    if a != b {
      ChallengesPrefix(a, b[..|b| - 1]);
    }
  }

  /** Ready only at the end, if at all. */
  predicate ReadyLast(bs: seq<Backend>) {
    forall i :: 0 <= i < |bs| - 1 ==> !bs[i].ReadyForQuery?
  }

  predicate Ends(bs: seq<Backend>) {
    bs != [] && bs[|bs| - 1].ReadyForQuery?
  }

  // ---- Streams determine their messages ----

  lemma SamePrefix<T>(a: seq<T>, x: seq<T>, b: seq<T>, y: seq<T>)
    requires a + x == b + y && |a| <= |b|
    ensures a == b[..|a|]
    ensures |a| == |b| ==> x == y
  {
    assert a == (a + x)[..|a|] == (b + y)[..|a|] == b[..|a|];
    assert x == (a + x)[|a|..];
    assert y == (b + y)[|b|..];
  }

  lemma Rejoin<T>(p: seq<T>, s: seq<T>)
    requires p <= s
    ensures p + s[|p|..] == s
  {
  }

  /** The stream begins with these messages, and the rest follows. */
  ghost predicate Reads(stream: text, ms: seq<Msg>, rest: text) {
    AllSized(ms) && stream == EncodeAll(ms) + rest
  }

  /** Two readings of one stream agree as far as they go. */
  lemma SameStart(stream: text, a: seq<Msg>, x: text, b: seq<Msg>, y: text)
    requires Reads(stream, a, x) && Reads(stream, b, y) && |a| <= |b|
    ensures a == b[..|a|]
    ensures |a| == |b| ==> a == b && x == y
  {
    ParseEncodeAll(a, x);
    ParseEncodeAll(b, y);
    SamePrefix(a, ParseAll(x), b, ParseAll(y));
    if |a| == |b| {
      assert b[..|a|] == b;
      SamePrefix(EncodeAll(a), x, EncodeAll(b), y);
    }
  }

  lemma StreamSplit(ms: seq<Msg>, n: nat, rest: text)
    requires n < |ms|
    ensures EncodeAll(ms) + rest == EncodeAll(ms[..n]) + (Encode(ms[n]) + (EncodeAll(ms[n + 1..]) + rest))
    ensures |EncodeAll(ms[..n])| + |Encode(ms[n])| <= |EncodeAll(ms)|
  {
    var a, m, b := ms[..n], ms[n], ms[n + 1..];
    assert ms == (a + [m]) + b;
    EncodeAllConcat(a + [m], b);
    EncodeAllSnoc(a, m);
    Assoc(EncodeAll(a) + Encode(m), EncodeAll(b), rest);
    Assoc(EncodeAll(a), Encode(m), EncodeAll(b) + rest);
  }

  /** Before the end of its messages a stream is not blocked. */
  lemma NotBlocked(ms: seq<Msg>, n: nat, rest: text, stream: text, room: int)
    requires AllSized(ms) && n < |ms| && stream == EncodeAll(ms) + rest && |EncodeAll(ms)| <= room
    ensures !BlockedAfter(ms[..n], stream, room)
  {
    StreamSplit(ms, n, rest);
    var before := EncodeAll(ms[..n]);
    assert stream[|before|..] == Encode(ms[n]) + (EncodeAll(ms[n + 1..]) + rest);
    DecodeEncode(ms[n], EncodeAll(ms[n + 1..]) + rest);
  }

  // ---- Authentication ----

  /** Everything the server will send is these requests and what follows, and
      everything the client will send is its answers and what follows; both
      accept what is for them. */
  ghost predicate Scene(bs: seq<Backend>, answers: seq<Msg>, c: text, more: text, s: text, rest: text,
                        cRoom: int, sRoom: int) {
    && AllReplies(bs) && ReadyLast(bs) && |answers| == AnswersTo(bs)
    && Reads(s, Replies(bs), rest) && Reads(c, answers, more)
    && |EncodeAll(Replies(bs))| <= cRoom && |EncodeAll(answers)| <= sRoom
  }

  lemma ReadyOnWire(bs: seq<Backend>, i: nat)
    requires AllReplies(bs) && i < |bs|
    ensures Replies(bs)[i].kind == 'Z' <==> bs[i].ReadyForQuery?
  {
    assert ValidReply(bs[i]);
  }

  lemma {:induction false} NoneAt(ms: seq<Msg>, kind: byte, i: nat)
    requires i < |ms| && ms[i].kind == kind
    ensures CountKind(ms, kind) > 0
  {
    if i < |ms| - 1 {
      NoneAt(ms[..|ms| - 1], kind, i);
    }
  }

  /** A completed authentication on such streams has passed on exactly that. */
  lemma AuthIs(bs: seq<Backend>, answers: seq<Msg>, c: text, more: text, s: text, rest: text, cRoom: int, sRoom: int,
               ms: seq<Msg>, cs: seq<Msg>, sRest: text, cRest: text)
    requires Scene(bs, answers, c, more, s, rest, cRoom, sRoom) && (Ends(bs) || rest == [])
    requires IsAuth(ms, cs) && s == EncodeAll(ms) + sRest && c == EncodeAll(cs) + cRest
    ensures Ends(bs) && ms == Replies(bs) && cs == answers && sRest == rest && cRest == more
  {
    ZLastOnWire(bs);
    ReadySame(s, Replies(bs), rest, ms, sRest, Ends(bs));
    SameStart(s, ms, sRest, Replies(bs), rest);
    AnswersOnWire(bs);
    SameStart(c, cs, cRest, answers, more);
  }

  /** A ReadyForQuery comes last, or not at all. */
  ghost predicate ZLast(ms: seq<Msg>, ends: bool) {
    && (forall i :: 0 <= i < |ms| - 1 ==> ms[i].kind != 'Z')
    && (ends <==> ms != [] && ms[|ms| - 1].kind == 'Z')
  }

  lemma ZLastOnWire(bs: seq<Backend>)
    requires AllReplies(bs) && ReadyLast(bs)
    ensures ZLast(Replies(bs), Ends(bs))
  {
    forall i | 0 <= i < |bs|
      ensures Replies(bs)[i].kind == 'Z' <==> bs[i].ReadyForQuery?
    {
      ReadyOnWire(bs, i);
    }
  }

  /** A reading that ends with the first ReadyForQuery is all there is. */
  lemma ReadySame(s: text, all: seq<Msg>, rest: text, ms: seq<Msg>, x: text, ends: bool)
    requires Reads(s, all, rest) && Reads(s, ms, x) && ZLast(all, ends) && (ends || rest == [])
    requires CountKind(ms, 'Z') == 1 && ms[|ms| - 1].kind == 'Z'
    ensures ends && |ms| == |all|
  {
    if |all| < |ms| {
      NoLonger(s, ms, x, all, rest, ends);
      SameStart(s, all, rest, ms, x);
      SecondReady(all, ms);
    } else {
      SameStart(s, ms, x, all, rest);
      ReadyIsLast(all, ms, ends);
    }
  }

  lemma SecondReady(all: seq<Msg>, ms: seq<Msg>)
    requires 0 < |all| < |ms| && all == ms[..|all|] && all[|all| - 1].kind == ms[|ms| - 1].kind == 'Z'
    ensures CountKind(ms, 'Z') > 1
  {
    assert ms[..|ms| - 1][|all| - 1] == all[|all| - 1];
    NoneAt(ms[..|ms| - 1], 'Z', |all| - 1);
  }

  lemma ReadyIsLast(all: seq<Msg>, ms: seq<Msg>, ends: bool)
    requires 0 < |ms| <= |all| && ms == all[..|ms|] && ms[|ms| - 1].kind == 'Z' && ZLast(all, ends)
    ensures ends && |ms| == |all|
  {
    assert all[|ms| - 1] == ms[|ms| - 1];
  }

  /** Nothing more can be read from a stream than was written to it. */
  lemma NoLonger(s: text, ms: seq<Msg>, x: text, all: seq<Msg>, rest: text, ends: bool)
    requires Reads(s, ms, x) && Reads(s, all, rest) && (ends || rest == [])
    ensures !ends ==> |ms| <= |all|
  {
    if !ends {
      ParseEncodeAll(ms, x);
      ParseEncodeAll(all, rest);
      assert |ms + ParseAll(x)| == |all + ParseAll(rest)|;
    }
  }

  /** Fewer messages of a stream are the first of them. */
  lemma StartOf(s: text, ms: seq<Msg>, all: seq<Msg>, rest: text)
    requires Reads(s, all, rest) && AllSized(ms) && EncodeAll(ms) <= s && |ms| <= |all|
    ensures ms == all[..|ms|]
  {
    Rejoin(EncodeAll(ms), s);
    SameStart(s, ms, s[|EncodeAll(ms)|..], all, rest);
  }

  /** Authentication on such streams does not stop short, except after all of
      them when the server is not ready. */
  lemma BlockedIs(bs: seq<Backend>, answers: seq<Msg>, c: text, more: text, s: text, rest: text, cRoom: int, sRoom: int,
                  ms: seq<Msg>, cs: seq<Msg>)
    requires Scene(bs, answers, c, more, s, rest, cRoom, sRoom) && (Ends(bs) || rest == [])
    requires AuthBlocked(ms, cs, s, c, cRoom, sRoom)
    ensures !Ends(bs) && ms == Replies(bs) && cs == answers
  {
    var all := Replies(bs);
    ZLastOnWire(bs);
    Rejoin(EncodeAll(ms), s);
    assert Reads(s, ms, s[|EncodeAll(ms)|..]);
    WithoutReady(s, all, rest, ms, s[|EncodeAll(ms)|..], Ends(bs));
    AnswersOnWire(bs);
    ChallengesPrefix(ms, all);
    StartOf(c, cs, answers, more);
    if |cs| < |answers| {
      NotBlocked(answers, |cs|, more, c, sRoom);
    }
    if |ms| < |bs| {
      NotBlocked(all, |ms|, rest, s, cRoom);
    }
  }

  lemma ReadyCounted(all: seq<Msg>, ms: seq<Msg>)
    requires 0 < |all| <= |ms| && all == ms[..|all|] && all[|all| - 1].kind == 'Z'
    ensures CountKind(ms, 'Z') > 0
  {
    assert ms[|all| - 1] == all[|all| - 1];
    NoneAt(ms, 'Z', |all| - 1);
  }

  lemma NotReadyYet(s: text, all: seq<Msg>, rest: text, ms: seq<Msg>, x: text)
    requires Reads(s, all, rest) && Reads(s, ms, x) && ZLast(all, true) && CountKind(ms, 'Z') == 0
    ensures |ms| < |all|
  {
    if |all| <= |ms| {
      SameStart(s, all, rest, ms, x);
      ReadyCounted(all, ms);
    }
  }

  /** A reading without ReadyForQuery goes no further than the requests. */
  lemma WithoutReady(s: text, all: seq<Msg>, rest: text, ms: seq<Msg>, x: text, ends: bool)
    requires Reads(s, all, rest) && Reads(s, ms, x) && ZLast(all, ends) && (ends || rest == [])
    requires CountKind(ms, 'Z') == 0
    ensures |ms| <= |all| && ms == all[..|ms|] && (ends ==> |ms| < |all|)
  {
    NoLonger(s, ms, x, all, rest, ends);
    if ends {
      NotReadyYet(s, all, rest, ms, x);
    }
    SameStart(s, ms, x, all, rest);
  }

  /** For any requests of the server: all of them reach the client, and exactly
      the answers they call for reach the server. Authentication is complete
      once the server is ready for queries, and not before. */
  method Authenticate(client: Conn, server: Conn, ghost bs: seq<Backend>, ghost answers: seq<Msg>,
                      ghost rest: text, ghost more: text)
    returns (ok: bool)
    requires client != server && (Ends(bs) || rest == [])
    requires Scene(bs, answers, client.incoming, more, server.incoming, rest, client.room, server.room)
    modifies client, server
    ensures ok <==> Ends(bs)
    ensures client.outgoing == old(client.outgoing) + EncodeAll(Replies(bs))
    ensures server.outgoing == old(server.outgoing) + EncodeAll(answers)
    ensures ok ==> server.incoming == rest && client.incoming == more
  {
    ghost var c, s, cRoom, sRoom := client.incoming, server.incoming, client.room, server.room;
    ghost var ms, cs;
    ok, ms, cs := RelayAuth(client, server);
    if ok {
      AuthIs(bs, answers, c, more, s, rest, cRoom, sRoom, ms, cs, server.incoming, client.incoming);
    } else {
      BlockedIs(bs, answers, c, more, s, rest, cRoom, sRoom, ms, cs);
      AnswersOnWire(bs);
      assert s == EncodeAll(ms) + [] == EncodeAll(ms);
    }
  }
}
