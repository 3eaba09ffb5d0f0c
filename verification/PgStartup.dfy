/** A connection from its first byte to the first ReadyForQuery, in the bytes of
    the protocol: TLS requests that are denied, a startup message, and
    authentication. It always succeeds. */
module PgStartup {
  import opened Bytes
  import opened PgCodec
  import opened PgConn
  import opened PgHandshake
  import opened PgLogin
  import opened PgProtocol

  /** The request for TLS: length 8, code 1234 5679. */
  const TLS_REQUEST: text := ['\U{0}', '\U{0}', '\U{0}', '\U{8}', '\U{4}', '\U{D2}', '\U{16}', '\U{2F}']

  const NO_TLS: text := "N"

  /** A startup message: its length, a version or request code, and parameters. */
  ghost predicate StartupPacket(s: text) {
    && 8 <= |s| <= 10240
    && s[0] == s[1] == '\U{0}' && s[2] as int * 256 + s[3] as int == |s|
    && s != TLS_REQUEST
  }

  function Times(s: text, n: nat): text {
    if n == 0 then [] else s + Times(s, n - 1)
  }

  // ---- The bytes ----

  lemma RequestIs()
    ensures SSL_REQUEST == TLS_REQUEST
  {
    PutWhatIsRead(TLS_REQUEST[..4], 8);
    PutWhatIsRead(TLS_REQUEST[4..], 80877103);
    assert TLS_REQUEST == TLS_REQUEST[..4] + TLS_REQUEST[4..];
  }

  lemma DeniedIs()
    ensures SSL_DENIED == NO_TLS
  {
  }

  lemma PacketIs(s: text)
    requires StartupPacket(s)
    ensures IsStartup(s)
  {
    RequestIs();
  }

  lemma {:induction false} TimesBack(s: text, n: nat)
    requires n > 0
    ensures Times(s, n) == Times(s, n - 1) + s
  {
    if n == 1 {
      assert s + [] == [] + s;
    } else {
      TimesBack(s, n - 1);
      Assoc(s, Times(s, n - 2), s);
    }
  }

  lemma {:induction false} TimesIs(s: text, n: nat)
    ensures Repeat(s, n) == Times(s, n) && |Times(s, n)| == n * |s|
  {
    if n > 0 {
      TimesIs(s, n - 1);
      TimesBack(s, n);
    }
  }

  // ---- How many requests were denied ----

  lemma PrefixTake(p: text, t: text, n: nat)
    requires n <= |p| && n <= |t|
    ensures p <= t ==> p[..n] == t[..n] && p == t[..|p|]
  {
  }

  lemma Begins(s: text, n: nat, x: text)
    ensures n > 0 ==> s <= Times(s, n) + x
  {
  }

  /** A packet cannot begin where a request does. */
  lemma NoRequest(s: text, rest: text)
    requires IsStartup(s)
    ensures !(SSL_REQUEST <= s + rest)
  {
    SslRequestCode();
    PrefixTake(SSL_REQUEST, s + rest, 4);
    PrefixTake(s, s + rest, 4);
    assert s <= s + rest;
  }

  /** A startup message is as long as it says. */
  lemma SameStartup(s: text, x: text, t: text, y: text)
    requires IsStartup(s) && IsStartup(t) && s + x == t + y
    ensures s == t && x == y
  {
    assert s[..4] == (s + x)[..4] == (t + y)[..4] == t[..4];
    SamePrefix(s, x, t, y);
    assert t[..|s|] == t;
  }

  /** What follows a number of requests, or comes before it. */
  lemma {:induction false} SameRequests(a: nat, x: text, k: nat, y: text)
    requires Times(SSL_REQUEST, a) + x == Times(SSL_REQUEST, k) + y && !(SSL_REQUEST <= y)
    ensures a <= k && x == Times(SSL_REQUEST, k - a) + y
  {
    Begins(SSL_REQUEST, a, x);
    assert [] + x == x && [] + y == y;
    if a > 0 && k > 0 {
      Assoc(SSL_REQUEST, Times(SSL_REQUEST, a - 1), x);
      Assoc(SSL_REQUEST, Times(SSL_REQUEST, k - 1), y);
      DropBoth(SSL_REQUEST, Times(SSL_REQUEST, a - 1) + x, Times(SSL_REQUEST, k - 1) + y);
      SameRequests(a - 1, x, k - 1, y);
    }
  }

  lemma DropBoth(s: text, x: text, y: text)
    requires s + x == s + y
    ensures x == y
  {
    assert (s + x)[|s|..] == x && (s + y)[|s|..] == y;
  }

  // ---- Nothing stops short ----

  /** A request for TLS that the server denies is not the end. */
  lemma RequestGoesOn(outcome: Outcome, h: Handshake, c: text, s: text, cRoom: int, sRoom: int)
    requires SSL_REQUEST <= c && s != [] && s[0] == 'N' && cRoom >= 1 && sRoom >= 8
    ensures !EndsHere(outcome, h, c, s, cRoom, sRoom)
  {
    SslRequestCode();
    PrefixTake(SSL_REQUEST, c, 4);
    NotAStartup(h, c);
  }

  lemma NotAStartup(h: Handshake, c: text)
    requires SSL_REQUEST <= c
    ensures !(IsStartup(h.startup) && h.startup <= c)
  {
    if IsStartup(h.startup) && h.startup <= c {
      NoRequest(h.startup, c[|h.startup|..]);
      Rejoin(h.startup, c);
    }
  }

  lemma AuthGoesOn(bs: seq<Backend>, answers: seq<Msg>, c: text, more: text, s: text, rest: text,
                   cRoom: int, sRoom: int, ms: seq<Msg>, cs: seq<Msg>)
    requires Scene(bs, answers, c, more, s, rest, cRoom, sRoom) && Ends(bs)
    ensures !AuthBlocked(ms, cs, s, c, cRoom, sRoom)
  {
    if AuthBlocked(ms, cs, s, c, cRoom, sRoom) {
      BlockedIs(bs, answers, c, more, s, rest, cRoom, sRoom, ms, cs);
    }
  }

  /** A startup message that fits is followed by authentication. */
  lemma StartupGoesOn(outcome: Outcome, h: Handshake, startup: text, bs: seq<Backend>, answers: seq<Msg>,
                      c: text, more: text, s: text, rest: text, cRoom: int, sRoom: int, stream: text)
    requires IsStartup(startup) && |startup| <= sRoom && Ends(bs) && stream == startup + c
    requires Scene(bs, answers, c, more, s, rest, cRoom, sRoom - |startup|)
    ensures !EndsHere(outcome, h, stream, s, cRoom, sRoom)
  {
    NoRequest(startup, c);
    assert startup[..4] == (startup + c)[..4];
    AuthGoesOn(bs, answers, c, more, s, rest, cRoom, sRoom - |startup|, h.fromServer, h.fromClient);
    OnlyThisStartup(h, startup, c);
  }

  lemma OnlyThisStartup(h: Handshake, startup: text, c: text)
    requires IsStartup(startup)
    ensures IsStartup(h.startup) && h.startup <= startup + c ==>
              h.startup == startup && (startup + c)[|h.startup|..] == c
  {
    assert (startup + c)[|startup|..] == c;
    if IsStartup(h.startup) && h.startup <= startup + c {
      Rejoin(h.startup, startup + c);
      SameStartup(h.startup, (startup + c)[|h.startup|..], startup, c);
    }
  }

  // ---- The whole startup ----

  /** What both sides will ever send, and accept: k denied requests for TLS, a
      startup message, and an authentication after which the server is ready. */
  ghost predicate Dialogue(o: Origin, k: nat, startup: text, bs: seq<Backend>, answers: seq<Msg>,
                           c: text, more: text, s: text, rest: text) {
    && StartupPacket(startup) && Ends(bs)
    && o.fromClient == Times(TLS_REQUEST, k) + (startup + c) && o.fromServer == Times(NO_TLS, k) + s
    && Scene(bs, answers, c, more, s, rest, o.cRoom - k, o.sRoom - 8 * k - |startup|)
  }

  lemma {:induction false} TimesSplit(s: text, a: nat, k: nat)
    requires a <= k
    ensures Times(s, k) == Times(s, a) + Times(s, k - a)
  {
    if a == 0 {
      assert [] + Times(s, k) == Times(s, k);
    } else {
      TimesSplit(s, a - 1, k - 1);
      Assoc(s, Times(s, a - 1), Times(s, k - a));
    }
  }

  /** After a of the requests, the others and the rest are still to come. */
  lemma AfterRequests(unit: text, a: nat, k: nat, rest: text)
    requires a <= k
    ensures Times(unit, a) <= Times(unit, k) + rest
    ensures (Times(unit, k) + rest)[|Times(unit, a)|..] == Times(unit, k - a) + rest
  {
    TimesSplit(unit, a, k);
    Assoc(Times(unit, a), Times(unit, k - a), rest);
  }

  /** Where a connection would end is after some of the requests. */
  lemma WhereItEnds(o: Origin, k: nat, startup: text, bs: seq<Backend>, answers: seq<Msg>, c: text, more: text,
                    s: text, rest: text, a: nat)
    requires Dialogue(o, k, startup, bs, answers, c, more, s, rest)
    requires Repeat(SSL_REQUEST, a) <= o.fromClient
    ensures a <= k && Repeat(SSL_DENIED, a) <= o.fromServer
    ensures |Repeat(SSL_REQUEST, a)| == 8 * a && |Repeat(SSL_DENIED, a)| == a
    ensures o.fromClient[|Repeat(SSL_REQUEST, a)|..] == Times(SSL_REQUEST, k - a) + (startup + c)
    ensures o.fromServer[|Repeat(SSL_DENIED, a)|..] == Times(NO_TLS, k - a) + s
  {
    RequestIs();
    DeniedIs();
    PacketIs(startup);
    NoRequest(startup, c);
    TimesIs(SSL_REQUEST, a);
    TimesIs(NO_TLS, a);
    LeftAfter(a, o.fromClient, k, startup + c);
    AfterRequests(NO_TLS, a, k, s);
  }

  lemma LeftAfter(a: nat, stream: text, k: nat, y: text)
    requires Times(SSL_REQUEST, a) <= stream && stream == Times(SSL_REQUEST, k) + y && !(SSL_REQUEST <= y)
    ensures a <= k && stream[|Times(SSL_REQUEST, a)|..] == Times(SSL_REQUEST, k - a) + y
  {
    Rejoin(Times(SSL_REQUEST, a), stream);
    SameRequests(a, stream[|Times(SSL_REQUEST, a)|..], k, y);
  }

  /** After a of the requests the connection goes on. */
  lemma NotHere(o: Origin, k: nat, startup: text, bs: seq<Backend>, answers: seq<Msg>, c: text, more: text,
                s: text, rest: text, outcome: Outcome, h: Handshake, a: nat, cLeft: text, sLeft: text,
                cRoom: int, sRoom: int)
    requires Dialogue(o, k, startup, bs, answers, c, more, s, rest) && a <= k
    requires cLeft == Times(SSL_REQUEST, k - a) + (startup + c) && sLeft == Times(NO_TLS, k - a) + s
    requires cRoom == o.cRoom - a && sRoom == o.sRoom - 8 * a
    ensures !EndsHere(outcome, h, cLeft, sLeft, cRoom, sRoom)
  {
    PacketIs(startup);
    if a < k {
      Begins(SSL_REQUEST, k - a, startup + c);
      RequestGoesOn(outcome, h, cLeft, sLeft, cRoom, sRoom);
    } else {
      Times0(startup + c, s);
      StartupGoesOn(outcome, h, startup, bs, answers, c, more, sLeft, rest, cRoom, sRoom, cLeft);
    }
  }

  lemma GoesOn(o: Origin, k: nat, startup: text, bs: seq<Backend>, answers: seq<Msg>, c: text, more: text,
               s: text, rest: text, outcome: Outcome, h: Handshake)
    requires Dialogue(o, k, startup, bs, answers, c, more, s, rest)
    ensures !EndsFrom(o, outcome, h)
  {
    if Repeat(SSL_REQUEST, h.retries) <= o.fromClient {
      WhereItEnds(o, k, startup, bs, answers, c, more, s, rest, h.retries);
      var up, down := Repeat(SSL_REQUEST, h.retries), Repeat(SSL_DENIED, h.retries);
      NotHere(o, k, startup, bs, answers, c, more, s, rest, outcome, h, h.retries,
              o.fromClient[|up|..], o.fromServer[|down|..], o.cRoom - |down|, o.sRoom - |up|);
    }
  }

  lemma Times0(c: text, s: text)
    ensures Times(SSL_REQUEST, 0) + c == c && Times(NO_TLS, 0) + s == s
  {
  }

  lemma EstablishedIs(o: Origin, k: nat, startup: text, bs: seq<Backend>, answers: seq<Msg>, c: text, more: text,
                      s: text, rest: text, h: Handshake, cRest: text, sRest: text)
    requires Dialogue(o, k, startup, bs, answers, c, more, s, rest)
    requires Complete(h) && o.fromClient == Up(h) + cRest && o.fromServer == Down(h) + sRest
    ensures cRest == more && sRest == rest
    ensures Up(h) == Times(TLS_REQUEST, k) + startup + EncodeAll(answers)
    ensures Down(h) == Times(NO_TLS, k) + EncodeAll(Replies(bs))
  {
    var a, x, y := h.retries, EncodeAll(h.fromClient) + cRest, EncodeAll(h.fromServer) + sRest;
    RequestIs();
    DeniedIs();
    PacketIs(startup);
    TimesIs(SSL_REQUEST, a);
    TimesIs(NO_TLS, a);
    Parts(Times(SSL_REQUEST, a), h.startup, EncodeAll(h.fromClient), cRest);
    Assoc(Times(NO_TLS, a), EncodeAll(h.fromServer), sRest);
    SameBeginning(a, h.startup, x, k, startup, c);
    DropBoth(Times(NO_TLS, k), y, s);
    AuthIs(bs, answers, c, more, s, rest, o.cRoom - k, o.sRoom - 8 * k - |startup|,
           h.fromServer, h.fromClient, sRest, cRest);
  }

  /** A stream determines its requests and its startup message. */
  lemma SameBeginning(a: nat, s: text, x: text, k: nat, t: text, y: text)
    requires IsStartup(s) && IsStartup(t)
    requires Times(SSL_REQUEST, a) + (s + x) == Times(SSL_REQUEST, k) + (t + y)
    ensures a == k && s == t && x == y
  {
    NoRequest(t, y);
    NoRequest(s, x);
    SameRequests(a, s + x, k, t + y);
    Begins(SSL_REQUEST, k - a, t + y);
    Times0(t + y, []);
    SameStartup(s, x, t, y);
  }

  lemma Parts(a: text, b: text, c: text, d: text)
    ensures (a + b + c) + d == a + (b + (c + d))
  {
  }

  /** However often TLS is denied, whatever the startup message and whatever the
      server asks, the connection is established, and each side has received
      exactly what the other one sent for it. */
  method Connect(client: Conn, server: Conn, ghost k: nat, ghost startup: text, ghost bs: seq<Backend>,
                 ghost answers: seq<Msg>, ghost c: text, ghost more: text, ghost s: text, ghost rest: text)
    returns (outcome: Outcome)
    requires client != server
    requires Dialogue(Origin(client.incoming, server.incoming, client.outgoing, server.outgoing,
                             client.room, server.room),
                      k, startup, bs, answers, c, more, s, rest)
    modifies client, server
    ensures outcome == Established
    ensures client.outgoing == old(client.outgoing) + (Times(NO_TLS, k) + EncodeAll(Replies(bs)))
    ensures server.outgoing == old(server.outgoing) + (Times(TLS_REQUEST, k) + startup + EncodeAll(answers))
    ensures client.incoming == more && server.incoming == rest
  {
    ghost var o :=
      Origin(client.incoming, server.incoming, client.outgoing, server.outgoing, client.room, server.room);
    ghost var h;
    outcome, h := RelayStartup(client, server);
    GoesOn(o, k, startup, bs, answers, c, more, s, rest, outcome, h);
    EstablishedIs(o, k, startup, bs, answers, c, more, s, rest, h, client.incoming, server.incoming);
  }
}
