/** The handshake before queries are captured: SSL negotiation, the startup
    message and authentication, relayed without change. */
module PgHandshake {
  import opened Bytes
  import opened PgCodec
  import opened PgConn

  const SSL_REQUEST_CODE := 80877103

  const SSL_REQUEST: text := PutU32(8) + PutU32(SSL_REQUEST_CODE)

  /** The server's answer that it does not support TLS. */
  const SSL_DENIED: text := ['N']

  /** A server message that the client has to answer. */
  predicate Challenge(m: Msg) {
    m.kind == 'R' && |m.payload| >= 4 && U32(m.payload[..4]) != 0 && U32(m.payload[..4]) != 12
  }

  function Challenges(ms: seq<Msg>): nat {
    if ms == [] then 0
    else Challenges(ms[..|ms| - 1]) + if Challenge(ms[|ms| - 1]) then 1 else 0
  }

  /** The messages of a completed handshake. */
  datatype Handshake = Handshake(retries: nat, startup: text, fromServer: seq<Msg>, fromClient: seq<Msg>)

  function Repeat(s: text, n: nat): text {
    if n == 0 then [] else Repeat(s, n - 1) + s
  }

  function Up(h: Handshake): text {
    Repeat(SSL_REQUEST, h.retries) + h.startup + EncodeAll(h.fromClient)
  }

  function Down(h: Handshake): text {
    Repeat(SSL_DENIED, h.retries) + EncodeAll(h.fromServer)
  }

  /** A startup message that carries its own length and is no SSL request. */
  predicate IsStartup(s: text) {
    4 <= |s| <= 10240 && U32(s[..4]) == |s| && s != SSL_REQUEST
  }

  /** Authentication ends with the server's first ReadyForQuery, and until then
      the client has answered every challenge once. */
  predicate IsAuth(fromServer: seq<Msg>, fromClient: seq<Msg>) {
    && AllSized(fromServer) && AllSized(fromClient)
    && CountKind(fromServer, 'Z') == 1
    && fromServer[|fromServer| - 1].kind == 'Z'
    && |fromClient| == Challenges(fromServer)
  }

  predicate Complete(h: Handshake) {
    IsStartup(h.startup) && IsAuth(h.fromServer, h.fromClient)
  }

  lemma SslRequestOnly(msg: text)
    requires |msg| == 8 && U32(msg[..4]) == 8 && U32(msg[4..]) == SSL_REQUEST_CODE
    ensures msg == SSL_REQUEST
  {
    U32Injective(msg[..4], PutU32(8));
    U32Injective(msg[4..], PutU32(SSL_REQUEST_CODE));
    assert msg == msg[..4] + msg[4..];
  }

  lemma SslRequestCode()
    ensures |SSL_REQUEST| == 8 && U32(SSL_REQUEST[..4]) == 8
    ensures U32(SSL_REQUEST[4..]) == SSL_REQUEST_CODE
  {
    assert SSL_REQUEST[..4] == PutU32(8);
    assert SSL_REQUEST[4..] == PutU32(SSL_REQUEST_CODE);
  }

  datatype Outcome = Established | Refused | TakenOverByTls

  /** The next message of a stream cannot be passed on: it cannot be read, or
      the receiver does not accept all of it. */
  predicate Blocked(stream: text, room: int) {
    var d := Decode(stream);
    !d.Frame? || |Encode(d.msg)| > room
  }

  /** After the messages ms the stream is blocked. */
  ghost predicate BlockedAfter(ms: seq<Msg>, stream: text, room: int) {
    EncodeAll(ms) <= stream && Blocked(stream[|EncodeAll(ms)|..], room - |EncodeAll(ms)|)
  }

  /** Authentication stops short: the server's next message, or the client's
      answer to the last challenge, cannot be passed on. */
  ghost predicate AuthBlocked(ms: seq<Msg>, cs: seq<Msg>, fromServer: text, fromClient: text, cRoom: int, sRoom: int) {
    && AllSized(ms) && AllSized(cs) && EncodeAll(ms) <= fromServer && EncodeAll(cs) <= fromClient
    && CountKind(ms, 'Z') == 0
    && (if |cs| == Challenges(ms) then BlockedAfter(ms, fromServer, cRoom)
        else |cs| + 1 == Challenges(ms) && Challenge(ms[|ms| - 1]) && BlockedAfter(cs, fromClient, sRoom))
  }

  lemma BlockedHere(ms: seq<Msg>, stream: text, unread: text, room: int)
    requires stream == EncodeAll(ms) + unread && Blocked(unread, room)
    ensures BlockedAfter(ms, stream, room + |EncodeAll(ms)|)
  {
    assert stream[|EncodeAll(ms)|..] == unread;
  }

  /** Reading one message from one side and writing it to the other. */
  method RelayMessage(from: Conn, to: Conn) returns (r: ReadResult)
    requires from != to
    modifies from`incoming, to`outgoing, to`room
    ensures old(to.outgoing) <= to.outgoing <= old(to.outgoing) + old(from.incoming)
    ensures r.Read? ==> Sized(r.msg) && to.outgoing == old(to.outgoing) + Encode(r.msg)
    ensures r.Read? ==> old(from.incoming) == Encode(r.msg) + from.incoming
    ensures r.Read? <==> !Blocked(old(from.incoming), old(to.room))
    ensures r.Read? ==> to.room + |Encode(r.msg)| == old(to.room)
  {
    ghost var stream := from.incoming;
    r := ReadMessage(from);
    if r.ReadFailed? {
      return;
    }
    EncodeDecode(stream);
    var ok := WriteMessage(to, r.msg);
    if !ok {
      assert Encode(r.msg) <= stream;
      return ReadFailed;
    }
  }

  /** A relayed message extends what was relayed before it. */
  lemma Extends(base: text, sent: text, rest: text, stream: text, out: text)
    requires stream == sent + rest
    requires base + sent <= out <= (base + sent) + rest
    ensures base <= out <= base + stream
  {
    Assoc(base, sent, rest);
  }

  lemma Advance(base: text, ms: seq<Msg>, m: Msg, rest: text, stream: text, out: text)
    requires stream == EncodeAll(ms) + (Encode(m) + rest)
    requires out == (base + EncodeAll(ms)) + Encode(m)
    ensures out == base + EncodeAll(ms + [m])
    ensures |EncodeAll(ms + [m])| == |EncodeAll(ms)| + |Encode(m)|
    ensures stream == EncodeAll(ms + [m]) + rest
    ensures CountKind(ms + [m], 'Z') == CountKind(ms, 'Z') + if m.kind == 'Z' then 1 else 0
    ensures Challenges(ms + [m]) == Challenges(ms) + if Challenge(m) then 1 else 0
  {
    EncodeAllSnoc(ms, m);
    Assoc(EncodeAll(ms), Encode(m), rest);
    Assoc(base, EncodeAll(ms), Encode(m));
    assert (ms + [m])[..|ms|] == ms;
  }

  /** One direction of a relay: ms has been read from the stream and written. */
  predicate Passed(ms: seq<Msg>, stream: text, base: text, room0: nat, incoming: text, outgoing: text, room: nat) {
    && stream == EncodeAll(ms) + incoming && outgoing == base + EncodeAll(ms) && room + |EncodeAll(ms)| == room0
    && base <= outgoing <= base + stream && AllSized(ms)
  }

  /** Passes on the next message of one direction, or finds it blocked. */
  method PassOn(from: Conn, to: Conn, ghost ms: seq<Msg>, ghost stream: text, ghost base: text, ghost room0: nat)
    returns (r: ReadResult)
    requires from != to
    requires Passed(ms, stream, base, room0, from.incoming, to.outgoing, to.room)
    modifies from`incoming, to`outgoing, to`room
    ensures base <= to.outgoing <= base + stream && old(to.outgoing) <= to.outgoing
    ensures r.Read? ==> Passed(ms + [r.msg], stream, base, room0, from.incoming, to.outgoing, to.room)
    ensures r.Read? ==> CountKind(ms + [r.msg], 'Z') == CountKind(ms, 'Z') + if r.msg.kind == 'Z' then 1 else 0
    ensures r.Read? ==> Challenges(ms + [r.msg]) == Challenges(ms) + if Challenge(r.msg) then 1 else 0
    ensures r.Read? ==> |from.incoming| < |old(from.incoming)|
    ensures r.ReadFailed? ==> BlockedAfter(ms, stream, room0)
  {
    ghost var unread, room := from.incoming, to.room;
    r := RelayMessage(from, to);
    Extends(base, EncodeAll(ms), unread, stream, to.outgoing);
    if r.ReadFailed? {
      BlockedHere(ms, stream, unread, room);
    } else {
      Advance(base, ms, r.msg, from.incoming, stream, to.outgoing);
    }
  }

  /** After an authentication message: the client's answer, if it has to give
      one, is passed on. */
  method PassAnswer(client: Conn, server: Conn, m: Msg, ghost cs: seq<Msg>, ghost fromClient: text, ghost up: text,
                    ghost sRoom: nat)
    returns (ok: bool, ghost cs': seq<Msg>)
    requires client != server && m.kind == 'R'
    requires Passed(cs, fromClient, up, sRoom, client.incoming, server.outgoing, server.room)
    modifies client`incoming, server`outgoing, server`room
    ensures up <= server.outgoing <= up + fromClient
    ensures ok ==> Passed(cs', fromClient, up, sRoom, client.incoming, server.outgoing, server.room)
    ensures ok ==> |cs'| == |cs| + if Challenge(m) then 1 else 0
    ensures !ok ==> cs' == cs && Challenge(m) && BlockedAfter(cs, fromClient, sRoom)
  {
    if |m.payload| < 4 {
      return true, cs;
    }
    var authType := U32(m.payload[..4]);
    if authType == 0 || authType == 12 {
      return true, cs;
    }
    var r := PassOn(client, server, cs, fromClient, up, sRoom);
    if r.ReadFailed? {
      return false, cs;
    }
    return true, cs + [r.msg];
  }

  method RelayAuth(client: Conn, server: Conn)
    returns (ok: bool, ghost ms: seq<Msg>, ghost cs: seq<Msg>)
    requires client != server
    modifies client, server
    ensures old(client.outgoing) <= client.outgoing <= old(client.outgoing) + old(server.incoming)
    ensures old(server.outgoing) <= server.outgoing <= old(server.outgoing) + old(client.incoming)
    ensures ok ==> IsAuth(ms, cs)
    ensures ok ==> client.outgoing == old(client.outgoing) + EncodeAll(ms)
    ensures ok ==> server.outgoing == old(server.outgoing) + EncodeAll(cs)
    ensures ok ==> old(server.incoming) == EncodeAll(ms) + server.incoming
    ensures ok ==> old(client.incoming) == EncodeAll(cs) + client.incoming
    ensures !ok ==>
              AuthBlocked(ms, cs, old(server.incoming), old(client.incoming), old(client.room), old(server.room))
    ensures !ok ==> old(client.outgoing) + EncodeAll(ms) <= client.outgoing
    ensures !ok && |cs| == Challenges(ms) ==> server.outgoing == old(server.outgoing) + EncodeAll(cs)
  {
    ms, cs := [], [];
    ghost var fromServer, fromClient, down, up := server.incoming, client.incoming, client.outgoing, server.outgoing;
    ghost var cRoom, sRoom := client.room, server.room;
    while true
      invariant Passed(ms, fromServer, down, cRoom, server.incoming, client.outgoing, client.room)
      invariant Passed(cs, fromClient, up, sRoom, client.incoming, server.outgoing, server.room)
      invariant CountKind(ms, 'Z') == 0 && |cs| == Challenges(ms)
      decreases |server.incoming|
    {
      var r := PassOn(server, client, ms, fromServer, down, cRoom);
      if r.ReadFailed? {
        return false, ms, cs;
      }
      var m := r.msg;
      ms := ms + [m];
      if m.kind == 'R' {
        ok, cs := PassAnswer(client, server, m, cs, fromClient, up, sRoom);
        if !ok {
          return false, ms, cs;
        }
      } else if m.kind == 'Z' {
        return true, ms, cs;
      }
    }
  }

  // ---- Startup ----

  /** A startup message with an acceptable length can be read. */
  predicate StartupReadable(s: text) {
    |s| >= 4 && 4 <= U32(s[..4]) <= 10240 && U32(s[..4]) <= |s|
  }

  method ReadStartup(client: Conn) returns (ok: bool, msg: text)
    modifies client`incoming
    ensures ok <==> StartupReadable(old(client.incoming))
    ensures ok ==> old(client.incoming) == msg + client.incoming
    ensures ok ==> 4 <= |msg| <= 10240 && U32(msg[..4]) == |msg|
  {
    ghost var stream := client.incoming;
    var header, body;
    ok, header := client.ReadFull(4);
    if !ok {
      return false, [];
    }
    assert stream[..4] == header;
    var length := U32(header);
    if length < 4 || length > 10240 {
      return false, [];
    }
    ok, body := client.ReadFull(length - 4);
    msg := header + body;
    assert msg[..4] == header;
  }

  /** Forwards an SSL request and the server's one-byte answer. */
  method RelaySslRequest(client: Conn, server: Conn, msg: text) returns (ok: bool, resp: text)
    requires client != server
    modifies client`outgoing, client`room, server
    ensures old(server.outgoing) <= server.outgoing <= old(server.outgoing) + msg
    ensures old(client.outgoing) <= client.outgoing <= old(client.outgoing) + old(server.incoming)
    ensures ok <==> |msg| <= old(server.room) && old(server.incoming) != [] && old(client.room) >= 1
    ensures ok ==> |resp| == 1 && server.outgoing == old(server.outgoing) + msg
    ensures ok ==> client.outgoing == old(client.outgoing) + resp
    ensures ok ==> old(server.incoming) == resp + server.incoming
    ensures ok ==> client.room + 1 == old(client.room) && server.room + |msg| == old(server.room)
  {
    resp := [];
    ok := server.Write(msg);
    if !ok {
      return;
    }
    ok, resp := server.ReadFull(1);
    if !ok {
      return;
    }
    ok := client.Write(resp);
  }

  /** Why the startup message in h, or the handshake after it, is not passed on. */
  ghost predicate StartupBlocked(h: Handshake, c: text, s: text, cRoom: int, sRoom: int) {
    && IsStartup(h.startup) && h.startup <= c
    && (|h.startup| > sRoom
        || AuthBlocked(h.fromServer, h.fromClient, s, c[|h.startup|..], cRoom, sRoom - |h.startup|))
  }

  /** Why a connection ends here, with c and s still to be read. */
  ghost predicate EndsHere(outcome: Outcome, h: Handshake, c: text, s: text, cRoom: int, sRoom: int) {
    match outcome
    case Established => false
    case Refused =>
      || !StartupReadable(c)
      || (SSL_REQUEST <= c && (|SSL_REQUEST| > sRoom || s == [] || cRoom < 1))
      || StartupBlocked(h, c, s, cRoom, sRoom)
    case TakenOverByTls => SSL_REQUEST <= c && s != [] && s[0] != 'N'
  }

  /** The end of relayStartup: forwarding a startup message, then
      authentication. */
  method ForwardStartup(client: Conn, server: Conn, msg: text, ghost retries: nat)
    returns (outcome: Outcome, ghost h: Handshake)
    requires client != server && IsStartup(msg)
    modifies client, server
    ensures h.retries == retries
    ensures old(client.outgoing) <= client.outgoing <= old(client.outgoing) + old(server.incoming)
    ensures old(server.outgoing) <= server.outgoing <= old(server.outgoing) + (msg + old(client.incoming))
    ensures outcome == Established || outcome == Refused
    ensures outcome.Established? ==> Complete(h)
    ensures outcome.Established? ==> client.outgoing == old(client.outgoing) + Tail(h).0
    ensures outcome.Established? ==> server.outgoing == old(server.outgoing) + Tail(h).1
    ensures outcome.Established? ==> old(server.incoming) == Tail(h).0 + server.incoming
    ensures outcome.Established? ==> msg + old(client.incoming) == Tail(h).1 + client.incoming
    ensures outcome.Refused? ==>
              StartupBlocked(h, msg + old(client.incoming), old(server.incoming), old(client.room), old(server.room))
  {
    h := Handshake(retries, msg, [], []);
    ghost var toServer, cIn := server.outgoing, client.incoming;
    assert (msg + cIn)[|msg|..] == cIn;
    var ok := server.Write(msg);
    if !ok {
      return Refused, h;
    }
    ghost var ms, cs;
    ok, ms, cs := RelayAuth(client, server);
    h := Handshake(retries, msg, ms, cs);
    Extends(toServer, msg, cIn, msg + cIn, server.outgoing);
    if ok {
      Assoc(msg, EncodeAll(cs), client.incoming);
      Assoc(toServer, msg, EncodeAll(cs));
    }
    outcome := if ok then Established else Refused;
  }

  /** What follows the SSL retries in a handshake, to the client and to the
      server. */
  ghost function Tail(h: Handshake): (text, text) {
    (EncodeAll(h.fromServer), h.startup + EncodeAll(h.fromClient))
  }

  /** One direction of the SSL retries: k times the same bytes were passed on. */
  predicate Retried(k: nat, unit: text, stream: text, base: text, room0: nat,
                    incoming: text, outgoing: text, room: nat) {
    && stream == Repeat(unit, k) + incoming && outgoing == base + Repeat(unit, k)
    && room + |Repeat(unit, k)| == room0
  }

  lemma RetriedMore(k: nat, unit: text, stream: text, base: text, room0: nat,
                    incoming: text, rest: text, outgoing: text, out: text, room: nat)
    requires Retried(k, unit, stream, base, room0, incoming, outgoing, room)
    requires outgoing <= out <= outgoing + incoming
    ensures base <= out <= base + stream
    ensures incoming == unit + rest && out == outgoing + unit && room >= |unit| ==>
              Retried(k + 1, unit, stream, base, room0, rest, out, room - |unit|)
  {
    Extends(base, Repeat(unit, k), incoming, stream, out);
    if incoming == unit + rest && out == outgoing + unit {
      Assoc(Repeat(unit, k), unit, rest);
      Assoc(base, Repeat(unit, k), unit);
    }
  }

  /** Why a connection ends, in terms of everything its peers will ever send and
      accept. */
  ghost predicate EndsAfterRetries(outcome: Outcome, h: Handshake, cStream: text, sStream: text,
                                   cRoom: int, sRoom: int) {
    var up, down := Repeat(SSL_REQUEST, h.retries), Repeat(SSL_DENIED, h.retries);
    && up <= cStream && down <= sStream
    && EndsHere(outcome, h, cStream[|up|..], sStream[|down|..], cRoom - |down|, sRoom - |up|)
  }

  lemma EndsThere(outcome: Outcome, h: Handshake, c: text, s: text, cRoom: int, sRoom: int)
    requires EndsHere(outcome, h, c, s, cRoom, sRoom)
    ensures EndsAfterRetries(outcome, h, Repeat(SSL_REQUEST, h.retries) + c, Repeat(SSL_DENIED, h.retries) + s,
                             cRoom + |Repeat(SSL_DENIED, h.retries)|, sRoom + |Repeat(SSL_REQUEST, h.retries)|)
  {
    var up, down := Repeat(SSL_REQUEST, h.retries), Repeat(SSL_DENIED, h.retries);
    assert (up + c)[|up|..] == c;
    assert (down + s)[|down|..] == s;
  }

  /** What both peers will ever send, what they had received, and how much more
      they accept, before the startup loop. */
  datatype Origin = Origin(fromClient: text, fromServer: text, toClient: text, toServer: text, cRoom: nat, sRoom: nat)

  /** Both directions after k denied SSL requests, with c and s to be read. */
  predicate Denied(o: Origin, k: nat, c: text, s: text, toClient: text, toServer: text, cRoom: nat, sRoom: nat) {
    && Retried(k, SSL_REQUEST, o.fromClient, o.toServer, o.sRoom, c, toServer, sRoom)
    && Retried(k, SSL_DENIED, o.fromServer, o.toClient, o.cRoom, s, toClient, cRoom)
  }

  /** Each side has received a prefix of what the other one sends. */
  predicate Prefixes(o: Origin, toClient: text, toServer: text) {
    o.toClient <= toClient <= o.toClient + o.fromServer && o.toServer <= toServer <= o.toServer + o.fromClient
  }

  ghost predicate EndsFrom(o: Origin, outcome: Outcome, h: Handshake) {
    EndsAfterRetries(outcome, h, o.fromClient, o.fromServer, o.cRoom, o.sRoom)
  }

  lemma DeniedPrefixes(o: Origin, k: nat, c: text, s: text, toClient: text, toServer: text, cRoom: nat, sRoom: nat)
    requires Denied(o, k, c, s, toClient, toServer, cRoom, sRoom)
    ensures Prefixes(o, toClient, toServer)
  {
    RetriedMore(k, SSL_REQUEST, o.fromClient, o.toServer, o.sRoom, c, [], toServer, toServer, sRoom);
    RetriedMore(k, SSL_DENIED, o.fromServer, o.toClient, o.cRoom, s, [], toClient, toClient, cRoom);
  }

  lemma DeniedEnds(o: Origin, h: Handshake, c: text, s: text, toClient: text, toServer: text, cRoom: nat, sRoom: nat,
                   outcome: Outcome)
    requires Denied(o, h.retries, c, s, toClient, toServer, cRoom, sRoom)
    requires EndsHere(outcome, h, c, s, cRoom, sRoom)
    ensures EndsFrom(o, outcome, h)
  {
    EndsThere(outcome, h, c, s, cRoom, sRoom);
  }

  /** One SSL request: it is denied and the loop goes on, or the loop ends. */
  method NegotiateSsl(client: Conn, server: Conn, msg: text, ghost o: Origin, ghost k: nat)
    returns (ok: bool, resp: text)
    requires client != server && msg == SSL_REQUEST && StartupReadable(msg + client.incoming)
    requires Denied(o, k, msg + client.incoming, server.incoming, client.outgoing, server.outgoing,
                    client.room, server.room)
    modifies client`outgoing, client`room, server
    ensures Prefixes(o, client.outgoing, server.outgoing)
    ensures ok ==> |resp| == 1
    ensures ok && resp[0] == 'N' ==>
              Denied(o, k + 1, client.incoming, server.incoming, client.outgoing, server.outgoing,
                     client.room, server.room)
    ensures !(ok && resp[0] == 'N') ==>
              EndsFrom(o, if ok then TakenOverByTls else Refused, Handshake(k, [], [], []))
  {
    ghost var c, s, toClient, toServer, cr, sr :=
      msg + client.incoming, server.incoming, client.outgoing, server.outgoing, client.room, server.room;
    ok, resp := RelaySslRequest(client, server, msg);
    RetriedMore(k, SSL_REQUEST, o.fromClient, o.toServer, o.sRoom, c, client.incoming, toServer, server.outgoing, sr);
    RetriedMore(k, SSL_DENIED, o.fromServer, o.toClient, o.cRoom, s, server.incoming, toClient, client.outgoing, cr);
    if ok && resp[0] == 'N' {
      assert resp == SSL_DENIED;
    } else {
      SslRequestCode();
      DeniedEnds(o, Handshake(k, [], [], []), c, s, toClient, toServer, cr, sr, if ok then TakenOverByTls else Refused);
    }
  }

  lemma EstablishedFrom(o: Origin, h: Handshake, c: text, s: text, toClient: text, toServer: text,
                        cRoom: nat, sRoom: nat, cRest: text, sRest: text)
    requires Denied(o, h.retries, c, s, toClient, toServer, cRoom, sRoom)
    requires c == Tail(h).1 + cRest && s == Tail(h).0 + sRest
    ensures o.fromClient == Up(h) + cRest && o.fromServer == Down(h) + sRest
    ensures toServer + Tail(h).1 == o.toServer + Up(h) && toClient + Tail(h).0 == o.toClient + Down(h)
  {
    HandshakeParts(h, o.fromClient, o.fromServer, o.toClient, o.toServer, cRest, sRest);
  }

  /** Everything that holds when the startup loop returns. */
  ghost predicate StartupDone(o: Origin, outcome: Outcome, h: Handshake, cRest: text, sRest: text,
                              toClient: text, toServer: text) {
    && Prefixes(o, toClient, toServer)
    && if outcome.Established? then
         && Complete(h)
         && o.fromClient == Up(h) + cRest && o.fromServer == Down(h) + sRest
         && toServer == o.toServer + Up(h) && toClient == o.toClient + Down(h)
       else EndsFrom(o, outcome, h)
  }

  method FinishStartup(client: Conn, server: Conn, msg: text, ghost o: Origin, ghost k: nat)
    returns (outcome: Outcome, ghost h: Handshake)
    requires client != server && IsStartup(msg) && StartupReadable(msg + client.incoming)
    requires Denied(o, k, msg + client.incoming, server.incoming, client.outgoing, server.outgoing,
                    client.room, server.room)
    modifies client, server
    ensures StartupDone(o, outcome, h, client.incoming, server.incoming, client.outgoing, server.outgoing)
  {
    ghost var c, s, toClient, toServer, cr, sr :=
      msg + client.incoming, server.incoming, client.outgoing, server.outgoing, client.room, server.room;
    outcome, h := ForwardStartup(client, server, msg, k);
    RetriedMore(k, SSL_REQUEST, o.fromClient, o.toServer, o.sRoom, c, client.incoming, toServer, server.outgoing, sr);
    RetriedMore(k, SSL_DENIED, o.fromServer, o.toClient, o.cRoom, s, server.incoming, toClient, client.outgoing, cr);
    if outcome.Established? {
      EstablishedFrom(o, h, c, s, toClient, toServer, cr, sr, client.incoming, server.incoming);
    } else {
      DeniedEnds(o, h, c, s, toClient, toServer, cr, sr, Refused);
    }
  }

  /** The startup loop. However it ends, each side has received a prefix of what
      the other one sent. It ends with an established connection only after a
      complete handshake, passed on unchanged; otherwise something could not be
      read or written, or the server accepted TLS. */
  method RelayStartup(client: Conn, server: Conn)
    returns (outcome: Outcome, ghost h: Handshake)
    requires client != server
    modifies client, server
    ensures StartupDone(Origin(old(client.incoming), old(server.incoming), old(client.outgoing), old(server.outgoing),
                               old(client.room), old(server.room)),
                        outcome, h, client.incoming, server.incoming, client.outgoing, server.outgoing)
  {
    ghost var o :=
      Origin(client.incoming, server.incoming, client.outgoing, server.outgoing, client.room, server.room);
    ghost var k: nat := 0;
    while true
      invariant Denied(o, k, client.incoming, server.incoming, client.outgoing, server.outgoing,
                       client.room, server.room)
      decreases |client.incoming|
    {
      h := Handshake(k, [], [], []);
      ghost var c := client.incoming;
      var ok, msg := ReadStartup(client);
      if !ok {
        DeniedEnds(o, h, c, server.incoming, client.outgoing, server.outgoing, client.room, server.room, Refused);
        DeniedPrefixes(o, k, c, server.incoming, client.outgoing, server.outgoing, client.room, server.room);
        return Refused, h;
      }
      SslRequestCode();
      if |msg| == 8 && U32(msg[4..]) == SSL_REQUEST_CODE {
        SslRequestOnly(msg);
        var resp;
        ok, resp := NegotiateSsl(client, server, msg, o, k);
        if !ok {
          return Refused, h;
        }
        if resp[0] != 'N' {
          return TakenOverByTls, h;
        }
        k := k + 1;
        continue;
      }
      outcome, h := FinishStartup(client, server, msg, o, k);
      return;
    }
  }

  /** The retries and what follows them make up the handshake. */
  lemma HandshakeParts(h: Handshake, cStream: text, sStream: text, cBase: text, sBase: text, cRest: text, sRest: text)
    requires cStream == Repeat(SSL_REQUEST, h.retries) + (Tail(h).1 + cRest)
    requires sStream == Repeat(SSL_DENIED, h.retries) + (Tail(h).0 + sRest)
    ensures cStream == Up(h) + cRest && sStream == Down(h) + sRest
    ensures sBase + Repeat(SSL_REQUEST, h.retries) + Tail(h).1 == sBase + Up(h)
    ensures cBase + Repeat(SSL_DENIED, h.retries) + Tail(h).0 == cBase + Down(h)
  {
    var up, down := Repeat(SSL_REQUEST, h.retries), Repeat(SSL_DENIED, h.retries);
    Assoc(up, h.startup, EncodeAll(h.fromClient));
    Assoc(up, Tail(h).1, cRest);
    Assoc(down, Tail(h).0, sRest);
    Assoc(sBase, up, Tail(h).1);
    Assoc(cBase, down, Tail(h).0);
  }
}
