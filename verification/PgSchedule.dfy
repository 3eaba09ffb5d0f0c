/** Runs made to order: a client's messages are relayed one by one, and the
    server's answers one by one. */
module PgSchedule {
  import opened Bytes
  import opened PgCodec
  import opened PgCapture
  import opened PgSystem
  import opened PgSafety
  import opened PgRuns

  // ---- Relaying the client's messages ----

  /** n of the client's messages ms have been relayed, and the server has not
      sent anything. */
  ghost predicate RelayedTo(rules: Rules, st: State, ms: seq<Msg>, n: nat) {
    && Reaches(rules, st) && st.c.relay.sent == EncodeAll(ms) && ClientMessages(st) == ms && n <= |ms|
    && st.c.pc == Reading && st.c.relay.left == [] && st.c.relay.read == ms[..n]
    && st.s == Start([], []).s
  }

  /** What the peers have sent and received, as far as the rules look at it. */
  lemma StillAllowed(rules: Rules, st: State, st': State)
    requires Allowed(rules, st)
    requires st'.c.relay.sent == st.c.relay.sent && st'.s.relay == st.s.relay
    requires Asked(ParseAll(st.c.relay.written)) <= Asked(ParseAll(st'.c.relay.written))
    ensures Allowed(rules, st')
  {
  }

  // One action at a time, in terms of the part it changes.

  lemma ByClient(rules: Rules, st: State, st': State, a: Action)
    requires Reaches(rules, st) && Allowed(rules, st')
    requires match a
             case ClientSends(b) => st' == st.(c := SendClient(st.c, b))
             case ClientRead => st' == st.(c := ReadClient(st.c))
             case ClientOffer => st' == st.(c := OfferClient(st.c, st.ch).0, ch := OfferClient(st.c, st.ch).1)
             case ClientWrite(n) => st' == st.(c := WriteClient(st.c, n))
             case _ => false
    ensures Reaches(rules, st')
  {
    assert Do(st, a) == st';
    ReachesDo(rules, st, a);
  }

  lemma ByServer(rules: Rules, st: State, st': State, a: Action)
    requires Reaches(rules, st) && Allowed(rules, st')
    requires match a
             case ServerSends(b) => st' == st.(s := SendServer(st.s, b))
             case ServerRead => st' == st.(s := ReadServer(st.s))
             case ServerWrite(n) => st' == st.(s := WriteServer(st.s, n))
             case ServerHandle => st' == st.(s := HandleServer(st.s, st.ch).0, ch := HandleServer(st.s, st.ch).1)
             case _ => false
    ensures Reaches(rules, st')
  {
    assert Do(st, a) == st';
    ReachesDo(rules, st, a);
  }

  /** The next message can be read. */
  lemma NextIs(r: Relay, ms: seq<Msg>, n: nat) returns (rest: text)
    requires n < |ms|
    requires RelayInv(r) && ParseAll(r.sent) == ms && r.read == ms[..n]
    ensures Decode(r.unread) == Frame(ms[n], rest)
  {
    SenderSent(r);
    assert ms == ms[..n] + ParseAll(r.unread);
    assert ms[n..] == ParseAll(r.unread);
    rest := Decode(r.unread).rest;
  }

  lemma ReadClientIs(c: Client, m: Msg, rest: text)
    requires c.pc == Reading && Decode(c.relay.unread) == Frame(m, rest)
    ensures var c' := ReadClient(c);
            && c'.relay == Take(c.relay, m, rest)
            && c'.pc == if Offer(c.cap, m).Some? && m.kind != 'Q' then Offering(Offer(c.cap, m).value) else Writing
  {
  }

  lemma WriteClientIs(c: Client)
    requires c.pc == Writing && c.relay.read != []
    ensures var c' := WriteClient(c, |c.relay.left|);
            && c'.relay == Put(c.relay, |c.relay.left|) && c'.relay.left == []
            && c'.pc == AfterWrite(Last(c.relay))
  {
  }

  /** st after message n has been read, not yet written. */
  ghost predicate JustRead(rules: Rules, st: State, ms: seq<Msg>, n: nat) {
    && Reaches(rules, st) && st.c.relay.sent == EncodeAll(ms) && ClientMessages(st) == ms && n < |ms|
    && st.c.relay.read == ms[..n + 1] && st.c.relay.left == Encode(ms[n])
    && st.s == Start([], []).s
  }

  lemma Longer(ms: seq<Msg>, n: nat)
    requires n < |ms|
    ensures ms[..n + 1] == ms[..n] + [ms[n]]
  {
  }

  /** Where the loop continues after reading message n. */
  function AfterRead(ms: seq<Msg>, n: nat): ClientPc
    requires n < |ms|
  {
    var offer := Offer(StateAfter(ms[..n]), ms[n]);
    if offer.Some? && ms[n].kind != 'Q' then Offering(offer.value) else Writing
  }

  lemma ReadNextClient(c: Client, log: seq<Attempt>, ms: seq<Msg>, n: nat) returns (c': Client)
    requires ClientInv(c, log) && n < |ms| && ParseAll(c.relay.sent) == ms
    requires c.pc == Reading && c.relay.read == ms[..n]
    ensures c' == ReadClient(c) && c'.pc == AfterRead(ms, n)
    ensures c'.relay.read == ms[..n + 1] && c'.relay.left == Encode(ms[n])
    ensures c'.relay.sent == c.relay.sent && c'.relay.written == c.relay.written
  {
    var rest := NextIs(c.relay, ms, n);
    ReadClientIs(c, ms[n], rest);
    Longer(ms, n);
    c' := ReadClient(c);
  }

  lemma ReadNext(rules: Rules, st: State, ms: seq<Msg>, n: nat) returns (st': State)
    requires RelayedTo(rules, st, ms, n) && n < |ms|
    ensures JustRead(rules, st', ms, n)
    ensures st'.c.pc == AfterRead(ms, n) && st'.ch == st.ch
  {
    ReachesReachable(rules, st);
    var c' := ReadNextClient(st.c, st.ch.log, ms, n);
    st' := st.(c := c');
    StillAllowed(rules, st, st');
    ByClient(rules, st, st', ClientRead);
  }

  /** A query captured by Parse or Bind is offered; then the message is written
      as a whole. */
  lemma OfferNext(rules: Rules, st: State, ms: seq<Msg>, n: nat) returns (st': State)
    requires JustRead(rules, st, ms, n) && (st.c.pc == Writing || st.c.pc.Offering?)
    ensures JustRead(rules, st', ms, n) && st'.c.pc == Writing
  {
    st' := st;
    if st.c.pc.Offering? {
      st' := st.(c := OfferClient(st.c, st.ch).0, ch := OfferClient(st.c, st.ch).1);
      ReachesReachable(rules, st);
      StillAllowed(rules, st, st');
      ByClient(rules, st, st', ClientOffer);
    }
  }

  lemma WriteNext(rules: Rules, st: State, ms: seq<Msg>, n: nat) returns (st': State)
    requires JustRead(rules, st, ms, n) && st.c.pc == Writing
    ensures Reaches(rules, st') && st'.c.relay.sent == EncodeAll(ms) && ClientMessages(st') == ms
    ensures st'.c.relay.read == ms[..n + 1] && st'.c.relay.left == [] && st'.c.pc == AfterWrite(ms[n])
    ensures st'.s == st.s && st'.ch == st.ch
  {
    ReachesReachable(rules, st);
    WriteClientIs(st.c);
    var all := |st.c.relay.left|;
    st' := st.(c := WriteClient(st.c, all));
    PutKeeps(st.c.relay, all);
    WrittenMore(st.c.relay, st'.c.relay);
    StillAllowed(rules, st, st');
    ByClient(rules, st, st', ClientWrite(all));
  }

  lemma WrittenMore(r: Relay, r': Relay)
    requires RelayInv(r) && RelayInv(r') && r.read == r'.read && r'.left == []
    ensures Asked(ParseAll(r.written)) <= Asked(ParseAll(r'.written))
  {
    ReceiverSees(r);
    ReceiverSees(r');
    CountKindPrefix(Delivered(r), Delivered(r'), 'S');
    CountKindPrefix(Delivered(r), Delivered(r'), 'Q');
  }

  lemma RelayOne(rules: Rules, st: State, ms: seq<Msg>, n: nat) returns (st': State)
    requires RelayedTo(rules, st, ms, n) && n < |ms| && ms[n].kind != 'Q' && ms[n].kind != 'X'
    ensures RelayedTo(rules, st', ms, n + 1)
  {
    st' := ReadNext(rules, st, ms, n);
    st' := OfferNext(rules, st', ms, n);
    st' := WriteNext(rules, st', ms, n);
  }

  /** No message up to here is a simple query or ends the session. */
  predicate Plain(ms: seq<Msg>, n: nat)
    requires n <= |ms|
  {
    forall i :: 0 <= i < n ==> ms[i].kind != 'Q' && ms[i].kind != 'X'
  }

  lemma {:induction false} RelayAll(rules: Rules, ms: seq<Msg>, n: nat) returns (st: State)
    requires AllSized(ms) && n <= |ms| && Plain(ms, n) && Allowed(rules, Start(EncodeAll(ms), []))
    ensures RelayedTo(rules, st, ms, n)
  {
    if n == 0 {
      st := Start(EncodeAll(ms), []);
      ReachesStart(rules, EncodeAll(ms), []);
      ParseEncodeAll(ms, []);
      assert EncodeAll(ms) + [] == EncodeAll(ms) && ms + [] == ms;
    } else {
      st := RelayAll(rules, ms, n - 1);
      st := RelayOne(rules, st, ms, n - 1);
    }
  }

  // ---- Answering ----

  const READY := Msg('Z', [])

  /** The server's j messages so far were ReadyForQuery, and are all handled. */
  ghost predicate Quiet(s: Server, j: nat) {
    && s.pc == Waiting && s.relay.left == [] && s.relay.unread == []
    && CountKind(s.relay.read, 'Z') == j
  }

  /** A server answer arrives, and the client may have received more. */
  lemma MoreAllowed(rules: Rules, st: State, st': State)
    requires Allowed(rules, st) && ServerOk(st') && st'.c == st.c
    requires CountKind(ParseAll(st.s.relay.written), 'Z') <= CountKind(ParseAll(st'.s.relay.written), 'Z')
    ensures Allowed(rules, st')
  {
  }

  lemma SendAnswer(rules: Rules, st: State, j: nat) returns (st': State)
    requires Reaches(rules, st) && Quiet(st.s, j) && j < Asked(ParseAll(st.c.relay.written))
    ensures Reaches(rules, st') && st'.c == st.c && st'.ch == st.ch
    ensures st'.s == st.s.(relay := st'.s.relay) && st'.s.relay == Arrive(st.s.relay, Encode(READY))
  {
    ReachesReachable(rules, st);
    st' := st.(s := SendServer(st.s, Encode(READY)));
    AnswerSent(st.s.relay, st'.s.relay, j);
    MoreAllowed(rules, st, st');
    ByServer(rules, st, st', ServerSends(Encode(READY)));
  }

  lemma ReadServerIs(s: Server, m: Msg, rest: text)
    requires s.pc == Waiting && Decode(s.relay.unread) == Frame(m, rest)
    ensures ReadServer(s) == s.(relay := Take(s.relay, m, rest), pc := Forwarding)
  {
  }

  /** The answer is sent and read. */
  lemma ReadAnswer(rules: Rules, st: State, j: nat) returns (st': State)
    requires Reaches(rules, st) && Quiet(st.s, j) && j < Asked(ParseAll(st.c.relay.written))
    ensures Reaches(rules, st') && st'.c == st.c && st'.ch == st.ch
    ensures st'.s.pc == Forwarding && st'.s.relay.unread == [] && st'.s.relay.left == Encode(READY)
    ensures st'.s.relay.read == st.s.relay.read + [READY] && st'.s.events == st.s.events
  {
    var sent := SendAnswer(rules, st, j);
    DecodeEncode(READY, []);
    assert sent.s.relay.unread == Encode(READY) + [];
    ReadServerIs(sent.s, READY, []);
    st' := sent.(s := ReadServer(sent.s));
    ReachesReachable(rules, sent);
    MoreAllowed(rules, sent, st');
    ByServer(rules, sent, st', ServerRead);
  }

  lemma AnswerSent(r: Relay, r': Relay, j: nat)
    requires RelayInv(r) && r.unread == [] && CountKind(r.read, 'Z') == j
    requires r' == Arrive(r, Encode(READY))
    ensures CountKind(ParseAll(r'.sent), 'Z') == j + 1 && r'.written == r.written
  {
    ArriveKeeps(r, Encode(READY));
    SenderSent(r');
    assert r'.unread == Encode(READY) + [];
    ParseOne(READY, []);
    assert ParseAll(r'.sent) == r.read + [READY];
    CountSnoc(r.read, READY, 'Z');
  }

  /** The answer is written to the client. */
  lemma WriteAnswer(rules: Rules, st: State, j: nat) returns (st': State)
    requires Reaches(rules, st) && Quiet(st.s, j) && j < Asked(ParseAll(st.c.relay.written))
    ensures Reaches(rules, st') && st'.c == st.c && st'.ch == st.ch
    ensures st'.s.pc == Handling && st'.s.relay.unread == [] && st'.s.relay.left == []
    ensures st'.s.relay.read == st.s.relay.read + [READY] && st'.s.events == st.s.events
    ensures CountKind(ParseAll(st'.s.relay.written), 'Z') == j + 1
  {
    var got := ReadAnswer(rules, st, j);
    var all := |Encode(READY)|;
    ReachesReachable(rules, st);
    ReachesReachable(rules, got);
    WriteServerIs(got.s);
    st' := got.(s := WriteServer(got.s, all));
    PutKeeps(got.s.relay, all);
    AnswerWritten(got.s.relay, st'.s.relay, st.s.relay.read, j);
    MoreAllowed(rules, got, st');
    ByServer(rules, got, st', ServerWrite(all));
  }

  lemma WriteServerIs(s: Server)
    requires s.pc == Forwarding
    ensures WriteServer(s, |s.relay.left|) == s.(relay := Put(s.relay, |s.relay.left|), pc := Handling)
  {
  }

  lemma AnswerWritten(r: Relay, r': Relay, before: seq<Msg>, j: nat)
    requires RelayInv(r) && RelayInv(r') && r.read == r'.read == before + [READY] && r'.left == []
    requires CountKind(before, 'Z') == j
    ensures CountKind(ParseAll(r.written), 'Z') <= CountKind(ParseAll(r'.written), 'Z') == j + 1
  {
    ReceiverSees(r);
    ReceiverSees(r');
    CountKindPrefix(Delivered(r), Delivered(r'), 'Z');
    CountSnoc(before, READY, 'Z');
  }

  lemma HandleServerIs(s: Server, ch: Channel)
    requires s.pc == Handling && s.relay.read != [] && Last(s.relay) == READY
    ensures var (s', ch') := HandleServer(s, ch);
            s'.relay == s.relay && s'.pc == Waiting && ch'.log == ch.log
  {
  }

  /** One more answer has been sent, relayed and handled. */
  lemma Answer(rules: Rules, st: State, j: nat) returns (st': State)
    requires Reaches(rules, st) && Quiet(st.s, j) && j < Asked(ParseAll(st.c.relay.written))
    ensures Reaches(rules, st') && Quiet(st'.s, j + 1) && st'.c == st.c && st'.ch.log == st.ch.log
  {
    var got := WriteAnswer(rules, st, j);
    CountSnoc(st.s.relay.read, READY, 'Z');
    HandleServerIs(got.s, got.ch);
    st' := got.(s := HandleServer(got.s, got.ch).0, ch := HandleServer(got.s, got.ch).1);
    ReachesReachable(rules, got);
    MoreAllowed(rules, got, st');
    ByServer(rules, got, st', ServerHandle);
  }

  lemma {:induction false} AnswerAll(rules: Rules, st: State, j: nat) returns (st': State)
    requires Reaches(rules, st) && Quiet(st.s, 0) && j <= Asked(ParseAll(st.c.relay.written))
    ensures Reaches(rules, st') && Quiet(st'.s, j) && st'.c == st.c && st'.ch.log == st.ch.log
  {
    st' := st;
    if j > 0 {
      st' := AnswerAll(rules, st, j - 1);
      st' := Answer(rules, st', j - 1);
    }
  }
}
