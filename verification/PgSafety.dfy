/** What holds in every reachable state of a proxied connection, whatever the
    peers send, however reads, writes and channel operations interleave, and
    however many queries are dropped. */
module PgSafety {
  import opened Bytes
  import opened PgCodec
  import opened PgFields
  import opened PgCapture
  import opened PgSystem

  // ---- One direction ----

  ghost predicate RelayInv(r: Relay) {
    && AllSized(r.read)
    && r.sent == EncodeAll(r.read) + r.unread
    && r.written + r.left == EncodeAll(r.read)
    && |r.left| <= if r.read == [] then 0 else |Encode(Last(r))|
  }

  /** The messages that have been written in full. */
  function Delivered(r: Relay): seq<Msg> {
    if r.left == [] || r.read == [] then r.read else r.read[..|r.read| - 1]
  }

  lemma ArriveKeeps(r: Relay, b: text)
    requires RelayInv(r)
    ensures RelayInv(Arrive(r, b))
  {
    Assoc(EncodeAll(r.read), r.unread, b);
  }

  lemma TakeKeeps(r: Relay)
    requires RelayInv(r) && r.left == [] && Decode(r.unread).Frame?
    ensures RelayInv(Take(r, Decode(r.unread).msg, Decode(r.unread).rest))
  {
    var Frame(m, rest) := Decode(r.unread);
    EncodeDecode(r.unread);
    EncodeAllSnoc(r.read, m);
    Assoc(EncodeAll(r.read), Encode(m), rest);
    assert r.written + [] == r.written;
  }

  lemma PutKeeps(r: Relay, n: nat)
    requires RelayInv(r) && n <= |r.left|
    ensures RelayInv(Put(r, n))
  {
    Assoc(r.written, r.left[..n], r.left[n..]);
    assert r.left[..n] + r.left[n..] == r.left;
  }

  /** What was written ends inside the message being written. */
  lemma WrittenSplit(r: Relay)
    requires RelayInv(r) && r.read != []
    ensures |r.left| <= |Encode(Last(r))|
    ensures var done := |Encode(Last(r))| - |r.left|;
            r.written == EncodeAll(r.read[..|r.read| - 1]) + Encode(Last(r))[..done]
  {
    var init, m := r.read[..|r.read| - 1], Last(r);
    var done := |Encode(m)| - |r.left|;
    assert r.written == EncodeAll(r.read)[..|r.written|];
    assert |r.written| == |EncodeAll(init)| + done;
    assert (EncodeAll(init) + Encode(m))[..|EncodeAll(init)| + done] == EncodeAll(init) + Encode(m)[..done];
  }

  lemma PartSees(r: Relay)
    requires RelayInv(r) && r.read != [] && r.left != []
    ensures ParseAll(r.written) == r.read[..|r.read| - 1]
  {
    WrittenSplit(r);
    var init, m := r.read[..|r.read| - 1], Last(r);
    var part := Encode(m)[..|Encode(m)| - |r.left|];
    assert |part| < |Encode(m)|;
    assert r.written == EncodeAll(init) + part;
    ParsePartial(init, m, part);
  }

  /** What the receiver can decode is exactly the messages written in full. */
  lemma ReceiverSees(r: Relay)
    requires RelayInv(r)
    ensures ParseAll(r.written) == Delivered(r)
  {
    if r.left == [] || r.read == [] {
      assert r.written + [] == r.written;
      ParseEncodeAll(r.read, []);
      assert r.read + [] == r.read;
    } else {
      PartSees(r);
    }
  }

  lemma SenderSent(r: Relay)
    requires RelayInv(r)
    ensures ParseAll(r.sent) == r.read + ParseAll(r.unread)
  {
    ParseEncodeAll(r.read, r.unread);
  }

  // ---- The client side ----

  /** The capture of the last message read that has not been offered yet. */
  function Unoffered(c: Client): seq<text> {
    match c.pc
    case Reading => []
    case Offering(q) => [q]
    case Late(q) => [q]
    case _ => if c.relay.left != [] && c.relay.read != [] && Last(c.relay).kind == 'Q'
              then [CString(Last(c.relay).payload)] else []
  }

  /** Where the loop stands in handling the last message read. */
  predicate AtPc(c: Client) {
    match c.pc
    case Reading => c.relay.left == []
    case Offering(_) => c.relay.read != [] && c.relay.left == Encode(Last(c.relay)) && Last(c.relay).kind != 'Q'
    case Writing => c.relay.read != [] && c.relay.left != []
    case Late(_) => c.relay.read != [] && c.relay.left == [] && Last(c.relay).kind == 'Q'
    case Stopped => true
  }

  /** What has been offered, and what the variables hold, is determined by the
      messages read. */
  ghost predicate OffersInv(c: Client, log: seq<Attempt>) {
    && c.cap == StateAfter(c.relay.read)
    && Queries(log) + Unoffered(c) == Captures(c.relay.read)
    && (c.pc.Offering? && c.relay.read != [] ==> Queries(log) == Captures(c.relay.read[..|c.relay.read| - 1]))
  }

  ghost predicate ClientInv(c: Client, log: seq<Attempt>) {
    RelayInv(c.relay) && AtPc(c) && OffersInv(c, log)
  }

  lemma PendingOfRead(c: Client)
    requires c.pc == Reading && Decode(c.relay.unread).Frame?
    ensures Unoffered(ReadClient(c)) == AsSeq(Offer(c.cap, Decode(c.relay.unread).msg))
    ensures AtPc(ReadClient(c))
  {
    var Frame(m, rest) := Decode(c.relay.unread);
    assert Last(Take(c.relay, m, rest)) == m;
  }

  lemma ReadOffers(c: Client, log: seq<Attempt>)
    requires OffersInv(c, log) && c.pc == Reading && Decode(c.relay.unread).Frame?
    ensures OffersInv(ReadClient(c), log)
  {
    var m := Decode(c.relay.unread).msg;
    var read := c.relay.read + [m];
    assert ReadClient(c).relay.read == read && read[..|read| - 1] == c.relay.read;
    Snoc(c.relay.read, m);
    PendingOfRead(c);
    assert Queries(log) + [] == Queries(log);
  }

  lemma ReadClientKeeps(c: Client, log: seq<Attempt>)
    requires ClientInv(c, log)
    ensures ClientInv(ReadClient(c), log)
  {
    if c.pc == Reading && Decode(c.relay.unread).Frame? {
      TakeKeeps(c.relay);
      PendingOfRead(c);
      ReadOffers(c, log);
    }
  }

  lemma WriteClientKeeps(c: Client, n: nat, log: seq<Attempt>)
    requires ClientInv(c, log)
    ensures ClientInv(WriteClient(c, n), log)
  {
    if c.pc == Writing && n <= |c.relay.left| {
      PutKeeps(c.relay, n);
      assert Unoffered(WriteClient(c, n)) == Unoffered(c);
    }
  }

  lemma QueriesSnoc(log: seq<Attempt>, a: Attempt)
    ensures Queries(log + [a]) == Queries(log) + [a.query]
    ensures Chosen(log + [a], a.accepted) == Chosen(log, a.accepted) + [a.query]
    ensures Chosen(log + [a], !a.accepted) == Chosen(log, !a.accepted)
  {
    assert (log + [a])[..|log|] == log;
  }

  lemma OfferClientKeeps(c: Client, ch: Channel)
    requires ClientInv(c, ch.log)
    ensures var (c', ch') := OfferClient(c, ch); ClientInv(c', ch'.log)
  {
    if c.pc.Offering? || c.pc.Late? {
      var a := Attempt(c.pc.q, |ch.buffer| < CAPACITY);
      QueriesSnoc(ch.log, a);
      var (c', ch') := OfferClient(c, ch);
      assert ch'.log == ch.log + [a];
      assert Unoffered(c) == [c.pc.q] && Unoffered(c') == [];
      assert Queries(ch'.log) + [] == Queries(ch'.log);
    }
  }

  // ---- The channel ----

  ghost predicate ChannelInv(ch: Channel, events: seq<Event>) {
    && |ch.buffer| <= CAPACITY
    && Chosen(ch.log, true) == EventQueries(events) + ch.buffer
  }

  lemma TrySendKeeps(ch: Channel, q: text, events: seq<Event>)
    requires ChannelInv(ch, events)
    ensures ChannelInv(TrySend(ch, q), events)
  {
    QueriesSnoc(ch.log, Attempt(q, |ch.buffer| < CAPACITY));
  }

  // ---- The server side ----

  /** The server messages whose handling is finished. */
  function Handled(s: Server): seq<Msg> {
    if s.relay.read != [] && (s.pc == Handling || s.relay.left != [])
    then s.relay.read[..|s.relay.read| - 1] else s.relay.read
  }

  /** Each event belongs to its own ReadyForQuery message, and describes the
      messages since the one before it. */
  ghost predicate EventsInv(read: seq<Msg>, handled: nat, events: seq<Event>, at: seq<nat>) {
    && handled <= |read|
    && |at| == |events|
    && (forall k :: 0 <= k < |at| ==> at[k] < handled && read[at[k]].kind == 'Z')
    && (forall k, l :: 0 <= k < l < |at| ==> at[k] < at[l])
    && (forall k :: 0 <= k < |at| ==>
          && events[k].rowCount == CountKind(Cycle(read[..at[k]]), 'D')
          && events[k].error == LastErrorText(Cycle(read[..at[k]])))
  }

  ghost predicate ServerInv(s: Server) {
    && RelayInv(s.relay)
    && (s.pc == Waiting || s.pc == Handling ==> s.relay.left == [])
    && (s.pc == Forwarding ==> s.relay.left != [])
    && (s.pc == Handling || s.pc == Forwarding ==> s.relay.read != [])
    && s.rowCount == CountKind(Cycle(Handled(s)), 'D')
    && s.lastError == LastErrorText(Cycle(Handled(s)))
    && EventsInv(s.relay.read, |Handled(s)|, s.events, s.at)
  }

  lemma EventsInvMono(read: seq<Msg>, h: nat, read': seq<Msg>, h': nat, events: seq<Event>, at: seq<nat>)
    requires EventsInv(read, h, events, at)
    requires read <= read' && h <= h' <= |read'|
    ensures EventsInv(read', h', events, at)
  {
    assert forall k :: 0 <= k < |at| ==> read'[..at[k]] == read[..at[k]];
  }

  lemma EventsInvAdd(read: seq<Msg>, i: nat, events: seq<Event>, at: seq<nat>, e: Event)
    requires EventsInv(read, i, events, at)
    requires i < |read| && read[i].kind == 'Z'
    requires e.rowCount == CountKind(Cycle(read[..i]), 'D') && e.error == LastErrorText(Cycle(read[..i]))
    ensures EventsInv(read, i + 1, events + [e], at + [i])
  {
  }

  lemma ReadServerKeeps(s: Server)
    requires ServerInv(s)
    ensures ServerInv(ReadServer(s))
  {
    if s.pc == Waiting && Decode(s.relay.unread).Frame? {
      TakeKeeps(s.relay);
      var s' := ReadServer(s);
      assert Handled(s') == Handled(s);
      EventsInvMono(s.relay.read, |s.relay.read|, s'.relay.read, |s.relay.read|, s.events, s.at);
    }
  }

  lemma WriteServerKeeps(s: Server, n: nat)
    requires ServerInv(s)
    ensures ServerInv(WriteServer(s, n))
  {
    if s.pc == Forwarding && n <= |s.relay.left| {
      PutKeeps(s.relay, n);
      assert Handled(WriteServer(s, n)) == Handled(s);
    }
  }

  lemma {:induction false} CycleStartPrefix(ms: seq<Msg>, m: Msg, n: nat)
    requires n <= |ms|
    ensures CycleStart(ms + [m], n) == CycleStart(ms, n)
  {
    if n > 0 {
      CycleStartPrefix(ms, m, n - 1);
    }
  }

  lemma {:induction false} LastErrorPrefix(ms: seq<Msg>, m: Msg, n: nat)
    requires n <= |ms|
    ensures LastErrorIn(ms + [m], n) == LastErrorIn(ms, n)
  {
    if n > 0 {
      LastErrorPrefix(ms, m, n - 1);
    }
  }

  lemma CountSnoc(ms: seq<Msg>, m: Msg, kind: byte)
    ensures CountKind(ms + [m], kind) == CountKind(ms, kind) + if m.kind == kind then 1 else 0
  {
    assert (ms + [m])[..|ms|] == ms;
  }

  lemma CycleSnoc(ms: seq<Msg>, m: Msg)
    ensures Cycle(ms + [m]) == if m.kind == 'Z' then [] else Cycle(ms) + [m]
    ensures m.kind != 'Z' ==>
              CountKind(Cycle(ms + [m]), 'D') == CountKind(Cycle(ms), 'D') + if m.kind == 'D' then 1 else 0
    ensures m.kind != 'Z' ==>
              LastErrorText(Cycle(ms + [m]))
              == if m.kind == 'E' then ErrorText(m.payload) else LastErrorText(Cycle(ms))
  {
    CycleStartPrefix(ms, m, |ms|);
    var from := CycleStart(ms, |ms|);
    assert (ms + [m])[from..] == ms[from..] + [m];
    CountSnoc(Cycle(ms), m, 'D');
    LastErrorPrefix(Cycle(ms), m, |Cycle(ms)|);
  }

  lemma HandledStep(s: Server)
    requires RelayInv(s.relay) && s.pc == Handling && s.relay.left == [] && s.relay.read != []
    ensures Handled(s) == s.relay.read[..|s.relay.read| - 1]
    ensures s.relay.read == Handled(s) + [Last(s.relay)]
    ensures forall pc :: pc != Handling ==> Handled(s.(pc := pc)) == s.relay.read
  {
  }

  lemma HandleServerCounters(s: Server, ch: Channel)
    requires ServerInv(s) && s.pc == Handling
    ensures var (s', ch') := HandleServer(s, ch);
            && s'.relay == s.relay && s'.pc == Waiting
            && s'.rowCount == CountKind(Cycle(s.relay.read), 'D')
            && s'.lastError == LastErrorText(Cycle(s.relay.read))
  {
    HandledStep(s);
    CycleSnoc(Handled(s), Last(s.relay));
  }

  /** Handling emits an event for a ReadyForQuery with a query waiting, and
      otherwise none. */
  lemma HandleServerEmits(s: Server, ch: Channel)
    requires s.pc == Handling && s.relay.read != []
    ensures var s' := HandleServer(s, ch).0;
            if Last(s.relay).kind == 'Z' && ch.buffer != [] then
              && s'.events == s.events + [Event(ch.buffer[0], s.rowCount, s.lastError)]
              && s'.at == s.at + [|s.relay.read| - 1]
            else s'.events == s.events && s'.at == s.at
  {
  }

  lemma HandleServerEvents(s: Server, ch: Channel)
    requires ServerInv(s) && s.pc == Handling
    ensures var s' := HandleServer(s, ch).0;
            EventsInv(s.relay.read, |s.relay.read|, s'.events, s'.at)
  {
    HandledStep(s);
    HandleServerEmits(s, ch);
    var read, i := s.relay.read, |s.relay.read| - 1;
    if read[i].kind == 'Z' && ch.buffer != [] {
      EventsInvAdd(read, i, s.events, s.at, Event(ch.buffer[0], s.rowCount, s.lastError));
    } else {
      EventsInvMono(read, i, read, i + 1, s.events, s.at);
    }
  }

  lemma HandleServerChannel(s: Server, ch: Channel)
    requires ChannelInv(ch, s.events)
    ensures var (s', ch') := HandleServer(s, ch); ChannelInv(ch', s'.events) && ch'.log == ch.log
  {
    var (s', ch') := HandleServer(s, ch);
    if s'.events != s.events {
      var e := Event(ch.buffer[0], s.rowCount, s.lastError);
      assert s'.events == s.events + [e];
      assert s'.events[..|s.events|] == s.events;
      assert ch.buffer == [e.query] + ch'.buffer;
      Assoc(EventQueries(s.events), [e.query], ch'.buffer);
    }
  }

  lemma HandleServerKeeps(s: Server, ch: Channel)
    requires ServerInv(s)
    ensures ServerInv(HandleServer(s, ch).0)
  {
    if s.pc == Handling {
      HandleServerCounters(s, ch);
      HandleServerEvents(s, ch);
      HandledStep(s);
    }
  }

  // ---- The whole system ----

  ghost predicate Inv(st: State) {
    && ClientInv(st.c, st.ch.log)
    && ChannelInv(st.ch, st.s.events)
    && ServerInv(st.s)
  }

  lemma StartInv(clientUnread: text, serverUnread: text)
    ensures Inv(Start(clientUnread, serverUnread))
  {
  }

  lemma SendClientKeeps(c: Client, b: text, log: seq<Attempt>)
    requires ClientInv(c, log)
    ensures ClientInv(SendClient(c, b), log)
  {
    ArriveKeeps(c.relay, b);
  }

  lemma FailClientKeeps(c: Client, log: seq<Attempt>)
    requires ClientInv(c, log)
    ensures ClientInv(FailClient(c), log)
  {
    assert Unoffered(FailClient(c)) == Unoffered(c);
  }

  lemma SendServerKeeps(s: Server, b: text)
    requires ServerInv(s)
    ensures ServerInv(SendServer(s, b))
  {
    ArriveKeeps(s.relay, b);
  }

  lemma FailServerKeeps(s: Server)
    requires ServerInv(s)
    ensures ServerInv(FailServer(s))
  {
  }

  lemma OfferKeeps(c: Client, ch: Channel, events: seq<Event>)
    requires ClientInv(c, ch.log) && ChannelInv(ch, events)
    ensures var (c', ch') := OfferClient(c, ch); ClientInv(c', ch'.log) && ChannelInv(ch', events)
  {
    OfferClientKeeps(c, ch);
    if c.pc.Offering? || c.pc.Late? {
      TrySendKeeps(ch, c.pc.q, events);
    }
  }

  /** Of the server's actions only handling touches the channel or the events. */
  lemma ServerSameChannel(st: State, a: Action)
    requires a.ServerSends? || a.ServerRead? || a.ServerWrite? || a.ServerFail?
    ensures Do(st, a).c == st.c && Do(st, a).ch == st.ch && Do(st, a).s.events == st.s.events
  {
  }

  lemma DoKeepsClient(st: State, a: Action)
    requires Inv(st)
    ensures ClientInv(Do(st, a).c, Do(st, a).ch.log) && ChannelInv(Do(st, a).ch, Do(st, a).s.events)
  {
    match a
    case ClientSends(b) => SendClientKeeps(st.c, b, st.ch.log);
    case ClientRead => ReadClientKeeps(st.c, st.ch.log);
    case ClientOffer => OfferKeeps(st.c, st.ch, st.s.events);
    case ClientWrite(n) => WriteClientKeeps(st.c, n, st.ch.log);
    case ClientFail => FailClientKeeps(st.c, st.ch.log);
    case ServerHandle => HandleServerChannel(st.s, st.ch);
    case _ => ServerSameChannel(st, a);
  }

  lemma ClientSameServer(st: State, a: Action)
    requires a.ClientSends? || a.ClientRead? || a.ClientOffer? || a.ClientWrite? || a.ClientFail?
    ensures Do(st, a).s == st.s
  {
  }

  lemma DoKeeps(st: State, a: Action)
    requires Inv(st)
    ensures Inv(Do(st, a))
  {
    DoKeepsClient(st, a);
    match a
    case ServerSends(b) => SendServerKeeps(st.s, b);
    case ServerRead => ReadServerKeeps(st.s);
    case ServerWrite(n) => WriteServerKeeps(st.s, n);
    case ServerHandle => HandleServerKeeps(st.s, st.ch);
    case ServerFail => FailServerKeeps(st.s);
    case _ => ClientSameServer(st, a);
  }

  lemma {:induction false} RunKeeps(st: State, actions: seq<Action>)
    requires Inv(st)
    ensures Inv(Run(st, actions))
  {
    if actions != [] {
      RunKeeps(st, actions[..|actions| - 1]);
      DoKeeps(Run(st, actions[..|actions| - 1]), actions[|actions| - 1]);
    }
  }

  lemma ReachableInv(st: State)
    requires Reachable(st)
    ensures Inv(st)
  {
    var clientUnread, serverUnread, actions :| st == Run(Start(clientUnread, serverUnread), actions);
    StartInv(clientUnread, serverUnread);
    RunKeeps(Start(clientUnread, serverUnread), actions);
  }
}
