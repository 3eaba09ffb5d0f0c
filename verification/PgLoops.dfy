/** The two relay loops as they run, each against any behaviour of the other
    one: between two operations on the channel, the other goroutine may have
    taken or added any number of entries. */
module PgLoops {
  import opened Bytes
  import opened PgCodec
  import opened PgFields
  import opened PgConn
  import opened PgCapture
  import opened PgSystem
  import opened PgSafety

  /** The channel between the loops. */
  class Pending {
    var buffer: seq<text>
    ghost var log: seq<Attempt>    // every attempt to send
    ghost var taken: seq<text>     // every query received
    ghost var misses: nat          // receive attempts that found nothing

    ghost predicate Valid()
      reads this
    {
      |buffer| <= CAPACITY && Chosen(log, true) == taken + buffer
    }

    constructor ()
      ensures Valid() && buffer == [] && log == [] && taken == [] && misses == 0
    {
      buffer, log, taken, misses := [], [], [], 0;
    }

    /** The receiving goroutine runs for a while. */
    method ReceiverRuns()
      requires Valid()
      modifies this`buffer, this`taken
      ensures Valid() && |buffer| <= |old(buffer)|
    {
      var k: nat :| k <= |buffer|;
      Assoc(taken, buffer[..k], buffer[k..]);
      assert buffer[..k] + buffer[k..] == buffer;
      taken, buffer := taken + buffer[..k], buffer[k..];
    }

    /** The sending goroutine runs for a while. */
    method SenderRuns()
      requires Valid()
      modifies this`buffer, this`log
      ensures Valid() && |old(buffer)| <= |buffer|
    {
      var q: text, more: bool :| true;
      while more
        invariant Valid() && |old(buffer)| <= |buffer|
        decreases CAPACITY - |buffer|, more
      {
        if |buffer| < CAPACITY {
          Add(q);
          q, more :| true;
        } else {
          more := false;
        }
      }
    }

    method Add(q: text)
      requires Valid()
      modifies this`buffer, this`log
      ensures Valid()
      ensures log == old(log) + [Attempt(q, |old(buffer)| < CAPACITY)]
      ensures buffer == if |old(buffer)| < CAPACITY then old(buffer) + [q] else old(buffer)
    {
      var accepted := |buffer| < CAPACITY;
      QueriesSnoc(log, Attempt(q, accepted));
      if accepted {
        Assoc(taken, buffer, [q]);
        buffer := buffer + [q];
      }
      log := log + [Attempt(q, accepted)];
    }

    /** Puts q at the end, or drops it when the channel is full. */
    method TrySend(q: text)
      requires Valid()
      modifies this`buffer, this`log, this`taken
      ensures Valid()
      ensures Queries(log) == Queries(old(log)) + [q]
      ensures log == old(log) + [Attempt(q, true)] || log == old(log) + [Attempt(q, false)]
      ensures log == old(log) + [Attempt(q, true)] ==> buffer != [] && buffer[|buffer| - 1] == q
      ensures log == old(log) + [Attempt(q, false)] ==> |old(buffer)| == |buffer| == 64
    {
      ReceiverRuns();
      QueriesSnoc(log, Attempt(q, |buffer| < CAPACITY));
      Add(q);
    }

    /** Takes the oldest query, or nothing when the channel is empty. */
    method TryReceive() returns (ok: bool, q: text)
      requires Valid()
      modifies this
      ensures Valid()
      ensures taken == old(taken) + if ok then [q] else []
      ensures misses == old(misses) + if ok then 0 else 1
      ensures !ok ==> old(buffer) == buffer == []
    {
      SenderRuns();
      ok := buffer != [];
      if ok {
        q := buffer[0];
        assert buffer == [q] + buffer[1..];
        Assoc(taken, [q], buffer[1..]);
        taken, buffer := taken + [q], buffer[1..];
      } else {
        q := [];
        misses := misses + 1;
      }
    }
  }

  /** What a relay loop does to its two connections: it reads the messages ms
      and writes them all, or all but the last. */
  ghost predicate Relayed(ms: seq<Msg>, stream: text, before: text, after: text) {
    && EncodeAll(ms) <= stream
    && before + EncodeAll(if ms == [] then [] else ms[..|ms| - 1]) <= after <= before + EncodeAll(ms)
  }

  /** Why a relay loop stops after the messages ms: they do not all fit into
      what the receiver accepts, or no further message can be read. */
  ghost predicate Ends(ms: seq<Msg>, stream: text, room: nat) {
    || |EncodeAll(ms)| > room
    || (|EncodeAll(ms)| <= |stream| && !Decode(stream[|EncodeAll(ms)|..]).Frame?)
  }

  /** The client loop also stops at its first Terminate message. */
  ghost predicate ClientEnds(ms: seq<Msg>, stream: text, room: nat) {
    if CountKind(ms, 'X') == 0 then Ends(ms, stream, room)
    else CountKind(ms, 'X') == 1 && ms[|ms| - 1].kind == 'X'
  }

  lemma NothingToRead(ms: seq<Msg>, stream: text, unread: text, room: nat)
    requires stream == EncodeAll(ms) + unread && !Decode(unread).Frame?
    ensures Ends(ms, stream, room)
  {
    assert stream[|EncodeAll(ms)|..] == unread;
  }

  lemma RelayedStep(ms: seq<Msg>, m: Msg, stream: text, rest: text, before: text, mid: text, after: text)
    requires stream == EncodeAll(ms) + (Encode(m) + rest)
    requires mid == before + EncodeAll(ms)
    requires mid <= after <= mid + Encode(m)
    ensures Relayed(ms + [m], stream, before, after)
    ensures stream == EncodeAll(ms + [m]) + rest
    ensures after == mid + Encode(m) ==> after == before + EncodeAll(ms + [m])
  {
    assert (ms + [m])[..|ms|] == ms;
    EncodeAllSnoc(ms, m);
    Assoc(EncodeAll(ms), Encode(m), rest);
    Assoc(before, EncodeAll(ms), Encode(m));
  }

  /** The cases of the client loop's switch that precede the write. */
  method CaptureExtended(m: Msg, seen: bool, stmts: map<text, text>, pending: Pending)
    returns (parseSeen: bool, preparedStmts: map<text, text>)
    requires pending.Valid() && m.kind != 'Q'
    modifies pending
    ensures pending.Valid()
    ensures Capture(parseSeen, preparedStmts) == After(Capture(seen, stmts), m)
    ensures Queries(pending.log) == Queries(old(pending.log)) + AsSeq(Offer(Capture(seen, stmts), m))
  {
    parseSeen, preparedStmts := seen, stmts;
    if m.kind == 'P' {
      var name := ExtractString(m.payload);
      var query := ExtractSecond(m.payload);
      if name != [] && query != [] {
        preparedStmts := preparedStmts[name := query];
      }
      if query != [] {
        pending.TrySend(query);
        parseSeen := true;
      }
    } else if m.kind == 'B' {
      if !parseSeen {
        var stmtName := ExtractSecond(m.payload);
        if stmtName in preparedStmts {
          pending.TrySend(preparedStmts[stmtName]);
        }
      }
    } else if m.kind == 'S' {
      parseSeen := false;
    }
  }

  /** Reading one message of a relayed stream. */
  method NextMessage(from: Conn, ghost ms: seq<Msg>, ghost stream: text) returns (r: ReadResult)
    requires stream == EncodeAll(ms) + from.incoming
    modifies from`incoming
    ensures r.Read? <==> Decode(old(from.incoming)).Frame?
    ensures r.Read? ==> stream == EncodeAll(ms) + (Encode(r.msg) + from.incoming)
    ensures r.Read? ==> |from.incoming| < |old(from.incoming)|
  {
    ghost var unread := from.incoming;
    r := ReadMessage(from);
    if r.Read? {
      EncodeDecode(unread);
    }
  }

  /** Writing the message that was read. */
  method Forward(to: Conn, m: Msg, ghost ms: seq<Msg>, ghost stream: text, ghost rest: text, ghost before: text)
    returns (ok: bool)
    requires stream == EncodeAll(ms) + (Encode(m) + rest)
    requires to.outgoing == before + EncodeAll(ms)
    modifies to`outgoing, to`room
    ensures stream == EncodeAll(ms + [m]) + rest
    ensures Relayed(ms + [m], stream, before, to.outgoing)
    ensures ok ==> to.outgoing == before + EncodeAll(ms + [m])
    ensures |EncodeAll(ms + [m])| == |EncodeAll(ms)| + |Encode(m)|
    ensures if ok then to.room + |Encode(m)| == old(to.room) else |Encode(m)| > old(to.room)
  {
    ghost var sent := to.outgoing;
    ok := WriteMessage(to, m);
    RelayedStep(ms, m, stream, rest, before, sent, to.outgoing);
  }

  method ProxyClientToServer(client: Conn, server: Conn, pending: Pending) returns (ghost ms: seq<Msg>)
    requires client != server && pending.Valid() && pending.log == []
    modifies client, server, pending
    ensures pending.Valid()
    ensures Relayed(ms, old(client.incoming), old(server.outgoing), server.outgoing)
    ensures ClientEnds(ms, old(client.incoming), old(server.room))
    ensures Queries(pending.log) <= Captures(ms)
    ensures |Captures(ms)| <= |Queries(pending.log)| + 1
  {
    ms := [];
    ghost var stream, before := client.incoming, server.outgoing;
    var preparedStmts: map<text, text> := map[];
    var parseSeen := false;
    while true
      invariant pending.Valid()
      invariant stream == EncodeAll(ms) + client.incoming
      invariant server.outgoing == before + EncodeAll(ms)
      invariant Capture(parseSeen, preparedStmts) == StateAfter(ms)
      invariant Queries(pending.log) == Captures(ms)
      invariant CountKind(ms, 'X') == 0 && server.room + |EncodeAll(ms)| == old(server.room)
      decreases |client.incoming|
    {
      ghost var unread := client.incoming;
      var r := NextMessage(client, ms, stream);
      if r.ReadFailed? {
        NothingToRead(ms, stream, unread, old(server.room));
        break;
      }
      var m := r.msg;
      Snoc(ms, m);
      CountSnoc(ms, m, 'X');
      if m.kind == 'Q' {
        var query := ExtractString(m.payload);
        var ok := Forward(server, m, ms, stream, client.incoming, before);
        ms := ms + [m];
        if !ok {
          return;
        }
        pending.TrySend(query);
        continue;
      }
      parseSeen, preparedStmts := CaptureExtended(m, parseSeen, preparedStmts, pending);
      var ok := Forward(server, m, ms, stream, client.incoming, before);
      ms := ms + [m];
      if m.kind == 'X' || !ok {
        return;
      }
    }
    StoppedRelayed(ms, stream, before, server.outgoing);
  }

  /** A loop that stops at a failed read has written all it read. */
  lemma StoppedRelayed(ms: seq<Msg>, stream: text, before: text, after: text)
    requires EncodeAll(ms) <= stream && after == before + EncodeAll(ms)
    ensures Relayed(ms, stream, before, after)
  {
    if ms != [] {
      assert EncodeAll(ms[..|ms| - 1]) <= EncodeAll(ms);
    }
  }

  /** The server loop's variables and the events emitted so far. */
  ghost predicate ServerLoop(ms: seq<Msg>, rowCount: nat, lastError: text, events: seq<Event>, at: seq<nat>) {
    && rowCount == CountKind(Cycle(ms), 'D')
    && lastError == LastErrorText(Cycle(ms))
    && EventsInv(ms, |ms|, events, at)
  }

  /** An event emitted for message m extends the events on the messages before. */
  lemma Emitted(ms: seq<Msg>, m: Msg, events: seq<Event>, at: seq<nat>, e: Event)
    requires m.kind == 'Z' && ServerLoop(ms, e.rowCount, e.error, events, at)
    ensures EventsInv(ms + [m], |ms| + 1, events + [e], at + [|ms|])
    ensures EventQueries(events + [e]) == EventQueries(events) + [e.query]
  {
    EventsInvMono(ms, |ms|, ms + [m], |ms|, events, at);
    assert (ms + [m])[..|ms|] == ms;
    EventsInvAdd(ms + [m], |ms|, events, at, e);
    assert (events + [e])[..|events|] == events;
  }

  /** The server loop's switch, after the message has been forwarded. */
  method Report(m: Msg, rows: nat, error: text, pending: Pending, emitted: seq<Event>,
                ghost ms: seq<Msg>, ghost at0: seq<nat>)
    returns (rowCount: nat, lastError: text, events: seq<Event>, ghost at: seq<nat>)
    requires pending.Valid()
    requires EventQueries(emitted) == pending.taken
    requires ServerLoop(ms, rows, error, emitted, at0)
    modifies pending
    ensures pending.Valid()
    ensures EventQueries(events) == pending.taken
    ensures ServerLoop(ms + [m], rowCount, lastError, events, at)
    ensures |events| + pending.misses == |emitted| + old(pending.misses) + if m.kind == 'Z' then 1 else 0
  {
    rowCount, lastError, events, at := rows, error, emitted, at0;
    CycleSnoc(ms, m);
    EventsInvMono(ms, |ms|, ms + [m], |ms| + 1, emitted, at0);
    if m.kind == 'D' {
      rowCount := rowCount + 1;
    } else if m.kind == 'E' {
      lastError := ExtractErrorMessage(m.payload);
    } else if m.kind == 'Z' {
      var received, query := pending.TryReceive();
      if received {
        var e := Event(query, rowCount, lastError);
        Emitted(ms, m, events, at, e);
        events, at := events + [e], at + [|ms|];
      }
      rowCount := 0;
      lastError := [];
    }
  }

  method ProxyServerToClient(server: Conn, client: Conn, pending: Pending)
    returns (events: seq<Event>, ghost ms: seq<Msg>, ghost at: seq<nat>)
    requires client != server && pending.Valid() && pending.taken == [] && pending.misses == 0
    modifies client, server, pending
    ensures pending.Valid()
    ensures |events| + pending.misses <= CountKind(ms, 'Z') <= |events| + pending.misses + 1
    ensures Relayed(ms, old(server.incoming), old(client.outgoing), client.outgoing)
    ensures Ends(ms, old(server.incoming), old(client.room))
    ensures EventQueries(events) == pending.taken
    ensures EventsInv(ms, |ms|, events, at)
  {
    events, ms, at := [], [], [];
    ghost var stream, before := server.incoming, client.outgoing;
    var rowCount, lastError: text := 0, [];
    while true
      invariant pending.Valid()
      invariant stream == EncodeAll(ms) + server.incoming
      invariant client.outgoing == before + EncodeAll(ms)
      invariant EventQueries(events) == pending.taken
      invariant ServerLoop(ms, rowCount, lastError, events, at)
      invariant |events| + pending.misses == CountKind(ms, 'Z')
      invariant client.room + |EncodeAll(ms)| == old(client.room)
      decreases |server.incoming|
    {
      ghost var unread := server.incoming;
      var r := NextMessage(server, ms, stream);
      if r.ReadFailed? {
        NothingToRead(ms, stream, unread, old(client.room));
        break;
      }
      var ok := Forward(client, r.msg, ms, stream, server.incoming, before);
      CountSnoc(ms, r.msg, 'Z');
      if !ok {
        EventsInvMono(ms, |ms|, ms + [r.msg], |ms| + 1, events, at);
        ms := ms + [r.msg];
        return;
      }
      rowCount, lastError, events, at := Report(r.msg, rowCount, lastError, pending, events, ms, at);
      ms := ms + [r.msg];
    }
    StoppedRelayed(ms, stream, before, client.outgoing);
  }
}
