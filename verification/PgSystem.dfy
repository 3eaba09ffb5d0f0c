/** The two goroutines of a proxied connection as a transition system. Every
    action is one atomic step of a goroutine or of one of its peers; a run is a
    sequence of actions, so a statement about every sequence of actions is a
    statement about every interleaving. An action that is not enabled does
    nothing. */
module PgSystem {
  import opened Bytes
  import opened PgCodec
  import opened PgFields
  import opened PgCapture

  const CAPACITY := 64

  /** One direction of the connection. */
  datatype Relay = Relay(
    sent: text,       // every byte the sender has sent so far
    unread: text,     // the part of it that the proxy has not read
    read: seq<Msg>,   // the messages read so far
    left: text,       // the bytes of the last message read that are not written yet
    written: text     // every byte written to the receiver so far
  )

  datatype ClientPc =
    | Reading
    | Offering(q: text)   // a query captured by Parse or Bind, before trySend
    | Writing
    | Late(q: text)       // a Query message has been written, before its trySend
    | Stopped

  datatype ServerPc = Waiting | Forwarding | Handling | Ended

  datatype Attempt = Attempt(query: text, accepted: bool)

  datatype Channel = Channel(buffer: seq<text>, log: seq<Attempt>)

  datatype Event = Event(query: text, rowCount: nat, error: text)

  datatype Client = Client(relay: Relay, cap: Capture, pc: ClientPc)

  datatype Server = Server(
    relay: Relay,
    pc: ServerPc,
    rowCount: nat,
    lastError: text,
    events: seq<Event>,
    at: seq<nat>          // which server message caused each event
  )

  datatype State = State(c: Client, ch: Channel, s: Server)

  datatype Action =
    | ClientSends(b: text) | ClientRead | ClientOffer | ClientWrite(n: nat) | ClientFail
    | ServerSends(b: text) | ServerRead | ServerWrite(n: nat) | ServerHandle | ServerFail

  // ---- One direction ----

  function NewRelay(unread: text): Relay {
    Relay(unread, unread, [], [], [])
  }

  function Arrive(r: Relay, b: text): Relay {
    r.(sent := r.sent + b, unread := r.unread + b)
  }

  function Take(r: Relay, m: Msg, rest: text): Relay {
    r.(unread := rest, read := r.read + [m], left := Encode(m))
  }

  function Put(r: Relay, n: nat): Relay
    requires n <= |r.left|
  {
    r.(written := r.written + r.left[..n], left := r.left[n..])
  }

  function Last(r: Relay): Msg
    requires r.read != []
  {
    r.read[|r.read| - 1]
  }

  // ---- The channel ----

  function TrySend(ch: Channel, q: text): Channel {
    if |ch.buffer| < CAPACITY
    then Channel(ch.buffer + [q], ch.log + [Attempt(q, true)])
    else ch.(log := ch.log + [Attempt(q, false)])
  }

  // ---- Client to server ----

  function SendClient(c: Client, b: text): Client {
    c.(relay := Arrive(c.relay, b))
  }

  /** A read or a write fails; the goroutine returns. */
  function FailClient(c: Client): Client {
    if c.pc == Reading || c.pc == Writing then c.(pc := Stopped) else c
  }

  function ReadClient(c: Client): Client {
    if c.pc != Reading then c else
    match Decode(c.relay.unread)
    case Incomplete => c
    case BadLength => c.(pc := Stopped)
    case Frame(m, rest) =>
      var offer := Offer(c.cap, m);
      Client(Take(c.relay, m, rest), After(c.cap, m),
             if offer.Some? && m.kind != 'Q' then Offering(offer.value) else Writing)
  }

  /** Where the loop continues after the last message read has been written. */
  function AfterWrite(m: Msg): ClientPc {
    match m.kind
    case 'Q' => Late(CString(m.payload))
    case 'X' => Stopped
    case _ => Reading
  }

  function WriteClient(c: Client, n: nat): Client {
    if c.pc != Writing || n > |c.relay.left| || c.relay.read == [] then c else
    var r := Put(c.relay, n);
    c.(relay := r, pc := if r.left == [] then AfterWrite(Last(r)) else Writing)
  }

  function OfferClient(c: Client, ch: Channel): (Client, Channel) {
    match c.pc
    case Offering(q) => (c.(pc := Writing), TrySend(ch, q))
    case Late(q) => (c.(pc := Reading), TrySend(ch, q))
    case _ => (c, ch)
  }

  // ---- Server to client ----

  function SendServer(s: Server, b: text): Server {
    s.(relay := Arrive(s.relay, b))
  }

  function FailServer(s: Server): Server {
    if s.pc == Waiting || s.pc == Forwarding then s.(pc := Ended) else s
  }

  function ReadServer(s: Server): Server {
    if s.pc != Waiting then s else
    match Decode(s.relay.unread)
    case Incomplete => s
    case BadLength => s.(pc := Ended)
    case Frame(m, rest) => s.(relay := Take(s.relay, m, rest), pc := Forwarding)
  }

  function WriteServer(s: Server, n: nat): Server {
    if s.pc != Forwarding || n > |s.relay.left| then s else
    var r := Put(s.relay, n);
    s.(relay := r, pc := if r.left == [] then Handling else Forwarding)
  }

  /** The switch over the message type after the message has been forwarded. A
      closed and drained channel yields no event, like an empty one. */
  function HandleServer(s: Server, ch: Channel): (Server, Channel) {
    if s.pc != Handling || s.relay.read == [] then (s, ch) else
    var m := Last(s.relay);
    match m.kind
    case 'D' => (s.(pc := Waiting, rowCount := s.rowCount + 1), ch)
    case 'E' => (s.(pc := Waiting, lastError := ErrorText(m.payload)), ch)
    case 'Z' =>
      var quiet := s.(pc := Waiting, rowCount := 0, lastError := []);
      if ch.buffer == [] then (quiet, ch)
      else (quiet.(events := s.events + [Event(ch.buffer[0], s.rowCount, s.lastError)],
                   at := s.at + [|s.relay.read| - 1]),
            ch.(buffer := ch.buffer[1..]))
    case _ => (s.(pc := Waiting), ch)
  }

  // ---- The system ----

  function Do(st: State, a: Action): State {
    match a
    case ClientSends(b) => st.(c := SendClient(st.c, b))
    case ClientRead => st.(c := ReadClient(st.c))
    case ClientOffer => var (c, ch) := OfferClient(st.c, st.ch); st.(c := c, ch := ch)
    case ClientWrite(n) => st.(c := WriteClient(st.c, n))
    case ClientFail => st.(c := FailClient(st.c))
    case ServerSends(b) => st.(s := SendServer(st.s, b))
    case ServerRead => st.(s := ReadServer(st.s))
    case ServerWrite(n) => st.(s := WriteServer(st.s, n))
    case ServerHandle => var (s, ch) := HandleServer(st.s, st.ch); st.(s := s, ch := ch)
    case ServerFail => st.(s := FailServer(st.s))
  }

  /** The state after the handshake, with the bytes it left unread. */
  function Start(clientUnread: text, serverUnread: text): State {
    State(Client(NewRelay(clientUnread), FRESH, Reading),
          Channel([], []),
          Server(NewRelay(serverUnread), Waiting, 0, [], [], []))
  }

  function Run(st: State, actions: seq<Action>): State {
    if actions == [] then st else Do(Run(st, actions[..|actions| - 1]), actions[|actions| - 1])
  }

  /** Some run, in some interleaving and with any bytes sent, leads here. */
  ghost predicate Reachable(st: State) {
    exists clientUnread, serverUnread, actions :: st == Run(Start(clientUnread, serverUnread), actions)
  }

  // ---- What histories mean ----

  function Queries(log: seq<Attempt>): seq<text> {
    if log == [] then [] else Queries(log[..|log| - 1]) + [log[|log| - 1].query]
  }

  function Chosen(log: seq<Attempt>, accepted: bool): seq<text> {
    if log == [] then []
    else
      var a := log[|log| - 1];
      Chosen(log[..|log| - 1], accepted) + if a.accepted == accepted then [a.query] else []
  }

  function EventQueries(events: seq<Event>): seq<text> {
    if events == [] then [] else EventQueries(events[..|events| - 1]) + [events[|events| - 1].query]
  }

  /** The position after the last ReadyForQuery among the first n messages. */
  function CycleStart(ms: seq<Msg>, n: nat): (from: nat)
    requires n <= |ms|
    ensures from <= n
  {
    if n == 0 || ms[n - 1].kind == 'Z' then n else CycleStart(ms, n - 1)
  }

  /** The messages since the last ReadyForQuery. */
  function Cycle(ms: seq<Msg>): seq<Msg> {
    ms[CycleStart(ms, |ms|)..]
  }

  /** The text of the last ErrorResponse among the first n messages. */
  function LastErrorIn(ms: seq<Msg>, n: nat): text
    requires n <= |ms|
  {
    if n == 0 then []
    else if ms[n - 1].kind == 'E' then ErrorText(ms[n - 1].payload)
    else LastErrorIn(ms, n - 1)
  }

  function LastErrorText(ms: seq<Msg>): text {
    LastErrorIn(ms, |ms|)
  }
}
