/** When each query is reported with its own response. Events are matched to
    queries only by their order, so this needs a client whose groups hold one
    query each, a server that answers what it has received, and queries that
    are not dropped. */
module PgAttribution {
  import opened Bytes
  import opened PgCodec
  import opened PgCapture
  import opened PgSystem
  import opened PgSafety
  import opened PgGuarantees
  import opened PgRuns

  predicate NothingDropped(st: State) {
    Chosen(st.ch.log, false) == []
  }

  /** None of the first n attempts was dropped. */
  ghost predicate KeptFirst(log: seq<Attempt>, n: nat) {
    forall i :: 0 <= i < n && i < |log| ==> log[i].accepted
  }

  /** Event k carries the query of group k and comes from the server's k-th
      ReadyForQuery; every ReadyForQuery handled so far has produced one. */
  predicate Attributed(st: State) {
    var groups := Groups(ClientMessages(st));
    && |st.s.at| == |st.s.events| == CountKind(Handled(st.s), 'Z')
    && (forall k :: 0 <= k < |st.s.events| ==> k < |groups| && groups[k] == [st.s.events[k].query])
    && (forall k :: 0 <= k < |st.s.at| ==>
          && st.s.at[k] < |st.s.relay.read|
          && st.s.relay.read[st.s.at[k]].kind == 'Z'
          && CountKind(st.s.relay.read[..st.s.at[k]], 'Z') == k)
  }

  /** What the server has received is in order: no simple query, one query in
      each group it has a Sync for, and none of these was dropped. */
  ghost predicate Clean(st: State) {
    var ms := Delivered(st.c.relay);
    CountKind(ms, 'Q') == 0 && OnePerClosedGroup(ms) && KeptFirst(st.ch.log, CountKind(ms, 'S'))
  }

  // ---- Histories ----

  lemma {:induction false} CapturesPrefix(a: seq<Msg>, b: seq<Msg>)
    requires a <= b
    ensures Captures(a) <= Captures(b)
    decreases |b|
  {
    if a != b {
      CapturesPrefix(a, b[..|b| - 1]);
    } else {
      assert a == b;
    }
  }

  lemma {:induction false} NoneIsNone(ms: seq<Msg>, kind: byte, i: nat)
    requires CountKind(ms, kind) == 0 && i < |ms|
    ensures ms[i].kind != kind
  {
    if i < |ms| - 1 {
      NoneIsNone(ms[..|ms| - 1], kind, i);
    }
  }

  lemma {:induction false} AllAccepted(log: seq<Attempt>)
    requires Chosen(log, false) == []
    ensures Chosen(log, true) == Queries(log)
  {
    if log != [] {
      AllAccepted(log[..|log| - 1]);
    }
  }

  lemma {:induction false} EventQuery(events: seq<Event>, k: nat)
    requires k < |events|
    ensures |EventQueries(events)| == |events| && EventQueries(events)[k] == events[k].query
  {
    var init := events[..|events| - 1];
    if k < |init| {
      EventQuery(init, k);
    } else if init != [] {
      EventQuery(init, 0);
    }
  }

  lemma {:induction false} KeptAll(log: seq<Attempt>)
    requires KeptFirst(log, |log|)
    ensures Chosen(log, true) == Queries(log) && |Queries(log)| == |log|
  {
    if log != [] {
      var init, a := log[..|log| - 1], log[|log| - 1];
      assert log == init + [a];
      KeptAll(init);
      QueriesSnoc(init, a);
    }
  }

  /** What was kept comes out of the channel in the order it was offered. */
  lemma {:induction false} KeptChosen(log: seq<Attempt>, n: nat)
    requires n <= |log| && KeptFirst(log, n)
    ensures |Queries(log)| == |log| && n <= |Chosen(log, true)|
    ensures forall k :: 0 <= k < n ==> Chosen(log, true)[k] == Queries(log)[k]
    decreases |log|
  {
    if n == |log| {
      KeptAll(log);
    } else {
      var init, a := log[..|log| - 1], log[|log| - 1];
      assert log == init + [a];
      KeptChosen(init, n);
      QueriesSnoc(init, a);
    }
  }

  lemma ReadIsSent(st: State)
    requires Inv(st)
    ensures st.c.relay.read <= ClientMessages(st)
    ensures ParseAll(st.c.relay.written) == Delivered(st.c.relay) <= st.c.relay.read
    ensures st.s.relay.read <= ParseAll(st.s.relay.sent)
    ensures ParseAll(st.s.relay.written) == Delivered(st.s.relay)
  {
    SenderSent(st.c.relay);
    SenderSent(st.s.relay);
    ReceiverSees(st.c.relay);
    ReceiverSees(st.s.relay);
  }

  lemma LateIsSimple(c: Client)
    requires AtPc(c)
    ensures c.pc.Late? ==> CountKind(Delivered(c.relay), 'Q') > 0
  {
  }

  lemma DropLast<T>(a: seq<T>, b: seq<T>, x: T)
    requires a + [x] == b + [x]
    ensures a == b
  {
    assert (a + [x])[..|a|] == a && (b + [x])[..|b|] == b;
  }

  /** A simple query that is being written is the only one not offered. */
  lemma WritingSimple(c: Client, log: seq<Attempt>)
    requires OffersInv(c, log) && AtPc(c) && Unoffered(c) != [] && !c.pc.Offering? && !c.pc.Late?
    ensures Captures(Delivered(c.relay)) == Queries(log)
  {
    var init, q := c.relay.read[..|c.relay.read| - 1], Unoffered(c)[0];
    assert Captures(c.relay.read) == Captures(init) + [q];
    DropLast(Queries(log), Captures(init), q);
  }

  /** The server has not received a query before it was offered, except for a
      simple query. */
  lemma OfferedBeforeDelivered(c: Client, log: seq<Attempt>)
    requires ClientInv(c, log) && CountKind(Delivered(c.relay), 'Q') == 0
    ensures Captures(Delivered(c.relay)) <= Queries(log)
  {
    LateIsSimple(c);
    if Unoffered(c) == [] {
      assert Queries(log) + [] == Queries(log);
      CapturesPrefix(Delivered(c.relay), c.relay.read);
    } else if !c.pc.Offering? {
      WritingSimple(c, log);
    }
  }

  // ---- One step ----

  /** Every ReadyForQuery handled so far has produced an event. */
  ghost predicate InStep(st: State) {
    Inv(st) && Counted(st.s)
  }

  predicate Counted(s: Server) {
    |s.events| == CountKind(Handled(s), 'Z')
  }

  /** The server has handled no more than it was asked for. */
  lemma AnsweredAsked(st: State)
    requires Inv(st) && ServerOk(st) && CountKind(Delivered(st.c.relay), 'Q') == 0
    ensures CountKind(st.s.relay.read, 'Z') <= CountKind(Delivered(st.c.relay), 'S')
  {
    ReadIsSent(st);
    CountKindPrefix(st.s.relay.read, ParseAll(st.s.relay.sent), 'Z');
  }

  /** The queries of the groups the server has a Sync for were all accepted. */
  lemma GroupsAccepted(st: State)
    requires Inv(st) && Clean(st)
    ensures var n := CountKind(Delivered(st.c.relay), 'S');
            && n <= |Captures(Delivered(st.c.relay))| && n <= |Chosen(st.ch.log, true)|
            && forall k :: 0 <= k < n ==> Chosen(st.ch.log, true)[k] == Captures(Delivered(st.c.relay))[k]
  {
    var ms := Delivered(st.c.relay);
    CapturesByGroup(ms);
    OfferedBeforeDelivered(st.c, st.ch.log);
    QueriesLength(st.ch.log);
    KeptChosen(st.ch.log, CountKind(ms, 'S'));
  }

  lemma EventsLength(events: seq<Event>)
    ensures |EventQueries(events)| == |events|
  {
    if events != [] {
      EventQuery(events, 0);
    }
  }

  /** By the time the server answers a Sync, its group's query is buffered. */
  lemma BufferedInTime(st: State)
    requires InStep(st) && ServerOk(st) && Clean(st)
    requires st.s.pc == Handling && Last(st.s.relay).kind == 'Z'
    ensures st.ch.buffer != []
  {
    HandledStep(st.s);
    CountSnoc(Handled(st.s), Last(st.s.relay), 'Z');
    AnsweredAsked(st);
    GroupsAccepted(st);
    EventsLength(st.s.events);
  }

  lemma HandleCounts(s: Server, ch: Channel)
    requires ServerInv(s) && Counted(s)
    requires s.pc == Handling && Last(s.relay).kind == 'Z' ==> ch.buffer != []
    ensures Counted(HandleServer(s, ch).0)
  {
    if s.pc == Handling {
      HandledStep(s);
      CountSnoc(Handled(s), Last(s.relay), 'Z');
    }
  }

  lemma HandleIs(st: State)
    ensures Do(st, ServerHandle).s == HandleServer(st.s, st.ch).0
  {
  }

  lemma HandleCounted(st: State)
    requires InStep(st) && ServerOk(st) && Clean(st)
    ensures Counted(Do(st, ServerHandle).s)
  {
    if st.s.pc == Handling && Last(st.s.relay).kind == 'Z' {
      BufferedInTime(st);
    }
    HandleCounts(st.s, st.ch);
    HandleIs(st);
  }

  lemma ReadServerHandled(s: Server)
    requires ServerInv(s)
    ensures ReadServer(s).events == s.events && Handled(ReadServer(s)) == Handled(s)
  {
    if s.pc == Waiting && Decode(s.relay.unread).Frame? {
      var m := Decode(s.relay.unread).msg;
      assert (s.relay.read + [m])[..|s.relay.read|] == s.relay.read;
    }
  }

  lemma WriteServerHandled(s: Server, n: nat)
    requires ServerInv(s)
    ensures WriteServer(s, n).events == s.events && Handled(WriteServer(s, n)) == Handled(s)
  {
  }

  /** The actions other than handling change neither the events nor which
      messages have been handled. */
  lemma OtherKeepsHandled(st: State, a: Action)
    requires ServerInv(st.s) && !a.ServerHandle?
    ensures Do(st, a).s.events == st.s.events
    ensures Handled(Do(st, a).s) == Handled(st.s)
  {
    match a
    case ServerRead => ReadServerHandled(st.s);
    case ServerWrite(n) => WriteServerHandled(st.s, n);
    case _ =>
  }

  lemma OtherCounted(st: State, a: Action)
    requires InStep(st) && !a.ServerHandle?
    ensures Counted(Do(st, a).s)
  {
    OtherKeepsHandled(st, a);
  }

  lemma StepInStep(st: State, a: Action)
    requires InStep(st) && ServerOk(st) && Clean(st)
    ensures InStep(Do(st, a))
  {
    DoKeeps(st, a);
    if a.ServerHandle? {
      HandleCounted(st);
    } else {
      OtherCounted(st, a);
    }
  }

  // ---- What an action leaves behind ----

  lemma ReadDelivered(c: Client)
    requires RelayInv(c.relay) && AtPc(c)
    ensures Delivered(ReadClient(c).relay) == Delivered(c.relay)
  {
    if c.pc == Reading && Decode(c.relay.unread).Frame? {
      var m := Decode(c.relay.unread).msg;
      assert (c.relay.read + [m])[..|c.relay.read|] == c.relay.read;
    }
  }

  lemma WriteDelivered(c: Client, n: nat)
    requires RelayInv(c.relay)
    ensures Delivered(c.relay) <= Delivered(WriteClient(c, n).relay)
  {
  }

  lemma OfferDelivered(c: Client, ch: Channel)
    ensures OfferClient(c, ch).0.relay == c.relay
  {
  }

  lemma DeliveredGrows(st: State, a: Action)
    requires Inv(st)
    ensures Delivered(st.c.relay) <= Delivered(Do(st, a).c.relay)
  {
    match a
    case ClientRead => ReadDelivered(st.c);
    case ClientOffer => OfferDelivered(st.c, st.ch);
    case ClientWrite(n) => WriteDelivered(st.c, n);
    case _ =>
  }

  lemma LogGrows(st: State, a: Action)
    ensures st.ch.log <= Do(st, a).ch.log
  {
  }

  /** What is in order now was in order before. */
  lemma CleanBefore(st: State, a: Action)
    requires Inv(st) && Clean(Do(st, a))
    ensures Clean(st)
  {
    var before, after := Delivered(st.c.relay), Delivered(Do(st, a).c.relay);
    DeliveredGrows(st, a);
    LogGrows(st, a);
    CountKindPrefix(before, after, 'Q');
    CountKindPrefix(before, after, 'S');
    ClosedPrefix(before, after);
    KeptBefore(st.ch.log, Do(st, a).ch.log, CountKind(before, 'S'), CountKind(after, 'S'));
  }

  lemma KeptBefore(log: seq<Attempt>, log': seq<Attempt>, n: nat, n': nat)
    requires log <= log' && n <= n' && KeptFirst(log', n')
    ensures KeptFirst(log, n)
  {
    forall i | 0 <= i < n && i < |log|
      ensures log[i].accepted
    {
      assert log'[i].accepted;
    }
  }

  // ---- Whole runs ----

  lemma StateInv(cu: text, su: text, actions: seq<Action>, n: nat)
    requires n <= |actions|
    ensures Inv(StateAfterActions(cu, su, actions, n))
  {
    StartInv(cu, su);
    RunKeeps(Start(cu, su), actions[..n]);
  }

  lemma CleanEarlier(cu: text, su: text, actions: seq<Action>, n: nat)
    requires n < |actions| && Clean(StateAfterActions(cu, su, actions, n + 1))
    ensures Clean(StateAfterActions(cu, su, actions, n))
  {
    RunStep(cu, su, actions, n);
    StateInv(cu, su, actions, n);
    CleanBefore(StateAfterActions(cu, su, actions, n), actions[n]);
  }

  lemma InStepLater(cu: text, su: text, actions: seq<Action>, n: nat)
    requires n < |actions| && InStep(StateAfterActions(cu, su, actions, n))
    requires Lawful(AnyClient, cu, su, actions) && Clean(StateAfterActions(cu, su, actions, n))
    ensures InStep(StateAfterActions(cu, su, actions, n + 1))
  {
    assert Allowed(AnyClient, StateAfterActions(cu, su, actions, n));
    RunStep(cu, su, actions, n);
    StepInStep(StateAfterActions(cu, su, actions, n), actions[n]);
  }

  lemma StartInStep(cu: text, su: text, actions: seq<Action>)
    ensures InStep(StateAfterActions(cu, su, actions, 0))
  {
    StartInv(cu, su);
    assert actions[..0] == [];
  }

  ghost predicate Tracked(st: State) {
    Clean(st) ==> InStep(st)
  }

  lemma TrackedLater(cu: text, su: text, actions: seq<Action>, n: nat)
    requires n < |actions| && Lawful(AnyClient, cu, su, actions)
    requires Tracked(StateAfterActions(cu, su, actions, n))
    ensures Tracked(StateAfterActions(cu, su, actions, n + 1))
  {
    if Clean(StateAfterActions(cu, su, actions, n + 1)) {
      CleanEarlier(cu, su, actions, n);
      InStepLater(cu, su, actions, n);
    }
  }

  lemma {:induction false} RunTracked(cu: text, su: text, actions: seq<Action>, n: nat)
    requires n <= |actions| && Lawful(AnyClient, cu, su, actions)
    ensures Tracked(StateAfterActions(cu, su, actions, n))
  {
    if n == 0 {
      StartInStep(cu, su, actions);
    } else {
      RunTracked(cu, su, actions, n - 1);
      TrackedLater(cu, su, actions, n - 1);
    }
  }

  /** When every ReadyForQuery handled has produced an event, the events'
      positions are all of them. */
  lemma EventPositions(s: Server)
    requires EventsInv(s.relay.read, |Handled(s)|, s.events, s.at) && Counted(s)
    ensures forall k :: 0 <= k < |s.at| ==>
              && s.at[k] < |s.relay.read|
              && s.relay.read[s.at[k]].kind == 'Z'
              && CountKind(s.relay.read[..s.at[k]], 'Z') == k
  {
    assert s.relay.read[..|Handled(s)|] == Handled(s);
    PositionsExact(s.relay.read, |Handled(s)|, s.at);
  }

  /** As many increasing positions of ReadyForQuery messages as there are such
      messages: they are all of them. */
  lemma {:induction false} PositionsExact(ms: seq<Msg>, h: nat, at: seq<nat>)
    requires h <= |ms|
    requires forall k :: 0 <= k < |at| ==> at[k] < h && ms[at[k]].kind == 'Z'
    requires forall k, l :: 0 <= k < l < |at| ==> at[k] < at[l]
    requires |at| == CountKind(ms[..h], 'Z')
    ensures forall k :: 0 <= k < |at| ==> CountKind(ms[..at[k]], 'Z') == k
  {
    if h > 0 {
      assert ms[..h][..h - 1] == ms[..h - 1];
      if ms[h - 1].kind == 'Z' {
        var init := at[..|at| - 1];
        assert at[|at| - 1] == h - 1 by {
          if at[|at| - 1] < h - 1 {
            PositionsBound(ms[..h - 1], at);
          }
        }
        PositionsExact(ms, h - 1, init);
      } else {
        PositionsExact(ms, h - 1, at);
      }
    }
  }

  /** Queries that were kept come out in the order of the groups. */
  lemma EventGroup(st: State, k: nat)
    requires InStep(st) && ServerOk(st) && Clean(st) && k < |st.s.events|
    ensures k < |Groups(ClientMessages(st))| && Groups(ClientMessages(st))[k] == [st.s.events[k].query]
  {
    var ms := Delivered(st.c.relay);
    CountKindPrefix(Handled(st.s), st.s.relay.read, 'Z');
    AnsweredAsked(st);
    GroupsAccepted(st);
    EventQuery(st.s.events, k);
    CapturesByGroup(ms);
    ReadIsSent(st);
    GroupsPrefix(ms, ClientMessages(st));
  }

  lemma InStepAttributed(st: State)
    requires InStep(st) && ServerOk(st) && Clean(st)
    ensures Attributed(st)
  {
    forall k | 0 <= k < |st.s.events|
      ensures k < |Groups(ClientMessages(st))| && Groups(ClientMessages(st))[k] == [st.s.events[k].query]
    {
      EventGroup(st, k);
    }
    EventPositions(st.s);
  }

  /** Attribution: in every interleaving, and whatever the client sends, as long
      as what the server has received is in order the k-th ReadyForQuery reports
      the k-th group's query. */
  lemma Attribution(st: State)
    requires Reaches(AnyClient, st) && Clean(st)
    ensures Attributed(st)
  {
    var cu, su, actions :| Lawful(AnyClient, cu, su, actions) && st == Run(Start(cu, su), actions);
    assert actions[..|actions|] == actions;
    RunTracked(cu, su, actions, |actions|);
    assert Allowed(AnyClient, StateAfterActions(cu, su, actions, |actions|));
    InStepAttributed(st);
  }

  // ---- A window that rules out drops ----

  const WINDOW := 63

  /** A ReadyForQuery reaches the client before its event is taken from the
      channel, so the client may be one answer ahead, and no more. */
  lemma OneAhead(s: Server)
    requires ServerInv(s)
    ensures CountKind(Delivered(s.relay), 'Z') <= CountKind(Handled(s), 'Z') + 1
  {
    if s.pc == Handling {
      HandledStep(s);
      CountSnoc(Handled(s), Last(s.relay), 'Z');
    }
  }

  /** A client that keeps to its rules keeps the server's view in order. */
  lemma ClientOkClean(st: State)
    requires Inv(st) && ClientOk(st) && NothingDropped(st)
    ensures Clean(st)
  {
    var ms, seen := ClientMessages(st), Delivered(st.c.relay);
    ReadIsSent(st);
    CountKindPrefix(seen, ms, 'Q');
    ClosedPrefix(seen, ms);
    AllKept(st.ch.log);
  }

  lemma {:induction false} AllKept(log: seq<Attempt>)
    requires Chosen(log, false) == []
    ensures forall n: nat :: KeptFirst(log, n)
  {
    if log != [] {
      var init, a := log[..|log| - 1], log[|log| - 1];
      assert log == init + [a];
      QueriesSnoc(init, a);
      AllKept(init);
      assert KeptFirst(init, |init|);
      assert a.accepted;
    }
  }

  lemma RoomForOffer(st: State, window: nat)
    requires InStep(st) && NothingDropped(st) && ClientOk(st) && WindowOk(st, window) && window <= WINDOW
    requires st.c.pc.Offering?
    ensures |st.ch.buffer| < CAPACITY
  {
    var ms, read := ClientMessages(st), st.c.relay.read;
    ReadIsSent(st);
    CapturesPrefix(read, ms);
    CapturesByGroup(ms);
    assert |Captures(read)| <= Started(ms);
    QueriesLength(st.ch.log);
    AllAccepted(st.ch.log);
    OneAhead(st.s);
    EventsLength(st.s.events);
  }

  /** A client that sends no simple query never has one waiting to be offered. */
  lemma NoneLate(st: State)
    requires Inv(st) && ClientOk(st)
    ensures !st.c.pc.Late?
  {
    if st.c.pc.Late? {
      ReadIsSent(st);
      CountKindPrefix(st.c.relay.read, ClientMessages(st), 'Q');
    }
  }

  lemma OfferLogs(c: Client, ch: Channel)
    ensures var log := OfferClient(c, ch).1.log;
            if c.pc.Offering? || c.pc.Late? then log == ch.log + [Attempt(c.pc.q, |ch.buffer| < CAPACITY)]
            else log == ch.log
  {
  }

  lemma OfferNotDropped(st: State, window: nat)
    requires InStep(st) && NothingDropped(st) && ClientOk(st) && WindowOk(st, window) && window <= WINDOW
    ensures NothingDropped(Do(st, ClientOffer))
  {
    NoneLate(st);
    OfferLogs(st.c, st.ch);
    if st.c.pc.Offering? {
      RoomForOffer(st, window);
      QueriesSnoc(st.ch.log, Attempt(st.c.pc.q, true));
    }
  }

  lemma LogChangesByOffer(st: State, a: Action)
    requires !a.ClientOffer?
    ensures Do(st, a).ch.log == st.ch.log
  {
  }

  lemma WindowStep(st: State, a: Action, window: nat)
    requires InStep(st) && NothingDropped(st) && Allowed(Windowed(window), st) && window <= WINDOW
    ensures InStep(Do(st, a)) && NothingDropped(Do(st, a))
  {
    ClientOkClean(st);
    StepInStep(st, a);
    if a.ClientOffer? {
      OfferNotDropped(st, window);
    } else {
      LogChangesByOffer(st, a);
    }
  }

  lemma {:induction false} WindowInStep(cu: text, su: text, actions: seq<Action>, n: nat, window: nat)
    requires n <= |actions| && Lawful(Windowed(window), cu, su, actions) && window <= WINDOW
    ensures InStep(StateAfterActions(cu, su, actions, n))
    ensures NothingDropped(StateAfterActions(cu, su, actions, n))
  {
    if n == 0 {
      StartInv(cu, su);
    } else {
      RunStep(cu, su, actions, n - 1);
      WindowInStep(cu, su, actions, n - 1, window);
      assert Allowed(Windowed(window), StateAfterActions(cu, su, actions, n - 1));
      WindowStep(StateAfterActions(cu, su, actions, n - 1), actions[n - 1], window);
    }
  }

  /** With at most 63 unanswered groups the channel never overflows, so
      attribution needs no assumption about the proxy at all. */
  lemma AttributionByWindow(st: State, window: nat)
    requires Reaches(Windowed(window), st) && window <= 63
    ensures NothingDropped(st) && Attributed(st)
  {
    var cu, su, actions :| Lawful(Windowed(window), cu, su, actions) && st == Run(Start(cu, su), actions);
    assert actions[..|actions|] == actions;
    WindowInStep(cu, su, actions, |actions|, window);
    assert Allowed(Windowed(window), StateAfterActions(cu, su, actions, |actions|));
    ClientOkClean(st);
    InStepAttributed(st);
  }
}
