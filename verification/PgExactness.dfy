/** Exactly which client streams are attributed correctly in every run. */
module PgExactness {
  import opened PgCodec
  import opened PgCapture
  import opened PgSystem
  import opened PgSafety
  import opened PgGuarantees
  import opened PgRuns
  import opened PgSchedule
  import opened PgAttribution

  // ---- What attribution of all answers would take ----

  /** Group k of the messages holds one query. */
  predicate OneIn(ms: seq<Msg>, k: nat) {
    k < |Groups(ms)| && |Groups(ms)[k]| == 1
  }

  /** If all j answers are attributed, there were as many queries kept, and the
      first j groups of the client's messages hold one query each. */
  lemma AnswersNeed(st: State, j: nat)
    requires Inv(st) && Quiet(st.s, j) && Attributed(st)
    ensures j <= |Chosen(st.ch.log, true)|
    ensures forall k :: 0 <= k < j ==> OneIn(ClientMessages(st), k)
  {
    assert Handled(st.s) == st.s.relay.read;
    EventsLength(st.s.events);
  }

  lemma {:induction false} ChosenBounded(log: seq<Attempt>)
    ensures |Chosen(log, true)| <= |log|
  {
    if log != [] {
      ChosenBounded(log[..|log| - 1]);
    }
  }

  /** The messages before the one that ends the session. */
  function Heard(ms: seq<Msg>): (h: seq<Msg>)
    ensures h <= ms && (h != ms ==> ms[|h|].kind == 'X')
    ensures forall i :: 0 <= i < |h| ==> h[i].kind != 'X'
  {
    if ms == [] then []
    else
      var h := Heard(ms[..|ms| - 1]);
      if |h| == |ms| - 1 && ms[|h|].kind != 'X' then ms else h
  }

  /** The client stream is attributed correctly in every run. */
  predicate Attributable(ms: seq<Msg>) {
    var h := Heard(ms);
    CountKind(h, 'Q') == 0 && OnePerClosedGroup(h) && CountKind(h, 'S') <= 64
  }

  lemma HeardPlain(ms: seq<Msg>)
    requires CountKind(Heard(ms), 'Q') == 0
    ensures Plain(ms, |Heard(ms)|)
  {
    forall i | 0 <= i < |Heard(ms)|
      ensures ms[i].kind != 'Q' && ms[i].kind != 'X'
    {
      NoneIsNone(Heard(ms), 'Q', i);
    }
  }

  lemma AllBuffered(ch: Channel)
    requires ChannelInv(ch, [])
    ensures Chosen(ch.log, true) == ch.buffer && |ch.buffer| <= CAPACITY
  {
    assert [] + ch.buffer == ch.buffer;
  }

  lemma AllOffered(c: Client, log: seq<Attempt>)
    requires OffersInv(c, log) && c.pc == Reading
    ensures Queries(log) == Captures(c.relay.read)
  {
    assert Queries(log) + [] == Queries(log);
  }

  /** Before any answer is handled, what was accepted is still buffered. */
  lemma RelayedFacts(rules: Rules, st: State, ms: seq<Msg>, n: nat)
    requires RelayedTo(rules, st, ms, n)
    ensures ParseAll(st.c.relay.written) == ms[..n]
    ensures Chosen(st.ch.log, true) == st.ch.buffer && |st.ch.buffer| <= CAPACITY
    ensures Queries(st.ch.log) == Captures(ms[..n])
    ensures Quiet(st.s, 0)
  {
    ReachesReachable(rules, st);
    ReceiverSees(st.c.relay);
    AllBuffered(st.ch);
    AllOffered(st.c, st.ch.log);
  }

  lemma GroupsOfAnswers(h: seq<Msg>, ms: seq<Msg>, j: nat)
    requires h <= ms && j == CountKind(h, 'S')
    requires forall k :: 0 <= k < j ==> OneIn(ms, k)
    ensures OnePerClosedGroup(h)
  {
    GroupsPrefix(h, ms);
    forall k | 0 <= k < j
      ensures k < |Groups(h)| && |Groups(h)[k]| == 1
    {
      assert OneIn(ms, k);
    }
  }

  /** All of the stream up to its end is relayed, and then all Syncs are
      answered: if that is attributed, then every group held one query, and
      there were no more than 64. */
  lemma AnswerAfterwards(ms: seq<Msg>) returns (st: State)
    requires AllSized(ms) && CountKind(Heard(ms), 'Q') == 0
    ensures Reaches(AnyClient, st) && ClientMessages(st) == ms
    ensures Attributed(st) ==> Attributable(ms)
  {
    var h := Heard(ms);
    HeardPlain(ms);
    var relayed := RelayAll(AnyClient, ms, |h|);
    RelayedFacts(AnyClient, relayed, ms, |h|);
    assert ms[..|h|] == h;
    var j := CountKind(h, 'S');
    st := AnswerAll(AnyClient, relayed, j);
    ReachesReachable(AnyClient, st);
    if Attributed(st) {
      AnswersNeed(st, j);
      GroupsOfAnswers(h, ms, j);
    }
  }

  /** The first simple query of the stream. */
  lemma {:induction false} FirstSimple(ms: seq<Msg>, h: nat) returns (n: nat)
    requires h <= |ms| && CountKind(ms[..h], 'Q') > 0
    ensures n < h && ms[n].kind == 'Q' && CountKind(ms[..n], 'Q') == 0
  {
    assert ms[..h][..h - 1] == ms[..h - 1];
    if CountKind(ms[..h - 1], 'Q') > 0 {
      n := FirstSimple(ms, h - 1);
    } else {
      n := h - 1;
    }
  }

  /** The first simple query is written, and answered before it is offered: some
      answer then has no query, or the wrong one. */
  lemma AnswerBeforeOffer(ms: seq<Msg>, n: nat) returns (st: State)
    requires AllSized(ms) && n < |ms| && ms[n].kind == 'Q' && Plain(ms, n)
    ensures Reaches(AnyClient, st) && ClientMessages(st) == ms && !Attributed(st)
  {
    var relayed := RelayAll(AnyClient, ms, n);
    RelayedFacts(AnyClient, relayed, ms, n);
    var read := ReadNext(AnyClient, relayed, ms, n);
    var late := WriteNext(AnyClient, read, ms, n);
    ReachesReachable(AnyClient, late);
    ReceiverSees(late.c.relay);
    Longer(ms, n);
    CountSnoc(ms[..n], ms[n], 'S');
    CountSnoc(ms[..n], ms[n], 'Q');
    var j := CountKind(ms[..n], 'S') + 1;
    st := AnswerAll(AnyClient, late, j);
    ReachesReachable(AnyClient, st);
    TooFewQueries(st, ms, n);
  }

  /** An answer more than there are Syncs, with only the queries before the
      simple one offered. */
  lemma TooFewQueries(st: State, ms: seq<Msg>, n: nat)
    requires Inv(st) && ClientMessages(st) == ms && n < |ms| && ms[n].kind == 'Q'
    requires Quiet(st.s, CountKind(ms[..n], 'S') + 1) && Queries(st.ch.log) == Captures(ms[..n])
    ensures !Attributed(st)
  {
    if Attributed(st) {
      AnswersNeed(st, CountKind(ms[..n], 'S') + 1);
      SimpleInGroup(ms, n);
      ChosenBounded(st.ch.log);
      QueriesLength(st.ch.log);
    }
  }

  /** A simple query is one more in the open group. */
  lemma SimpleOpens(ms: seq<Msg>, m: Msg)
    requires m.kind == 'Q'
    ensures |Groups(ms + [m])| == |Groups(ms)|
    ensures |Groups(ms + [m])[CountKind(ms, 'S')]| == |OpenGroup(ms)| + 1
  {
    GroupsSnoc(ms, m);
  }

  /** If the group of a simple query holds nothing else, and the groups before
      it one query each, then only those were captured before. */
  lemma SimpleInGroup(ms: seq<Msg>, n: nat)
    requires n < |ms| && ms[n].kind == 'Q'
    requires forall k :: 0 <= k <= CountKind(ms[..n], 'S') ==> OneIn(ms, k)
    ensures |Captures(ms[..n])| == CountKind(ms[..n], 'S')
  {
    var before, j := ms[..n], CountKind(ms[..n], 'S');
    assert ms == before + ms[n..];
    GroupsOfAnswers(before, ms, j);
    CapturesByGroup(before);
    assert OneIn(ms, j);
    SimpleOpens(before, ms[n]);
    Longer(ms, n);
    assert ms == before + [ms[n]] + ms[n + 1..];
    GroupsPrefix(before + [ms[n]], ms);
  }

  // ---- The streams that are always attributed correctly ----

  /** The loop has read nothing after a message that ends the session. */
  predicate QuitInv(c: Client) {
    var read := c.relay.read;
    && (read != [] ==> CountKind(read[..|read| - 1], 'X') == 0)
    && (c.pc == Reading || c.pc.Offering? || c.pc.Late? ==> CountKind(read, 'X') == 0)
  }

  lemma ReadQuit(c: Client)
    requires QuitInv(c)
    ensures QuitInv(ReadClient(c))
  {
    if c.pc == Reading && Decode(c.relay.unread).Frame? {
      var m := Decode(c.relay.unread).msg;
      assert (c.relay.read + [m])[..|c.relay.read|] == c.relay.read;
      CountSnoc(c.relay.read, m, 'X');
    }
  }

  lemma WriteQuit(c: Client, n: nat)
    requires QuitInv(c)
    ensures QuitInv(WriteClient(c, n))
  {
  }

  lemma DoQuit(st: State, a: Action)
    requires QuitInv(st.c)
    ensures QuitInv(Do(st, a).c)
  {
    match a
    case ClientRead => ReadQuit(st.c);
    case ClientWrite(n) => WriteQuit(st.c, n);
    case ClientOffer => OfferDelivered(st.c, st.ch);
    case _ =>
  }

  lemma {:induction false} RunQuit(st: State, actions: seq<Action>)
    requires QuitInv(st.c)
    ensures QuitInv(Run(st, actions).c)
  {
    if actions != [] {
      RunQuit(st, actions[..|actions| - 1]);
      DoQuit(Run(st, actions[..|actions| - 1]), actions[|actions| - 1]);
    }
  }

  lemma OfferFirstKept(c: Client, ch: Channel, events: seq<Event>)
    requires ChannelInv(ch, events) && KeptFirst(ch.log, CAPACITY)
    ensures KeptFirst(OfferClient(c, ch).1.log, CAPACITY)
  {
    OfferLogs(c, ch);
    ChosenBounded(ch.log);
  }

  lemma DoFirstKept(st: State, a: Action)
    requires Inv(st) && KeptFirst(st.ch.log, CAPACITY)
    ensures KeptFirst(Do(st, a).ch.log, CAPACITY)
  {
    if a.ClientOffer? {
      OfferFirstKept(st.c, st.ch, st.s.events);
    } else {
      LogChangesByOffer(st, a);
    }
  }

  /** The first 64 queries offered are never dropped. */
  lemma {:induction false} RunFirstKept(st: State, actions: seq<Action>)
    requires Inv(st) && KeptFirst(st.ch.log, CAPACITY)
    ensures KeptFirst(Run(st, actions).ch.log, CAPACITY)
  {
    if actions != [] {
      var init := actions[..|actions| - 1];
      RunFirstKept(st, init);
      RunKeeps(st, init);
      DoFirstKept(Run(st, init), actions[|actions| - 1]);
    }
  }

  lemma ReachableFacts(st: State)
    requires Reachable(st)
    ensures QuitInv(st.c) && KeptFirst(st.ch.log, CAPACITY)
  {
    var cu, su, actions :| st == Run(Start(cu, su), actions);
    StartInv(cu, su);
    RunQuit(Start(cu, su), actions);
    RunFirstKept(Start(cu, su), actions);
  }

  lemma GroupsSnoc(ms: seq<Msg>, m: Msg)
    ensures var g := Groups(ms);
            var last := g[|g| - 1] + AsSeq(Offer(StateAfter(ms), m));
            Groups(ms + [m]) == g[..|g| - 1] + [last] + if m.kind == 'S' then [[]] else []
  {
    assert (ms + [m])[..|ms|] == ms;
  }

  lemma SplitLast<T>(s: seq<T>)
    requires s != []
    ensures s[..|s| - 1] + [s[|s| - 1]] + [] == s
  {
  }

  lemma QuitGroups(ms: seq<Msg>, m: Msg)
    requires m.kind == 'X'
    ensures Groups(ms + [m]) == Groups(ms)
  {
    var g := Groups(ms);
    GroupsSnoc(ms, m);
    assert g[|g| - 1] + [] == g[|g| - 1];
    SplitLast(g);
  }

  /** A stretch of the stream with an end of session at most as its last message
      does not go beyond the first one. */
  lemma UpToEnd(d: seq<Msg>, ms: seq<Msg>)
    requires d <= ms && (d != [] ==> CountKind(d[..|d| - 1], 'X') == 0)
    ensures d <= Heard(ms) || (|d| == |Heard(ms)| + 1 && d[..|Heard(ms)|] == Heard(ms) && d[|Heard(ms)|].kind == 'X')
  {
    var h := Heard(ms);
    if |d| > |h| + 1 {
      NoneIsNone(d[..|d| - 1], 'X', |h|);
    }
  }

  lemma PrefixQuit(d: seq<Msg>, read: seq<Msg>)
    requires d <= read && (read != [] ==> CountKind(read[..|read| - 1], 'X') == 0)
    ensures d != [] ==> CountKind(d[..|d| - 1], 'X') == 0
  {
    if d != [] {
      CountKindPrefix(d[..|d| - 1], read[..|read| - 1], 'X');
    }
  }

  /** What the server receives of the stream is no more than what comes before
      its end, and the message that ends it. */
  lemma DeliveredHeard(st: State, ms: seq<Msg>)
    requires Inv(st) && QuitInv(st.c) && ClientMessages(st) == ms
    ensures var d, h := Delivered(st.c.relay), Heard(ms);
            d <= h || (|d| == |h| + 1 && d[..|h|] == h && d[|h|].kind == 'X')
  {
    ReadIsSent(st);
    PrefixQuit(Delivered(st.c.relay), st.c.relay.read);
    UpToEnd(Delivered(st.c.relay), ms);
  }

  lemma AttributableClean(st: State, ms: seq<Msg>)
    requires Inv(st) && QuitInv(st.c) && KeptFirst(st.ch.log, CAPACITY)
    requires ClientMessages(st) == ms && Attributable(ms)
    ensures Clean(st)
  {
    var d, h := Delivered(st.c.relay), Heard(ms);
    DeliveredHeard(st, ms);
    if d <= h {
      CountKindPrefix(d, h, 'Q');
      CountKindPrefix(d, h, 'S');
      ClosedPrefix(d, h);
    } else {
      assert d == h + [d[|h|]];
      CountSnoc(h, d[|h|], 'Q');
      CountSnoc(h, d[|h|], 'S');
      QuitGroups(h, d[|h|]);
    }
  }

  /** The queries of a client stream are attributed correctly in every run with
      an orderly server exactly when, up to the end of the session, it has no
      simple query, one query in each group closed by a Sync, and at most 64
      such groups. */
  lemma AttributedExactly(ms: seq<Msg>)
    requires AllSized(ms)
    ensures (forall st :: Reaches(AnyClient, st) && ClientMessages(st) == ms ==> Attributed(st)) <==> Attributable(ms)
  {
    if Attributable(ms) {
      forall st | Reaches(AnyClient, st) && ClientMessages(st) == ms
        ensures Attributed(st)
      {
        ReachesReachable(AnyClient, st);
        ReachableFacts(st);
        AttributableClean(st, ms);
        Attribution(st);
      }
    } else {
      var st := Misattributed(ms);
    }
  }

  /** The run that goes wrong. */
  lemma Misattributed(ms: seq<Msg>) returns (st: State)
    requires AllSized(ms) && !Attributable(ms)
    ensures Reaches(AnyClient, st) && ClientMessages(st) == ms && !Attributed(st)
  {
    var h := Heard(ms);
    if CountKind(h, 'Q') == 0 {
      st := AnswerAfterwards(ms);
    } else {
      assert ms[..|h|] == h;
      var n := FirstSimple(ms, |h|);
      forall i | 0 <= i < n
        ensures ms[i].kind != 'Q' && ms[i].kind != 'X'
      {
        NoneIsNone(ms[..n], 'Q', i);
        assert h[i] == ms[i];
      }
      st := AnswerBeforeOffer(ms, n);
    }
  }
}
