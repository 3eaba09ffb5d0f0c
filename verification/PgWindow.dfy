/** How many unanswered groups the channel can bear, and streams at which
    attribution goes wrong. */
module PgWindow {
  import opened Bytes
  import opened Options
  import opened PgCodec
  import opened PgFields
  import opened PgCapture
  import opened PgSystem
  import opened PgSafety
  import opened PgGuarantees
  import opened PgRuns
  import opened PgSchedule
  import opened PgAttribution
  import opened PgExactness

  const QUERY: text := "q"
  const TYPES: text := [NUL, NUL]

  /** An unnamed statement with this query and no parameter types. */
  const PARSE := Msg('P', [] + [NUL] + (QUERY + [NUL] + TYPES))
  const SYNC := Msg('S', [])
  const SIMPLE := Msg('Q', QUERY + [NUL])

  /** k groups of one query each. */
  function Pipelined(k: nat): seq<Msg> {
    if k == 0 then [] else Pipelined(k - 1) + [PARSE] + [SYNC]
  }

  lemma ParseOffers(c: Capture)
    ensures Offer(c, PARSE) == Some(QUERY) && Sized(PARSE) && Sized(SYNC)
  {
    FieldsOfTwoStrings([], QUERY, TYPES);
  }

  /** Appending a Parse puts its query into the open group. */
  lemma ParseOpens(ms: seq<Msg>)
    ensures CountKind(ms + [PARSE], 'S') == CountKind(ms, 'S')
    ensures Groups(ms + [PARSE])[..CountKind(ms, 'S')] == Groups(ms)[..CountKind(ms, 'S')]
    ensures OpenGroup(ms + [PARSE]) == OpenGroup(ms) + [QUERY]
  {
    ParseOffers(StateAfter(ms));
    GroupsSnoc(ms, PARSE);
    CountSnoc(ms, PARSE, 'S');
  }

  /** A Sync closes the open group. */
  lemma SyncCloses(ms: seq<Msg>)
    ensures CountKind(ms + [SYNC], 'S') == CountKind(ms, 'S') + 1
    ensures Groups(ms + [SYNC])[..CountKind(ms, 'S') + 1] == Groups(ms)
    ensures OpenGroup(ms + [SYNC]) == []
  {
    var g := Groups(ms);
    GroupsSnoc(ms, SYNC);
    CountSnoc(ms, SYNC, 'S');
    assert g[|g| - 1] + [] == g[|g| - 1];
    Extended(g, []);
  }

  lemma Extended<T>(g: seq<T>, x: T)
    requires g != []
    ensures (g[..|g| - 1] + [g[|g| - 1]] + [x])[..|g|] == g
    ensures (g[..|g| - 1] + [g[|g| - 1]] + [x])[|g|] == x
  {
  }

  /** A stream of well-sized messages without simple queries or an end. */
  ghost predicate Quietly(ms: seq<Msg>) {
    AllSized(ms) && CountKind(ms, 'Q') == 0 && Plain(ms, |ms|)
  }

  lemma QuietlySnoc(ms: seq<Msg>, m: Msg)
    requires Quietly(ms) && Sized(m) && m.kind != 'Q' && m.kind != 'X'
    ensures Quietly(ms + [m])
  {
    CountSnoc(ms, m, 'Q');
  }

  lemma {:induction false} PipelinedQuietly(k: nat)
    ensures Quietly(Pipelined(k)) && |Pipelined(k)| == 2 * k
  {
    if k > 0 {
      PipelinedQuietly(k - 1);
      ParseOffers(FRESH);
      QuietlySnoc(Pipelined(k - 1), PARSE);
      QuietlySnoc(Pipelined(k - 1) + [PARSE], SYNC);
    }
  }

  lemma ClosesOne(ms: seq<Msg>)
    requires OnePerClosedGroup(ms) && OpenGroup(ms) == []
    ensures OnePerClosedGroup(ms + [PARSE] + [SYNC])
  {
    var n, g, g1, g2 := CountKind(ms, 'S'), Groups(ms), Groups(ms + [PARSE]), Groups(ms + [PARSE] + [SYNC]);
    ParseOpens(ms);
    SyncCloses(ms + [PARSE]);
    forall k | 0 <= k < |g2| - 1
      ensures |g2[k]| == 1
    {
      assert g2[k] == g2[..n + 1][k] == g1[k];
      if k < n {
        assert g1[k] == g1[..n][k] == g[k];
      }
    }
  }

  /** n closed groups of one query each, and nothing in the open one. */
  predicate Complete(ms: seq<Msg>, n: nat) {
    CountKind(ms, 'S') == n && OnePerClosedGroup(ms) && OpenGroup(ms) == []
  }

  lemma CompleteStep(ms: seq<Msg>, n: nat)
    requires Complete(ms, n)
    ensures Complete(ms + [PARSE] + [SYNC], n + 1)
  {
    ClosesOne(ms);
    ParseOpens(ms);
    SyncCloses(ms + [PARSE]);
  }

  lemma {:induction false} PipelinedComplete(k: nat)
    ensures Complete(Pipelined(k), k)
  {
    if k > 0 {
      PipelinedComplete(k - 1);
      CompleteStep(Pipelined(k - 1), k - 1);
    }
  }

  // ---- 64 unanswered groups are too many ----

  lemma StartAllowed(ms: seq<Msg>, window: nat)
    requires AllSized(ms) && CountKind(ms, 'Q') == 0 && OnePerClosedGroup(ms) && OpenGroup(ms) == []
    requires CountKind(ms, 'S') <= window
    ensures Allowed(Windowed(window), Start(EncodeAll(ms), []))
  {
    ParseEncodeAll(ms, []);
    assert EncodeAll(ms) + [] == EncodeAll(ms) && ms + [] == ms;
  }

  lemma AllKeptFit(ms: seq<Msg>, log: seq<Attempt>, k: nat)
    requires Complete(ms, k) && k == CAPACITY && KeptFirst(log, k) && Queries(log) == Captures(ms)
    ensures |Chosen(log, true)| == k
  {
    CapturesByGroup(ms);
    QueriesLength(log);
    KeptAll(log);
  }

  /** k groups, as many as the channel holds, have been sent and relayed, and
      none of them answered: the channel is full. */
  lemma FullChannel(window: nat, k: nat) returns (st: State)
    requires window >= k == CAPACITY
    ensures RelayedTo(Windowed(window), st, Pipelined(k), 2 * k) && |st.ch.buffer| == k
    ensures ParseAll(st.c.relay.written) == Pipelined(k) && Quiet(st.s, 0) && st.c.relay.unread == []
  {
    var ms := Pipelined(k);
    PipelinedQuietly(k);
    PipelinedComplete(k);
    StartAllowed(ms, window);
    st := RelayAll(Windowed(window), ms, |ms|);
    RelayedFacts(Windowed(window), st, ms, |ms|);
    assert ms[..|ms|] == ms;
    ReachesReachable(Windowed(window), st);
    ReachableFacts(st);
    AllKeptFit(ms, st.ch.log, k);
  }

  /** The client, one answer later, sends the query of another group. */
  lemma OneMoreAllowed(st: State, st': State, ms: seq<Msg>, window: nat)
    requires Allowed(Windowed(window), st) && ClientMessages(st) == ms && OpenGroup(ms) == []
    requires st'.s == st.s && st'.c.relay.written == st.c.relay.written && ClientMessages(st') == ms + [PARSE]
    requires CountKind(ParseAll(st.s.relay.written), 'Z') + window > CountKind(ms, 'S')
    ensures Allowed(Windowed(window), st')
  {
    CountSnoc(ms, PARSE, 'Q');
    ParseOpens(ms);
    ParseCloses(ms);
    assert [] + [QUERY] == [QUERY];
  }

  lemma ParseCloses(ms: seq<Msg>)
    requires OnePerClosedGroup(ms)
    ensures OnePerClosedGroup(ms + [PARSE])
  {
    var n, g, g1 := CountKind(ms, 'S'), Groups(ms), Groups(ms + [PARSE]);
    ParseOpens(ms);
    forall k | 0 <= k < |g1| - 1
      ensures |g1[k]| == 1
    {
      assert g1[k] == g1[..n][k] == g[k];
    }
  }

  lemma SentMore(r: Relay, r': Relay, ms: seq<Msg>)
    requires RelayInv(r) && ParseAll(r.sent) == r.read == ms && r.unread == []
    requires r' == Arrive(r, Encode(PARSE))
    ensures ParseAll(r'.sent) == ms + [PARSE]
  {
    ArriveKeeps(r, Encode(PARSE));
    SenderSent(r');
    ParseOffers(FRESH);
    assert r'.unread == Encode(PARSE) + [];
    ParseOne(PARSE, []);
  }

  /** The query of the 65th group is dropped: the client has received the first
      answer, but its event is still in the channel. */
  lemma DroppedBeyond(window: nat, k: nat) returns (st: State)
    requires window >= k == 64
    ensures Reaches(Windowed(window), st) && !NothingDropped(st)
  {
    PipelinedComplete(k);
    PipelinedQuietly(k);
    var full := FullChannel(window, k);
    assert Pipelined(k)[..2 * k] == Pipelined(k);
    var told := WriteAnswer(Windowed(window), full, 0);
    var asked := SendParse(told, Pipelined(k), window);
    st := OfferMore(asked, Pipelined(k), window);
  }

  lemma SendParse(st: State, ms: seq<Msg>, window: nat) returns (st': State)
    requires Reaches(Windowed(window), st) && ClientMessages(st) == ms && Complete(ms, CountKind(ms, 'S'))
    requires st.c.relay.read == ms && st.c.relay.unread == [] && st.c.pc == Reading
    requires CountKind(ParseAll(st.s.relay.written), 'Z') + window > CountKind(ms, 'S')
    ensures Reaches(Windowed(window), st') && ClientMessages(st') == ms + [PARSE]
    ensures st'.c.relay.read == ms && st'.c.pc == Reading && st'.ch == st.ch
  {
    ReachesReachable(Windowed(window), st);
    st' := st.(c := SendClient(st.c, Encode(PARSE)));
    SentMore(st.c.relay, st'.c.relay, ms);
    OneMoreAllowed(st, st', ms, window);
    ByClient(Windowed(window), st, st', ClientSends(Encode(PARSE)));
  }

  /** A full channel drops what is offered next. */
  lemma OfferMore(st: State, ms: seq<Msg>, window: nat) returns (st': State)
    requires Reaches(Windowed(window), st) && ClientMessages(st) == ms + [PARSE]
    requires st.c.relay.read == ms && st.c.pc == Reading && |st.ch.buffer| == CAPACITY
    ensures Reaches(Windowed(window), st') && !NothingDropped(st')
  {
    var rules := Windowed(window);
    ReachesReachable(rules, st);
    assert (ms + [PARSE])[..|ms|] == ms;
    var c' := ReadNextClient(st.c, st.ch.log, ms + [PARSE], |ms|);
    ParseOffers(StateAfter(ms));
    var read := st.(c := c');
    StillAllowed(rules, st, read);
    ByClient(rules, st, read, ClientRead);
    st' := read.(c := OfferClient(read.c, read.ch).0, ch := OfferClient(read.c, read.ch).1);
    StillAllowed(rules, read, st');
    ByClient(rules, read, st', ClientOffer);
    OfferLogs(read.c, read.ch);
    QueriesSnoc(read.ch.log, Attempt(QUERY, false));
  }

  /** A window rules out dropped queries exactly when it is at most 63. */
  lemma WindowTight(window: nat)
    ensures (forall st :: Reaches(Windowed(window), st) ==> NothingDropped(st)) <==> window <= 63
  {
    if window <= WINDOW {
      forall st | Reaches(Windowed(window), st)
        ensures NothingDropped(st)
      {
        AttributionByWindow(st, window);
      }
    } else {
      var st := DroppedBeyond(window, CAPACITY);
    }
  }

  // ---- Streams that go wrong ----

  lemma NoEnd(ms: seq<Msg>)
    requires Plain(ms, |ms|)
    ensures Heard(ms) == ms
  {
  }

  /** The first group is closed without a query. */
  lemma FirstGroupEmpty(ms: seq<Msg>)
    requires [SYNC] <= ms && Plain(ms, |ms|)
    ensures !Attributable(ms)
  {
    NoEnd(ms);
    SyncCloses([]);
    assert [] + [SYNC] == [SYNC];
    GroupsPrefix([SYNC], ms);
    CountKindPrefix([SYNC], ms, 'S');
    assert Groups([SYNC])[..1] == [[]];
    assert Groups(ms)[0] == Groups([SYNC])[..1][0] == [];
  }

  /** A group without a query before one with a query. */
  lemma EmptyGroupFirst() returns (st: State)
    ensures Reaches(AnyClient, st) && ClientMessages(st) == [SYNC, PARSE, SYNC] && !Attributed(st)
  {
    ParseOffers(FRESH);
    FirstGroupEmpty([SYNC, PARSE, SYNC]);
    st := Misattributed([SYNC, PARSE, SYNC]);
  }

  /** A simple query answered before it is offered. */
  lemma SimpleQueryAlone() returns (st: State)
    ensures Reaches(AnyClient, st) && ClientMessages(st) == [SIMPLE] && !Attributed(st)
  {
    st := AnswerBeforeOffer([SIMPLE], 0);
  }
}
