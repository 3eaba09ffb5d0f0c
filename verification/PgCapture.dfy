/** Which client messages count as queries. The relay loop keeps two variables
    (a flag and a table of prepared statements); the history specification
    speaks only of the messages themselves. */
module PgCapture {
  import opened Bytes
  import opened Options
  import opened PgCodec
  import opened PgFields

  /** The loop's local variables. */
  datatype Capture = Capture(parseSeen: bool, prepared: map<text, text>)

  const FRESH := Capture(false, map[])

  /** The query offered to the channel when m is read, if any. */
  function Offer(c: Capture, m: Msg): Option<text> {
    match m.kind
    case 'Q' => Some(CString(m.payload))
    case 'P' => if SecondField(m.payload) != [] then Some(SecondField(m.payload)) else None
    case 'B' =>
      if !c.parseSeen && SecondField(m.payload) in c.prepared
      then Some(c.prepared[SecondField(m.payload)])
      else None
    case _ => None
  }

  function After(c: Capture, m: Msg): Capture {
    match m.kind
    case 'P' =>
      var name, query := CString(m.payload), SecondField(m.payload);
      if query == [] then c
      else Capture(true, if name != [] then c.prepared[name := query] else c.prepared)
    case 'S' => c.(parseSeen := false)
    case _ => c
  }

  function StateAfter(ms: seq<Msg>): Capture {
    if ms == [] then FRESH else After(StateAfter(ms[..|ms| - 1]), ms[|ms| - 1])
  }

  function AsSeq(q: Option<text>): seq<text> {
    if q.Some? then [q.value] else []
  }

  /** The queries offered while reading ms, in order. */
  function Captures(ms: seq<Msg>): seq<text> {
    if ms == [] then []
    else
      var init := ms[..|ms| - 1];
      Captures(init) + AsSeq(Offer(StateAfter(init), ms[|ms| - 1]))
  }

  lemma Snoc(ms: seq<Msg>, m: Msg)
    ensures StateAfter(ms + [m]) == After(StateAfter(ms), m)
    ensures Captures(ms + [m]) == Captures(ms) + AsSeq(Offer(StateAfter(ms), m))
  {
    assert (ms + [m])[..|ms|] == ms;
  }

  /** The variables before message n is read. */
  function StateAt(ms: seq<Msg>, n: nat): Capture
    requires n <= |ms|
  {
    if n == 0 then FRESH else After(StateAt(ms, n - 1), ms[n - 1])
  }

  lemma {:induction false} StateAtIsStateAfter(ms: seq<Msg>, n: nat)
    requires n <= |ms|
    ensures StateAt(ms, n) == StateAfter(ms[..n])
  {
    if n > 0 {
      StateAtIsStateAfter(ms, n - 1);
      assert ms[..n] == ms[..n - 1] + [ms[n - 1]];
      Snoc(ms[..n - 1], ms[n - 1]);
    }
  }

  // ---- The specification by history ----

  predicate GivesQuery(m: Msg) {
    m.kind == 'P' && SecondField(m.payload) != []
  }

  predicate Defines(m: Msg, name: text) {
    GivesQuery(m) && CString(m.payload) == name && name != []
  }

  /** A Parse with a query has been seen since the last Sync before i. */
  ghost predicate ParsedSinceSync(ms: seq<Msg>, i: nat)
    requires i <= |ms|
  {
    exists j :: 0 <= j < i && GivesQuery(ms[j]) && forall k :: j < k < i ==> ms[k].kind != 'S'
  }

  /** Message j is the latest Parse before i that gives the named statement a
      query. */
  ghost predicate LatestDefinition(ms: seq<Msg>, i: nat, j: nat, name: text)
    requires i <= |ms|
  {
    j < i && Defines(ms[j], name) && forall k :: j < k < i ==> !Defines(ms[k], name)
  }

  /** Message i offers q. */
  ghost predicate OffersAt(ms: seq<Msg>, i: nat, q: text)
    requires i < |ms|
  {
    match ms[i].kind
    case 'Q' => q == CString(ms[i].payload)
    case 'P' => q == SecondField(ms[i].payload) && q != []
    case 'B' =>
      && !ParsedSinceSync(ms, i)
      && exists j: nat :: LatestDefinition(ms, i, j, SecondField(ms[i].payload)) && q == SecondField(ms[j].payload)
    case _ => false
  }

  lemma AfterParseSeen(c: Capture, m: Msg)
    ensures After(c, m).parseSeen == (GivesQuery(m) || (m.kind != 'S' && c.parseSeen))
  {
  }

  lemma ParsedSinceSyncStep(ms: seq<Msg>, i: nat)
    requires i < |ms|
    ensures ParsedSinceSync(ms, i + 1) == (GivesQuery(ms[i]) || (ms[i].kind != 'S' && ParsedSinceSync(ms, i)))
  {
    if ParsedSinceSync(ms, i + 1) {
      var j :| 0 <= j < i + 1 && GivesQuery(ms[j]) && forall k :: j < k < i + 1 ==> ms[k].kind != 'S';
      assert j < i ==> ms[i].kind != 'S';
    }
  }

  lemma {:induction false} ParseSeenIsHistory(ms: seq<Msg>, n: nat)
    requires n <= |ms|
    ensures StateAt(ms, n).parseSeen == ParsedSinceSync(ms, n)
  {
    if n > 0 {
      ParseSeenIsHistory(ms, n - 1);
      AfterParseSeen(StateAt(ms, n - 1), ms[n - 1]);
      ParsedSinceSyncStep(ms, n - 1);
    }
  }

  predicate Prepared(c: Capture, name: text, q: text) {
    name in c.prepared && c.prepared[name] == q
  }

  lemma AfterPrepared(c: Capture, m: Msg, name: text, q: text)
    ensures Prepared(After(c, m), name, q) ==
            if Defines(m, name) then q == SecondField(m.payload) else Prepared(c, name, q)
  {
  }

  lemma LatestDefinitionStep(ms: seq<Msg>, i: nat, j: nat, name: text)
    requires i < |ms| && LatestDefinition(ms, i + 1, j, name)
    ensures if j == i then Defines(ms[i], name) else LatestDefinition(ms, i, j, name) && !Defines(ms[i], name)
  {
  }

  lemma {:induction false} PreparedIfDefined(ms: seq<Msg>, n: nat, j: nat, name: text)
    requires n <= |ms| && LatestDefinition(ms, n, j, name)
    ensures Prepared(StateAt(ms, n), name, SecondField(ms[j].payload))
  {
    var q, m, c := SecondField(ms[j].payload), ms[n - 1], StateAt(ms, n - 1);
    LatestDefinitionStep(ms, n - 1, j, name);
    assert Prepared(After(c, m), name, q) by {
      AfterPrepared(c, m, name, q);
      if j < n - 1 {
        PreparedIfDefined(ms, n - 1, j, name);
      }
    }
  }

  /** A definition stays the latest until the next one. */
  lemma LatestDefinitionNext(ms: seq<Msg>, i: nat, j: nat, name: text)
    requires i < |ms| && LatestDefinition(ms, i, j, name) && !Defines(ms[i], name)
    ensures LatestDefinition(ms, i + 1, j, name)
  {
  }

  lemma {:induction false} DefinedIfPrepared(ms: seq<Msg>, n: nat, name: text, q: text) returns (j: nat)
    requires n <= |ms| && Prepared(StateAt(ms, n), name, q)
    ensures LatestDefinition(ms, n, j, name) && q == SecondField(ms[j].payload)
  {
    var c, m := StateAt(ms, n - 1), ms[n - 1];
    AfterPrepared(c, m, name, q);
    if Defines(m, name) {
      j := n - 1;
    } else {
      j := DefinedIfPrepared(ms, n - 1, name, q);
      LatestDefinitionNext(ms, n - 1, j, name);
    }
  }

  /** The loop's variables decide exactly what the history does. */
  lemma OfferIsHistory(ms: seq<Msg>, i: nat, q: text)
    requires i < |ms|
    ensures Offer(StateAt(ms, i), ms[i]) == Some(q) <==> OffersAt(ms, i, q)
  {
    ParseSeenIsHistory(ms, i);
    var name := SecondField(ms[i].payload);
    forall j: nat | LatestDefinition(ms, i, j, name)
      ensures Prepared(StateAt(ms, i), name, SecondField(ms[j].payload))
    {
      PreparedIfDefined(ms, i, j, name);
    }
    if Prepared(StateAt(ms, i), name, q) {
      var j := DefinedIfPrepared(ms, i, name, q);
    }
  }

  /** The positions of the messages that offer a query. */
  function OfferPositions(ms: seq<Msg>): seq<nat> {
    if ms == [] then []
    else
      var init := ms[..|ms| - 1];
      OfferPositions(init) + if Offer(StateAfter(init), ms[|ms| - 1]).Some? then [|ms| - 1] else []
  }

  lemma {:induction false} PositionsIncrease(ms: seq<Msg>)
    ensures |OfferPositions(ms)| == |Captures(ms)|
    ensures forall k :: 0 <= k < |OfferPositions(ms)| ==> OfferPositions(ms)[k] < |ms|
    ensures forall k, l :: 0 <= k < l < |OfferPositions(ms)| ==> OfferPositions(ms)[k] < OfferPositions(ms)[l]
  {
    if ms != [] {
      PositionsIncrease(ms[..|ms| - 1]);
    }
  }

  lemma StateAtInit(ms: seq<Msg>, i: nat)
    requires i < |ms|
    ensures StateAt(ms, i) == StateAt(ms[..|ms| - 1], i)
  {
    StateAtIsStateAfter(ms, i);
    StateAtIsStateAfter(ms[..|ms| - 1], i);
    assert ms[..i] == ms[..|ms| - 1][..i];
  }

  lemma {:induction false} PositionOffers(ms: seq<Msg>, k: nat)
    requires k < |OfferPositions(ms)| == |Captures(ms)|
    requires OfferPositions(ms)[k] < |ms|
    ensures var i := OfferPositions(ms)[k];
            Offer(StateAt(ms, i), ms[i]) == Some(Captures(ms)[k])
  {
    var init := ms[..|ms| - 1];
    PositionsIncrease(init);
    StateAtInit(ms, OfferPositions(ms)[k]);
    if k < |OfferPositions(init)| {
      PositionOffers(init, k);
    } else {
      StateAtIsStateAfter(ms, |init|);
    }
  }

  lemma {:induction false} OfferHasPosition(ms: seq<Msg>, i: nat)
    requires i < |ms| && Offer(StateAt(ms, i), ms[i]).Some?
    ensures i in OfferPositions(ms)
  {
    var init := ms[..|ms| - 1];
    if i < |init| {
      StateAtInit(ms, i);
      OfferHasPosition(init, i);
    } else {
      StateAtIsStateAfter(ms, i);
    }
  }

  /** The whole list: the queries captured from ms are, in order, those of the
      messages that offer one by the history specification, and no others. */
  lemma CapturesAreHistory(ms: seq<Msg>)
    ensures var ps := OfferPositions(ms);
            && |ps| == |Captures(ms)|
            && (forall k, l :: 0 <= k < l < |ps| ==> ps[k] < ps[l])
            && (forall k :: 0 <= k < |ps| ==> ps[k] < |ms| && OffersAt(ms, ps[k], Captures(ms)[k]))
            && (forall i, q :: 0 <= i < |ms| && OffersAt(ms, i, q) ==> i in ps)
  {
    PositionsIncrease(ms);
    var ps := OfferPositions(ms);
    forall k | 0 <= k < |ps|
      ensures OffersAt(ms, ps[k], Captures(ms)[k])
    {
      PositionOffers(ms, k);
      OfferIsHistory(ms, ps[k], Captures(ms)[k]);
    }
    forall i, q | 0 <= i < |ms| && OffersAt(ms, i, q)
      ensures i in ps
    {
      OfferIsHistory(ms, i, q);
      OfferHasPosition(ms, i);
    }
  }

  // ---- Groups ended by Sync ----

  /** The captures of each group: one entry for every Sync, and a last one for
      the group still open. */
  function Groups(ms: seq<Msg>): (g: seq<seq<text>>)
    ensures |g| == CountKind(ms, 'S') + 1
  {
    if ms == [] then [[]]
    else
      var init, m := ms[..|ms| - 1], ms[|ms| - 1];
      var g := Groups(init);
      var last := g[|g| - 1] + AsSeq(Offer(StateAfter(init), m));
      g[..|g| - 1] + [last] + if m.kind == 'S' then [[]] else []
  }

  lemma GroupsGrow(ms: seq<Msg>)
    requires ms != []
    ensures var g, g' := Groups(ms[..|ms| - 1]), Groups(ms);
            && |g| <= |g'| && g[|g| - 1] <= g'[|g| - 1]
            && forall k :: 0 <= k < |g| - 1 ==> g[k] == g'[k]
  {
  }

  /** Groups of an older history are groups of a newer one; only the open group
      may have grown. */
  lemma {:induction false} GroupsPrefix(a: seq<Msg>, b: seq<Msg>)
    requires a <= b
    ensures |Groups(a)| <= |Groups(b)|
    ensures forall k :: 0 <= k < |Groups(a)| - 1 ==> Groups(a)[k] == Groups(b)[k]
    ensures Groups(a)[|Groups(a)| - 1] <= Groups(b)[|Groups(a)| - 1]
    decreases |b|
  {
    if a != b {
      GroupsPrefix(a, b[..|b| - 1]);
      GroupsGrow(b);
    } else {
      assert Groups(a) == Groups(b);
    }
  }

  /** Every closed group holds exactly one capture. */
  predicate OnePerClosedGroup(ms: seq<Msg>) {
    var g := Groups(ms);
    forall k :: 0 <= k < |g| - 1 ==> |g[k]| == 1
  }

  /** The captures since the last Sync. */
  function OpenGroup(ms: seq<Msg>): seq<text> {
    Groups(ms)[CountKind(ms, 'S')]
  }

  lemma ClosedPrefix(a: seq<Msg>, b: seq<Msg>)
    requires a <= b && OnePerClosedGroup(b)
    ensures OnePerClosedGroup(a)
  {
    GroupsPrefix(a, b);
  }

  function Flatten(g: seq<seq<text>>): seq<text> {
    if g == [] then [] else Flatten(g[..|g| - 1]) + g[|g| - 1]
  }

  lemma {:induction false} CapturesFlatten(ms: seq<Msg>)
    ensures Captures(ms) == Flatten(Groups(ms))
  {
    if ms != [] {
      var init, m := ms[..|ms| - 1], ms[|ms| - 1];
      CapturesFlatten(init);
      var g0 := Groups(init);
      var before, open := g0[..|g0| - 1], g0[|g0| - 1];
      var added := AsSeq(Offer(StateAfter(init), m));
      var g := before + [open + added];
      assert g[..|g| - 1] == before;
      assert Flatten(g) == Flatten(before) + (open + added) == Captures(ms);
      if m.kind == 'S' {
        assert Groups(ms)[..|g|] == g;
      } else {
        assert Groups(ms) == g;
      }
    }
  }

  lemma {:induction false} FlattenOnes(g: seq<seq<text>>)
    requires forall k :: 0 <= k < |g| ==> |g[k]| == 1
    ensures |Flatten(g)| == |g|
    ensures forall k :: 0 <= k < |g| ==> g[k] == [Flatten(g)[k]]
  {
    if g != [] {
      FlattenOnes(g[..|g| - 1]);
    }
  }

  lemma FlattenClosed(g: seq<seq<text>>)
    requires g != [] && forall k :: 0 <= k < |g| - 1 ==> |g[k]| == 1
    ensures |Flatten(g)| == |g| - 1 + |g[|g| - 1]|
    ensures forall k :: 0 <= k < |g| - 1 ==> g[k] == [Flatten(g)[k]]
  {
    FlattenOnes(g[..|g| - 1]);
  }

  /** With one capture per closed group, the k-th query captured is the k-th
      group's. */
  lemma CapturesByGroup(ms: seq<Msg>)
    requires OnePerClosedGroup(ms)
    ensures |Captures(ms)| == CountKind(ms, 'S') + |OpenGroup(ms)|
    ensures forall k :: 0 <= k < CountKind(ms, 'S') ==> Groups(ms)[k] == [Captures(ms)[k]]
  {
    CapturesFlatten(ms);
    FlattenClosed(Groups(ms));
  }
}
