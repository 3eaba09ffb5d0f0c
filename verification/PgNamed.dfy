/** What the proxy observes, in terms of the protocol's messages by name. */
module PgNamed {
  import opened Bytes
  import opened PgCodec
  import opened PgFields
  import opened PgCapture
  import opened PgSystem
  import opened PgGuarantees
  import opened PgProtocol

  // ---- Queries ----

  predicate ParsesSql(f: Frontend) {
    f.Parse? && f.sql != []
  }

  /** A statement has been parsed since the last Sync before request i. */
  ghost predicate ParsedInGroup(fs: seq<Frontend>, i: nat)
    requires i <= |fs|
  {
    exists j :: 0 <= j < i && ParsesSql(fs[j]) && forall k :: j < k < i ==> !fs[k].Sync?
  }

  /** Request j is the last before i to parse a statement of this name. */
  ghost predicate LastParsed(fs: seq<Frontend>, i: nat, j: nat, name: text)
    requires i <= |fs|
  {
    && j < i && ParsesSql(fs[j]) && fs[j].name == name
    && forall k :: j < k < i && ParsesSql(fs[k]) ==> fs[k].name != name
  }

  /** Request i is observed as the query q: a simple query, a statement being
      parsed, or, in a group that parses none, a named one parsed earlier. */
  ghost predicate ObservedAs(fs: seq<Frontend>, i: nat, q: text)
    requires i < |fs|
  {
    match fs[i]
    case Query(sql) => q == sql
    case Parse(_, sql, _) => q == sql && sql != []
    case Bind(_, statement, _) =>
      && statement != [] && !ParsedInGroup(fs, i)
      && exists j: nat :: LastParsed(fs, i, j, statement) && q == fs[j].sql
    case _ => false
  }

  /** The bytes of a request say what its name does. */
  lemma RequestMeans(f: Frontend, name: text)
    requires ValidRequest(f)
    ensures var m := FromClient(f);
            && (f.Query? <==> m.kind == 'Q') && (f.Parse? <==> m.kind == 'P') && (f.Bind? <==> m.kind == 'B')
            && (f.Sync? <==> m.kind == 'S')
            && (f.Query? ==> CString(m.payload) == f.sql)
            && (f.Parse? ==> SecondField(m.payload) == f.sql)
            && (f.Bind? ==> SecondField(m.payload) == f.statement)
            && (GivesQuery(m) <==> ParsesSql(f))
            && (Defines(m, name) <==> ParsesSql(f) && f.name == name && name != [])
  {
    match f
    case Query(sql) =>
      assert sql + [NUL] + [] == sql + [NUL];
      CStringOf(sql, []);
    case Parse(first, sql, types) => FieldsOfTwoStrings(first, sql, types);
    case Bind(portal, statement, parameters) => FieldsOfTwoStrings(portal, statement, parameters);
    case _ =>
  }

  lemma AllMean(fs: seq<Frontend>, name: text)
    requires AllRequests(fs)
    ensures forall i :: 0 <= i < |fs| ==>
              && (Requests(fs)[i].kind == 'S' <==> fs[i].Sync?)
              && (GivesQuery(Requests(fs)[i]) <==> ParsesSql(fs[i]))
              && (Defines(Requests(fs)[i], name) <==> ParsesSql(fs[i]) && fs[i].name == name && name != [])
              && (fs[i].Parse? ==> SecondField(Requests(fs)[i].payload) == fs[i].sql)
  {
    forall i | 0 <= i < |fs|
      ensures Requests(fs)[i].kind == 'S' <==> fs[i].Sync?
      ensures GivesQuery(Requests(fs)[i]) <==> ParsesSql(fs[i])
      ensures Defines(Requests(fs)[i], name) <==> ParsesSql(fs[i]) && fs[i].name == name && name != []
      ensures fs[i].Parse? ==> SecondField(Requests(fs)[i].payload) == fs[i].sql
    {
      RequestMeans(fs[i], name);
    }
  }

  lemma ParsedOnWire(fs: seq<Frontend>, i: nat, j: nat)
    requires AllRequests(fs) && j < i <= |fs|
    ensures (GivesQuery(Requests(fs)[j]) && forall k :: j < k < i ==> Requests(fs)[k].kind != 'S')
       <==> (ParsesSql(fs[j]) && forall k :: j < k < i ==> !fs[k].Sync?)
  {
    AllMean(fs, []);
  }

  lemma ParsedSame(fs: seq<Frontend>, i: nat)
    requires AllRequests(fs) && i <= |fs|
    ensures ParsedSinceSync(Requests(fs), i) <==> ParsedInGroup(fs, i)
  {
    if ParsedSinceSync(Requests(fs), i) {
      var j :| 0 <= j < i && GivesQuery(Requests(fs)[j]) && forall k :: j < k < i ==> Requests(fs)[k].kind != 'S';
      ParsedOnWire(fs, i, j);
    }
    if ParsedInGroup(fs, i) {
      var j :| 0 <= j < i && ParsesSql(fs[j]) && forall k :: j < k < i ==> !fs[k].Sync?;
      ParsedOnWire(fs, i, j);
    }
  }

  lemma LastSame(fs: seq<Frontend>, i: nat, j: nat, name: text)
    requires AllRequests(fs) && i <= |fs| && name != []
    ensures LatestDefinition(Requests(fs), i, j, name) <==> LastParsed(fs, i, j, name)
  {
    AllMean(fs, name);
  }

  lemma BindSame(fs: seq<Frontend>, i: nat, name: text, q: text)
    requires AllRequests(fs) && i < |fs|
    ensures (exists j: nat :: LatestDefinition(Requests(fs), i, j, name) && q == SecondField(Requests(fs)[j].payload))
       <==> name != [] && exists j: nat :: LastParsed(fs, i, j, name) && q == fs[j].sql
  {
    AllMean(fs, name);
    if j: nat :| LatestDefinition(Requests(fs), i, j, name) && q == SecondField(Requests(fs)[j].payload) {
      assert Defines(Requests(fs)[j], name);
      LastSame(fs, i, j, name);
    }
    if name != [] {
      if j: nat :| LastParsed(fs, i, j, name) && q == fs[j].sql {
        LastSame(fs, i, j, name);
      }
    }
  }

  lemma ObservedSame(fs: seq<Frontend>, i: nat, q: text)
    requires AllRequests(fs) && i < |fs|
    ensures OffersAt(Requests(fs), i, q) <==> ObservedAs(fs, i, q)
  {
    RequestMeans(fs[i], []);
    ParsedSame(fs, i);
    if fs[i].Bind? {
      BindSame(fs, i, fs[i].statement, q);
    }
  }

  /** The queries captured from any requests are, in order, those observed. */
  lemma CapturesByName(fs: seq<Frontend>)
    requires AllRequests(fs)
    ensures var ps, qs := OfferPositions(Requests(fs)), Captures(Requests(fs));
            && |ps| == |qs|
            && (forall k, l :: 0 <= k < l < |ps| ==> ps[k] < ps[l])
            && (forall k :: 0 <= k < |ps| ==> ps[k] < |fs| && ObservedAs(fs, ps[k], qs[k]))
            && (forall i, q :: 0 <= i < |fs| && ObservedAs(fs, i, q) ==> i in ps)
  {
    var ms := Requests(fs);
    var ps, qs := OfferPositions(ms), Captures(ms);
    CapturesAreHistory(ms);
    forall k | 0 <= k < |ps|
      ensures ps[k] < |fs| && ObservedAs(fs, ps[k], qs[k])
    {
      ObservedSame(fs, ps[k], qs[k]);
    }
    forall i, q | 0 <= i < |fs| && ObservedAs(fs, i, q)
      ensures i in ps
    {
      ObservedSame(fs, i, q);
    }
  }

  // ---- Responses ----

  function RowsOf(bs: seq<Backend>): nat {
    if bs == [] then 0 else RowsOf(bs[..|bs| - 1]) + if bs[|bs| - 1].DataRow? then 1 else 0
  }

  /** The value of the first message field. */
  function MessageOf(fields: seq<Field>): text {
    if fields == [] then [] else if fields[0].kind == 'M' then fields[0].value else MessageOf(fields[1..])
  }

  /** The message of the last error. */
  function ErrorOf(bs: seq<Backend>): text {
    if bs == [] then []
    else if bs[|bs| - 1].ErrorResponse? then MessageOf(bs[|bs| - 1].fields)
    else ErrorOf(bs[..|bs| - 1])
  }

  /** Event e reports on the response that reply z ends, which began after the
      ReadyForQuery before it: its number of rows and its last error. */
  ghost predicate ReportsOn(e: Event, bs: seq<Backend>, z: nat) {
    exists from: nat ::
      && from <= z < |bs| && bs[z].ReadyForQuery? && (from == 0 || bs[from - 1].ReadyForQuery?)
      && (forall i :: from <= i < z ==> !bs[i].ReadyForQuery?)
      && e.rowCount == RowsOf(bs[from..z]) && e.error == ErrorOf(bs[from..z])
  }

  lemma ReplyKinds(b: Backend)
    requires ValidReply(b)
    ensures var m := FromServer(b);
            && (b.DataRow? <==> m.kind == 'D') && (b.ErrorResponse? <==> m.kind == 'E')
            && (b.ReadyForQuery? <==> m.kind == 'Z')
  {
  }

  lemma {:induction false} MessageIs(fields: seq<Field>)
    requires forall i :: 0 <= i < |fields| ==> ValidField(fields[i])
    ensures ErrorText(EncodeFields(fields)) == MessageOf(fields)
  {
    if fields != [] {
      ErrorTextStep(fields[0], EncodeFields(fields[1..]));
      MessageIs(fields[1..]);
    }
  }

  lemma {:induction false} RowsAre(bs: seq<Backend>)
    requires AllReplies(bs)
    ensures CountKind(Replies(bs), 'D') == RowsOf(bs)
  {
    if bs != [] {
      var init := bs[..|bs| - 1];
      RowsAre(init);
      ReplyKinds(bs[|bs| - 1]);
      assert Replies(bs)[..|bs| - 1] == Replies(init);
    }
  }

  lemma {:induction false} ErrorIs(bs: seq<Backend>, n: nat)
    requires AllReplies(bs) && n <= |bs|
    ensures LastErrorIn(Replies(bs), n) == ErrorOf(bs[..n])
  {
    if n > 0 {
      ErrorIs(bs, n - 1);
      ReplyKinds(bs[n - 1]);
      assert bs[..n][..n - 1] == bs[..n - 1];
      if bs[n - 1].ErrorResponse? {
        MessageIs(bs[n - 1].fields);
      }
    }
  }

  lemma RepliesOf(bs: seq<Backend>, a: nat, b: nat)
    requires a <= b <= |bs|
    ensures Replies(bs)[a..b] == Replies(bs[a..b])
  {
  }

  lemma PartReported(bs: seq<Backend>, from: nat, z: nat)
    requires AllReplies(bs) && from <= z <= |bs|
    ensures CountKind(Replies(bs)[from..z], 'D') == RowsOf(bs[from..z])
    ensures LastErrorText(Replies(bs)[from..z]) == ErrorOf(bs[from..z])
  {
    var part := bs[from..z];
    RepliesOf(bs, from, z);
    RowsAre(part);
    ErrorIs(part, |part|);
    assert part[..|part|] == part;
  }

  lemma CycleByName(bs: seq<Backend>, from: nat, z: nat)
    requires AllReplies(bs) && IsCycle(Replies(bs), from, z)
    ensures z < |bs| && bs[z].ReadyForQuery? && (from == 0 || bs[from - 1].ReadyForQuery?)
    ensures forall i :: from <= i < z ==> !bs[i].ReadyForQuery?
  {
    forall i | 0 <= i < |bs|
      ensures bs[i].ReadyForQuery? <==> Replies(bs)[i].kind == 'Z'
    {
      ReplyKinds(bs[i]);
    }
  }

  lemma DescribesByName(e: Event, bs: seq<Backend>, z: nat)
    requires AllReplies(bs) && Describes(e, Replies(bs), z)
    ensures ReportsOn(e, bs, z)
  {
    var ms := Replies(bs);
    var from: nat :| IsCycle(ms, from, z) && e.rowCount == CountKind(ms[from..z], 'D')
                     && e.error == LastErrorText(ms[from..z]);
    CycleByName(bs, from, z);
    PartReported(bs, from, z);
  }

  /** In every interleaving, whatever the server replies, each event reports on
      a response of its own, in order. */
  lemma EventsByName(st: State, bs: seq<Backend>)
    requires Reachable(st) && AllReplies(bs) && st.s.relay.read == Replies(bs)
    ensures |st.s.at| == |st.s.events|
    ensures forall k, l :: 0 <= k < l < |st.s.at| ==> st.s.at[k] < st.s.at[l]
    ensures forall k :: 0 <= k < |st.s.at| ==> ReportsOn(st.s.events[k], bs, st.s.at[k])
  {
    EventsDescribeCycles(st);
    forall k | 0 <= k < |st.s.at|
      ensures ReportsOn(st.s.events[k], bs, st.s.at[k])
    {
      DescribesByName(st.s.events[k], bs, st.s.at[k]);
    }
  }
}
