/** Walking the span tree: the flat list behind the timeline and the rows of
    the tree view, which must line up. */
module SpanPage {
  import opened Bytes
  import opened ForestSpec
  import opened ForestOrder
  import opened SpanForest
  import opened SpanWalk

  /** A row of the tree view; its label carries the span and its indentation. */
  datatype Row = Row(span: WebSpan, indent: nat)

  /** These nodes can be walked: every node's children are those hung below it,
      and the walk needs no more than this many levels. */
  ghost predicate Walkable(spans: seq<WebSpan>, nodes: seq<Node>, ks: seq<text>, levels: nat, byId: map<text, Node>)
    reads byId.Values
  {
    Ends(spans, ks, levels) && AreNodes(nodes, ks, byId) && Hung(spans, |spans|, byId)
  }

  ghost predicate AreSpans(shown: seq<WebSpan>, visits: seq<Visit>, byId: map<text, Node>) {
    |shown| == |visits| && forall i :: 0 <= i < |visits| ==> visits[i].id in byId && shown[i] == byId[visits[i].id].span
  }

  ghost predicate AreRows(rows: seq<Row>, visits: seq<Visit>, byId: map<text, Node>) {
    && |rows| == |visits|
    && forall i :: 0 <= i < |visits| ==>
         visits[i].id in byId && rows[i] == Row(byId[visits[i].id].span, visits[i].depth)
  }

  lemma {:induction false} WalkDown(spans: seq<WebSpan>, ks: seq<text>, levels: nat, i: nat)
    requires Ends(spans, ks, levels) && i < |ks|
    ensures levels > 0 && Ends(spans, AllKidIds(spans, ks[i]), levels - 1)
    decreases i
  {
    if i > 0 {
      WalkDown(spans, ks[1..], levels, i - 1);
    }
  }

  // ---- Flattening ----

  lemma Regroup<T>(a: seq<T>, b: seq<T>, c: seq<T>)
    ensures a + (b + c) == (a + b) + c
  {
  }

  /** What the walk meets from the node k on, until it is done with k. */
  function Own(spans: seq<WebSpan>, k: text, depth: nat, levels: nat): seq<Visit>
    requires levels > 0
  {
    [Visit(k, depth)] + Visits(spans, AllKidIds(spans, k), depth + 1, levels - 1)
  }

  lemma {:induction false} VisitsSnoc(spans: seq<WebSpan>, ks: seq<text>, k: text, depth: nat, levels: nat)
    requires levels > 0
    ensures Visits(spans, ks + [k], depth, levels) == Visits(spans, ks, depth, levels) + Own(spans, k, depth, levels)
    decreases |ks|
  {
    var own := Own(spans, k, depth, levels);
    if ks == [] {
      assert ([] + [k])[1..] == [];
      assert Visits(spans, [] + [k], depth, levels) == own + [];
      assert [] + own == own == own + [];
    } else {
      assert (ks + [k])[1..] == ks[1..] + [k];
      VisitsSnoc(spans, ks[1..], k, depth, levels);
      Regroup(Own(spans, ks[0], depth, levels), Visits(spans, ks[1..], depth, levels), own);
    }
  }

  lemma AreSpansConcat(a: seq<WebSpan>, x: seq<Visit>, b: seq<WebSpan>, y: seq<Visit>, byId: map<text, Node>)
    requires AreSpans(a, x, byId) && AreSpans(b, y, byId)
    ensures AreSpans(a + b, x + y, byId)
  {
  }

  lemma SpansStep(spans: seq<WebSpan>, done: seq<WebSpan>, ks: seq<text>, i: nat, depth: nat, levels: nat, s: WebSpan,
                  below: seq<WebSpan>, byId: map<text, Node>)
    requires i < |ks| && levels > 0 && ks[i] in byId && s == byId[ks[i]].span
    requires AreSpans(done, Visits(spans, ks[..i], depth, levels), byId)
    requires AreSpans(below, Visits(spans, AllKidIds(spans, ks[i]), depth + 1, levels - 1), byId)
    ensures AreSpans(done + [s] + below, Visits(spans, ks[..i + 1], depth, levels), byId)
  {
    var visits := Visits(spans, AllKidIds(spans, ks[i]), depth + 1, levels - 1);
    VisitsSnoc(spans, ks[..i], ks[i], depth, levels);
    assert ks[..i + 1] == ks[..i] + [ks[i]];
    AreSpansConcat([s], [Visit(ks[i], depth)], below, visits, byId);
    AreSpansConcat(done, Visits(spans, ks[..i], depth, levels), [s] + below, Own(spans, ks[i], depth, levels), byId);
    Regroup(done, [s], below);
  }

  /** The spans of these trees, each followed by the spans below it. */
  method FlattenTree(nodes: seq<Node>, ghost spans: seq<WebSpan>, ghost ks: seq<text>, ghost depth: nat,
                     ghost levels: nat, ghost byId: map<text, Node>)
    returns (result: seq<WebSpan>)
    requires Walkable(spans, nodes, ks, levels, byId)
    ensures AreSpans(result, Visits(spans, ks, depth, levels), byId)
    decreases levels
  {
    result := [];
    for i := 0 to |nodes|
      invariant AreSpans(result, Visits(spans, ks[..i], depth, levels), byId)
    {
      var n := nodes[i];
      WalkDown(spans, ks, levels, i);
      ghost var done := result;
      result := result + [n.span];
      var below := FlattenTree(n.children, spans, AllKidIds(spans, ks[i]), depth + 1, levels - 1, byId);
      result := result + below;
      SpansStep(spans, done, ks, i, depth, levels, n.span, below, byId);
    }
    assert ks[..|nodes|] == ks;
  }

  // ---- The tree view ----

  lemma RowsConcat(a: seq<Row>, x: seq<Visit>, b: seq<Row>, y: seq<Visit>, byId: map<text, Node>)
    requires AreRows(a, x, byId) && AreRows(b, y, byId)
    ensures AreRows(a + b, x + y, byId)
  {
  }

  /** The rows of these trees, indented by depth. */
  function RenderTree(nodes: seq<Node>, depth: nat, ghost spans: seq<WebSpan>, ghost ks: seq<text>, ghost levels: nat,
                      ghost byId: map<text, Node>): (rows: seq<Row>)
    requires Walkable(spans, nodes, ks, levels, byId)
    reads byId.Values
    ensures AreRows(rows, Visits(spans, ks, depth, levels), byId)
    decreases levels, |nodes|
  {
    if nodes == [] then []
    else
      assert nodes[0] in byId.Values;
      var row := Row(nodes[0].span, depth);
      var below := RenderTree(nodes[0].children, depth + 1, spans, AllKidIds(spans, ks[0]), levels - 1, byId);
      var after := RenderTree(nodes[1..], depth, spans, ks[1..], levels, byId);
      RowsConcat([row], [Visit(ks[0], depth)],
                 below, Visits(spans, AllKidIds(spans, ks[0]), depth + 1, levels - 1), byId);
      RowsConcat([row] + below, Own(spans, ks[0], depth, levels), after, Visits(spans, ks[1..], depth, levels), byId);
      [row] + below + after
  }

  // ---- The page ----

  /** Row i of the tree view and bar i of the timeline show the span of visit i,
      the last one with its ID, and the row is indented by the visit's depth. */
  ghost predicate Shows(spans: seq<WebSpan>, rows: seq<Row>, bars: seq<WebSpan>, visits: seq<Visit>) {
    var held := LastSpans(spans, |spans|);
    && |rows| == |bars| == |visits|
    && forall i :: 0 <= i < |visits| ==>
         visits[i].id in held && bars[i] == held[visits[i].id] && rows[i] == Row(bars[i], visits[i].depth)
  }

  /** Tree view and timeline of one trace, whenever the walk comes to an end:
      both show the spans met on it, in this order. */
  method RenderDetail(spans: seq<WebSpan>) returns (rows: seq<Row>, bars: seq<WebSpan>)
    requires WalkEnds(spans)
    ensures forall levels: nat :: Ends(spans, AllRootIds(spans), levels) ==>
              Shows(spans, rows, bars, Visits(spans, AllRootIds(spans), 0, levels))
  {
    ghost var roots := AllRootIds(spans);
    ghost var levels: nat :| Ends(spans, roots, levels);
    var tree, byId := BuildTree(spans);
    rows := RenderTree(tree, 0, spans, roots, levels, byId);
    bars := FlattenTree(tree, spans, roots, 0, levels, byId);
    forall others: nat | Ends(spans, roots, others)
      ensures Shows(spans, rows, bars, Visits(spans, roots, 0, others))
    {
      EnoughLevels(spans, roots, 0, levels, others);
    }
  }

  // ---- Spans with distinct IDs ----

  /** These visits are the given spans of the forest, each at its depth. */
  ghost predicate InForest(g: Links, visits: seq<Visit>, ids: seq<text>) {
    |visits| == |ids| && forall i :: 0 <= i < |ids| ==> visits[i].id == ids[i] && DepthIs(g, ids[i], visits[i].depth)
  }

  lemma InForestConcat(g: Links, a: seq<Visit>, x: seq<text>, b: seq<Visit>, y: seq<text>)
    requires InForest(g, a, x) && InForest(g, b, y)
    ensures InForest(g, a + b, x + y)
  {
  }

  /** The visits of a tree and those after it, in the forest. */
  lemma VisitsStep(spans: seq<WebSpan>, ks: seq<text>, kids: seq<text>, d: nat, levels: nat)
    requires ks != [] && levels > 0 && DepthIs(LinksOf(spans), ks[0], d)
    requires kids == AllKidIds(spans, ks[0]) == AllKids(LinksOf(spans), ks[0])
    requires InForest(LinksOf(spans), Visits(spans, kids, d + 1, levels - 1),
                      Preorder(LinksOf(spans), kids, levels - 1))
    requires InForest(LinksOf(spans), Visits(spans, ks[1..], d, levels), Preorder(LinksOf(spans), ks[1..], levels))
    ensures InForest(LinksOf(spans), Visits(spans, ks, d, levels), Preorder(LinksOf(spans), ks, levels))
  {
    var g, k := LinksOf(spans), ks[0];
    var below, after := Visits(spans, kids, d + 1, levels - 1), Visits(spans, ks[1..], d, levels);
    PreorderCons(g, ks, levels);
    InForestConcat(g, [Visit(k, d)], [k], below, Preorder(g, kids, levels - 1));
    InForestConcat(g, [Visit(k, d)] + below, [k] + Preorder(g, kids, levels - 1),
                   after, Preorder(g, ks[1..], levels));
  }

  /** The children of the first node are one level below, the rest beside it. */
  lemma KidsBelow(spans: seq<WebSpan>, ks: seq<text>, d: nat) returns (kids: seq<text>)
    requires Distinct(Ids(spans)) && Level(LinksOf(spans), ks, d) && ks != []
    ensures kids == AllKidIds(spans, ks[0]) == AllKids(LinksOf(spans), ks[0])
    ensures DepthIs(LinksOf(spans), ks[0], d)
    ensures Level(LinksOf(spans), kids, d + 1) && Level(LinksOf(spans), ks[1..], d)
  {
    var g := LinksOf(spans);
    LinksValid(spans);
    KidIdsAre(spans, ks[0], |spans|);
    HeadDepth(g, ks, d, ks[0]);
    KidsLevel(g, ks[0], d);
    LevelTail(g, ks, d);
    kids := AllKids(g, ks[0]);
  }

  lemma {:induction false} VisitsInForest(spans: seq<WebSpan>, ks: seq<text>, d: nat, levels: nat)
    requires Distinct(Ids(spans)) && Level(LinksOf(spans), ks, d)
    ensures InForest(LinksOf(spans), Visits(spans, ks, d, levels), Preorder(LinksOf(spans), ks, levels))
    decreases levels, |ks|
  {
    if ks != [] && levels > 0 {
      var kids := KidsBelow(spans, ks, d);
      VisitsInForest(spans, kids, d + 1, levels - 1);
      VisitsInForest(spans, ks[1..], d, levels);
      VisitsStep(spans, ks, kids, d, levels);
    }
  }

  lemma {:induction false} FitsEnds(spans: seq<WebSpan>, ks: seq<text>, d: nat, levels: nat)
    requires Distinct(Ids(spans)) && Level(LinksOf(spans), ks, d) && Fits(LinksOf(spans), d + levels)
    ensures Ends(spans, ks, levels)
    decreases levels, |ks|
  {
    if ks != [] {
      var kids := KidsBelow(spans, ks, d);
      FitsEnds(spans, kids, d + 1, levels - 1);
      FitsEnds(spans, ks[1..], d, levels);
    }
  }

  lemma ForestStarts(spans: seq<WebSpan>)
    requires Distinct(Ids(spans))
    ensures Valid(LinksOf(spans)) && Level(LinksOf(spans), AllRoots(LinksOf(spans)), 0)
    ensures AllRootIds(spans) == AllRoots(LinksOf(spans))
  {
    LinksValid(spans);
    RootsLevel(LinksOf(spans));
    RootIdsAre(spans, |spans|);
  }

  /** Distinct IDs are enough for the walk to come to an end, whatever the
      parents. */
  lemma DistinctWalkEnds(spans: seq<WebSpan>)
    requires Distinct(Ids(spans))
    ensures WalkEnds(spans)
  {
    var g := LinksOf(spans);
    FitExists(g);
    var levels: nat :| Fits(g, levels);
    ForestStarts(spans);
    assert Fits(g, 0 + levels);
    FitsEnds(spans, AllRoots(g), 0, levels);
  }

  /** Levels that are enough for the walk are enough for the forest. */
  lemma EndsFits(spans: seq<WebSpan>, levels: nat)
    requires Distinct(Ids(spans)) && Ends(spans, AllRootIds(spans), levels)
    ensures Fits(LinksOf(spans), levels)
  {
    var g := LinksOf(spans);
    ForestStarts(spans);
    forall y, d: nat | y in g.ids && DepthIs(g, y, d)
      ensures d < levels
    {
      var path := WayTo(spans, y, d);
      WayBounded(spans, AllRootIds(spans), levels, path);
    }
  }

  /** A span at depth d is met at the end of a way down of d steps. */
  lemma {:induction false} WayTo(spans: seq<WebSpan>, y: text, d: nat) returns (path: seq<text>)
    requires Distinct(Ids(spans)) && y in Ids(spans) && DepthIs(LinksOf(spans), y, d)
    ensures WayDown(spans, AllRootIds(spans), path) && |path| == d + 1 && path[d] == y
    decreases d
  {
    var g := LinksOf(spans);
    ForestStarts(spans);
    if d == 0 {
      RootsAre(g, |g.ids|);
      assert g.ids[..|g.ids|] == g.ids;
      path := [y];
    } else {
      var p := g.parent[y];
      IsKid(g, y);
      KidIdsAre(spans, p, |spans|);
      var above := WayTo(spans, p, d - 1);
      assert [p, y][1] in AllKidIds(spans, [p, y][0]);
      assert [p] + [y] == [p, y];
      DescendsOn(spans, above, [y]);
      path := above + [y];
    }
  }

  /** Row i and bar i show the same span, and the row is indented by the number
      of spans above it. */
  ghost predicate LineUp(g: Links, rows: seq<Row>, bars: seq<WebSpan>) {
    && |rows| == |bars|
    && forall i :: 0 <= i < |bars| ==> rows[i].span == bars[i] && DepthIs(g, bars[i].id, rows[i].indent)
  }

  lemma BarIds(spans: seq<WebSpan>, rows: seq<Row>, bars: seq<WebSpan>, visits: seq<Visit>, order: seq<text>)
    requires Shows(spans, rows, bars, visits) && InForest(LinksOf(spans), visits, order)
    ensures Ids(bars) == order && LineUp(LinksOf(spans), rows, bars)
  {
    forall i | 0 <= i < |visits|
      ensures bars[i].id == order[i]
    {
      LastSpansKeys(spans, |spans|, order[i]);
    }
  }

  lemma SpanHeld(spans: seq<WebSpan>, s: WebSpan)
    requires Distinct(Ids(spans)) && s in spans
    ensures s.id in LastSpans(spans, |spans|) && LastSpans(spans, |spans|)[s.id] == s && s.id in Ids(spans)
  {
    var i := IndexOf(spans, s);
    LastSpansOnly(spans, |spans|, i);
  }

  lemma IndexOf(spans: seq<WebSpan>, s: WebSpan) returns (i: nat)
    requires s in spans
    ensures i < |spans| && spans[i] == s && Ids(spans)[i] == s.id
  {
    i :| 0 <= i < |spans| && spans[i] == s;
  }

  /** The bars are the spans whose chain of parents reaches a root. */
  ghost predicate ShowsGrounded(spans: seq<WebSpan>, bars: seq<WebSpan>) {
    forall s :: s in bars <==> s in spans && Grounded(LinksOf(spans), s.id)
  }

  lemma BarsGrounded(spans: seq<WebSpan>, rows: seq<Row>, bars: seq<WebSpan>, visits: seq<Visit>, levels: nat)
    requires Distinct(Ids(spans)) && Fits(LinksOf(spans), levels) && Shows(spans, rows, bars, visits)
    requires InForest(LinksOf(spans), visits, Preorder(LinksOf(spans), AllRoots(LinksOf(spans)), levels))
    ensures ShowsGrounded(spans, bars)
  {
    var g := LinksOf(spans);
    var order := Preorder(g, AllRoots(g), levels);
    LinksValid(spans);
    FlatForest(g, levels);
    forall s
      ensures s in bars <==> s in spans && Grounded(g, s.id)
    {
      if s in bars {
        var i :| 0 <= i < |bars| && bars[i] == s;
        LastSpansKeys(spans, |spans|, order[i]);
        assert order[i] in order;
      }
      if s in spans && Grounded(g, s.id) {
        SpanHeld(spans, s);
        var i :| 0 <= i < |order| && order[i] == s.id;
        assert bars[i] == s;
      }
    }
  }

  /** With distinct IDs, whatever the parents, what is shown is the depth-first
      order of the forest: the spans whose chain of parents reaches a root, each
      indented by its depth. */
  lemma DistinctShown(spans: seq<WebSpan>, rows: seq<Row>, bars: seq<WebSpan>, levels: nat)
    requires Distinct(Ids(spans)) && Ends(spans, AllRootIds(spans), levels)
    requires Shows(spans, rows, bars, Visits(spans, AllRootIds(spans), 0, levels))
    ensures LineUp(LinksOf(spans), rows, bars) && ShowsGrounded(spans, bars)
    ensures Fits(LinksOf(spans), levels)
    ensures Ids(bars) == Preorder(LinksOf(spans), AllRoots(LinksOf(spans)), levels)
  {
    var visits := Visits(spans, AllRootIds(spans), 0, levels);
    ForestStarts(spans);
    EndsFits(spans, levels);
    VisitsInForest(spans, AllRootIds(spans), 0, levels);
    BarIds(spans, rows, bars, visits, Preorder(LinksOf(spans), AllRoots(LinksOf(spans)), levels));
    BarsGrounded(spans, rows, bars, visits, levels);
  }

  /** No span is lost or shown twice exactly when the parent links have no
      cycle. */
  lemma BarsPermuteSpans(spans: seq<WebSpan>, bars: seq<WebSpan>, levels: nat)
    requires Distinct(Ids(spans)) && Fits(LinksOf(spans), levels)
    requires Ids(bars) == Preorder(LinksOf(spans), AllRoots(LinksOf(spans)), levels)
    ensures multiset(Ids(bars)) == multiset(Ids(spans)) <==> Acyclic(LinksOf(spans))
  {
    LinksValid(spans);
    FlatPermutation(LinksOf(spans), levels);
    GroundedIffAcyclic(LinksOf(spans));
  }
}
