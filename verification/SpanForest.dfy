/** The span tree of the web page: building nodes and links, flattening them,
    and the rows drawn for them. */
module SpanForest {
  import opened Bytes
  import opened ForestSpec

  /** A span as the page receives it; an absent parent is the empty text. */
  datatype WebSpan = WebSpan(id: text, parent: text, name: text)

  class Node {
    const span: WebSpan
    var children: seq<Node>

    constructor (span: WebSpan)
      ensures this.span == span && children == []
    {
      this.span := span;
      children := [];
    }
  }

  // ---- What the links are ----

  function Ids(spans: seq<WebSpan>): (ids: seq<text>)
    ensures |ids| == |spans| && forall i :: 0 <= i < |spans| ==> ids[i] == spans[i].id
  {
    seq(|spans|, i requires 0 <= i < |spans| => spans[i].id)
  }

  predicate Linked(spans: seq<WebSpan>, s: WebSpan) {
    s.parent != [] && s.parent in Ids(spans)
  }

  /** The IDs hung below p by the first n spans; an ID used twice counts twice. */
  function KidIds(spans: seq<WebSpan>, p: text, n: nat): seq<text>
    requires n <= |spans|
  {
    if n == 0 then []
    else
      var s := spans[n - 1];
      KidIds(spans, p, n - 1) + if Linked(spans, s) && s.parent == p then [s.id] else []
  }

  function RootIds(spans: seq<WebSpan>, n: nat): seq<text>
    requires n <= |spans|
  {
    if n == 0 then []
    else RootIds(spans, n - 1) + if Linked(spans, spans[n - 1]) then [] else [spans[n - 1].id]
  }

  function ParentMap(spans: seq<WebSpan>, n: nat): map<text, text>
    requires n <= |spans|
  {
    if n == 0 then map[]
    else if Linked(spans, spans[n - 1]) then ParentMap(spans, n - 1)[spans[n - 1].id := spans[n - 1].parent]
    else ParentMap(spans, n - 1)
  }

  function LinksOf(spans: seq<WebSpan>): Links {
    Links(Ids(spans), ParentMap(spans, |spans|))
  }

  lemma {:induction false} ParentMapHas(spans: seq<WebSpan>, n: nat, id: text)
    requires n <= |spans| && id in ParentMap(spans, n)
    ensures exists i :: 0 <= i < n && spans[i].id == id && Linked(spans, spans[i])
                     && ParentMap(spans, n)[id] == spans[i].parent
    decreases n
  {
    if Linked(spans, spans[n - 1]) && spans[n - 1].id == id {
    } else {
      ParentMapHas(spans, n - 1, id);
    }
  }

  lemma {:induction false} ParentMapOf(spans: seq<WebSpan>, n: nat, i: nat)
    requires i < n <= |spans| && Distinct(Ids(spans))
    ensures spans[i].id in ParentMap(spans, n) <==> Linked(spans, spans[i])
    ensures Linked(spans, spans[i]) ==> ParentMap(spans, n)[spans[i].id] == spans[i].parent
    decreases n
  {
    if i < n - 1 {
      ParentMapOf(spans, n - 1, i);
      assert Ids(spans)[i] != Ids(spans)[n - 1];
    } else {
      forall j | 0 <= j < n - 1
        ensures spans[j].id != spans[i].id
      {
        assert Ids(spans)[j] != Ids(spans)[i];
      }
      if spans[i].id in ParentMap(spans, n - 1) {
        ParentMapHas(spans, n - 1, spans[i].id);
      }
    }
  }

  /** With distinct IDs the links are those of a forest, and the children and
      roots are the forest's. */
  lemma LinksValid(spans: seq<WebSpan>)
    requires Distinct(Ids(spans))
    ensures Valid(LinksOf(spans))
  {
    var g := LinksOf(spans);
    forall id | id in g.parent
      ensures id in g.ids && g.parent[id] in g.ids
    {
      ParentMapHas(spans, |spans|, id);
      var i :| 0 <= i < |spans| && spans[i].id == id && Linked(spans, spans[i]) && g.parent[id] == spans[i].parent;
      assert Ids(spans)[i] == id;
    }
  }

  lemma {:induction false} KidIdsAre(spans: seq<WebSpan>, p: text, n: nat)
    requires n <= |spans| && Distinct(Ids(spans))
    ensures KidIds(spans, p, n) == Kids(LinksOf(spans), p, n)
    decreases n
  {
    if n > 0 {
      KidIdsAre(spans, p, n - 1);
      ParentMapOf(spans, |spans|, n - 1);
    }
  }

  lemma {:induction false} RootIdsAre(spans: seq<WebSpan>, n: nat)
    requires n <= |spans| && Distinct(Ids(spans))
    ensures RootIds(spans, n) == Roots(LinksOf(spans), n)
    decreases n
  {
    if n > 0 {
      RootIdsAre(spans, n - 1);
      ParentMapOf(spans, |spans|, n - 1);
    }
  }

  // ---- Building the nodes ----

  /** The spans the nodes hold: of several with the same ID, the last. */
  function LastSpans(spans: seq<WebSpan>, n: nat): map<text, WebSpan>
    requires n <= |spans|
  {
    if n == 0 then map[] else LastSpans(spans, n - 1)[spans[n - 1].id := spans[n - 1]]
  }

  lemma {:induction false} LastSpansKeys(spans: seq<WebSpan>, n: nat, id: text)
    requires n <= |spans|
    ensures id in LastSpans(spans, n) <==> exists i :: 0 <= i < n && spans[i].id == id
    ensures id in LastSpans(spans, n) ==> LastSpans(spans, n)[id].id == id && LastSpans(spans, n)[id] in spans
    decreases n
  {
    if n > 0 {
      LastSpansKeys(spans, n - 1, id);
    }
  }

  lemma {:induction false} LastSpansOnly(spans: seq<WebSpan>, n: nat, i: nat)
    requires i < n <= |spans| && Distinct(Ids(spans))
    ensures spans[i].id in LastSpans(spans, n) && LastSpans(spans, n)[spans[i].id] == spans[i]
    decreases n
  {
    if i < n - 1 {
      LastSpansOnly(spans, n - 1, i);
      assert Ids(spans)[i] != Ids(spans)[n - 1];
    }
  }

  /** The nodes hold these spans under these IDs. */
  ghost predicate Holds(byId: map<text, Node>, held: map<text, WebSpan>) {
    byId.Keys == held.Keys && forall id :: id in held ==> byId[id].span == held[id]
  }

  ghost predicate Childless(byId: map<text, Node>)
    reads byId.Values
  {
    forall id :: id in byId ==> byId[id].children == []
  }

  method MakeNodes(spans: seq<WebSpan>) returns (byId: map<text, Node>)
    ensures fresh(byId.Values)
    ensures Holds(byId, LastSpans(spans, |spans|)) && Childless(byId)
  {
    byId := map[];
    for n := 0 to |spans|
      invariant fresh(byId.Values)
      invariant Holds(byId, LastSpans(spans, n)) && Childless(byId)
    {
      ghost var before := byId;
      var node := new Node(spans[n]);
      byId := byId[spans[n].id := node];
      assert byId.Values <= before.Values + {node};
    }
  }

  ghost predicate Named(byId: map<text, Node>) {
    forall id :: id in byId ==> byId[id].span.id == id
  }

  /** nodes are the nodes with these IDs. */
  ghost predicate AreNodes(nodes: seq<Node>, ids: seq<text>, byId: map<text, Node>) {
    |nodes| == |ids| && forall i :: 0 <= i < |ids| ==> ids[i] in byId && nodes[i] == byId[ids[i]]
  }

  /** Every node has as children the nodes hung below it by the first n spans. */
  ghost predicate Hung(spans: seq<WebSpan>, n: nat, byId: map<text, Node>)
    requires n <= |spans|
    reads byId.Values
  {
    forall p :: p in byId ==> AreNodes(byId[p].children, KidIds(spans, p, n), byId)
  }

  lemma HeldKey(spans: seq<WebSpan>, byId: map<text, Node>, id: text)
    requires Holds(byId, LastSpans(spans, |spans|))
    ensures id in byId <==> id in Ids(spans)
    ensures id in byId ==> byId[id].span.id == id
  {
    LastSpansKeys(spans, |spans|, id);
    if id in Ids(spans) {
      var i :| 0 <= i < |spans| && Ids(spans)[i] == id;
      assert spans[i].id == id;
    }
  }

  lemma HeldNamed(spans: seq<WebSpan>, byId: map<text, Node>)
    requires Holds(byId, LastSpans(spans, |spans|))
    ensures Named(byId)
    ensures forall id :: id in byId <==> id in Ids(spans)
  {
    forall id
      ensures id in byId <==> id in Ids(spans)
      ensures id in byId ==> byId[id].span.id == id
    {
      HeldKey(spans, byId, id);
    }
  }

  lemma AreNodesSnoc(nodes: seq<Node>, ids: seq<text>, byId: map<text, Node>, id: text)
    requires AreNodes(nodes, ids, byId) && id in byId
    ensures AreNodes(nodes + [byId[id]], ids + [id], byId)
  {
  }

  lemma KidIdsNext(spans: seq<WebSpan>, p: text, n: nat)
    requires n < |spans|
    ensures KidIds(spans, p, n + 1) ==
            if Linked(spans, spans[n]) && spans[n].parent == p then KidIds(spans, p, n) + [spans[n].id]
            else KidIds(spans, p, n)
  {
  }

  lemma RootIdsNext(spans: seq<WebSpan>, n: nat)
    requires n < |spans|
    ensures RootIds(spans, n + 1) ==
            if Linked(spans, spans[n]) then RootIds(spans, n) else RootIds(spans, n) + [spans[n].id]
  {
  }

  lemma HungNext(spans: seq<WebSpan>, n: nat, byId: map<text, Node>)
    requires n < |spans| && !Linked(spans, spans[n]) && Hung(spans, n, byId)
    ensures Hung(spans, n + 1, byId)
  {
    forall p | p in byId
      ensures KidIds(spans, p, n + 1) == KidIds(spans, p, n)
    {
      KidIdsNext(spans, p, n);
    }
  }

  /** The node of span n becomes the last child of its parent's node. */
  method Push(ghost spans: seq<WebSpan>, ghost n: nat, s: WebSpan, byId: map<text, Node>)
    requires n < |spans| && s == spans[n] && Linked(spans, s)
    requires Named(byId) && s.id in byId && s.parent in byId && Hung(spans, n, byId)
    modifies byId[s.parent]
    ensures Hung(spans, n + 1, byId)
  {
    var parent := byId[s.parent];
    AreNodesSnoc(parent.children, KidIds(spans, s.parent, n), byId, s.id);
    parent.children := parent.children + [byId[s.id]];
    forall p | p in byId
      ensures AreNodes(byId[p].children, KidIds(spans, p, n + 1), byId)
    {
      assert p != s.parent ==> byId[p] != parent;
      KidIdsNext(spans, p, n);
    }
  }

  // ---- What the page promises ----

  /** Some span has this ID. */
  ghost predicate Known(spans: seq<WebSpan>, id: text) {
    exists i :: 0 <= i < |spans| && spans[i].id == id
  }

  /** Increasing positions below n. */
  ghost predicate Positions(at: seq<nat>, n: nat) {
    && (forall k :: 0 <= k < |at| ==> at[k] < n)
    && (forall k, l :: 0 <= k < l < |at| ==> at[k] < at[l])
  }

  lemma LinkedMeans(spans: seq<WebSpan>, s: WebSpan)
    ensures Linked(spans, s) <==> s.parent != [] && Known(spans, s.parent)
  {
    if s.parent in Ids(spans) {
      var i :| 0 <= i < |spans| && Ids(spans)[i] == s.parent;
      assert spans[i].id == s.parent;
    }
    if Known(spans, s.parent) {
      var i :| 0 <= i < |spans| && spans[i].id == s.parent;
      assert Ids(spans)[i] == s.parent;
    }
  }

  /** The spans that name p as their parent. */
  function ChildrenOf(spans: seq<WebSpan>, p: text, n: nat): (at: seq<nat>)
    requires n <= |spans|
    ensures Positions(at, n)
  {
    if n == 0 then []
    else if spans[n - 1].parent == p then ChildrenOf(spans, p, n - 1) + [n - 1]
    else ChildrenOf(spans, p, n - 1)
  }

  lemma {:induction false} ChildrenHas(spans: seq<WebSpan>, p: text, n: nat, j: nat)
    requires j < |spans| && n <= |spans|
    ensures j in ChildrenOf(spans, p, n) <==> j < n && spans[j].parent == p
    decreases n
  {
    if n > 0 {
      ChildrenHas(spans, p, n - 1, j);
    }
  }

  /** The spans without a parent, and those whose parent no span is. */
  ghost function Parentless(spans: seq<WebSpan>, n: nat): (at: seq<nat>)
    requires n <= |spans|
    ensures Positions(at, n)
  {
    if n == 0 then []
    else if spans[n - 1].parent == [] || !Known(spans, spans[n - 1].parent) then Parentless(spans, n - 1) + [n - 1]
    else Parentless(spans, n - 1)
  }

  lemma {:induction false} ParentlessHas(spans: seq<WebSpan>, n: nat, j: nat)
    requires j < |spans| && n <= |spans|
    ensures j in Parentless(spans, n) <==> j < n && (spans[j].parent == [] || !Known(spans, spans[j].parent))
    decreases n
  {
    if n > 0 {
      ParentlessHas(spans, n - 1, j);
    }
  }

  function IdsAt(spans: seq<WebSpan>, at: seq<nat>): (ids: seq<text>)
    requires forall k :: 0 <= k < |at| ==> at[k] < |spans|
    ensures |ids| == |at| && forall k :: 0 <= k < |at| ==> ids[k] == spans[at[k]].id
  {
    if at == [] then [] else IdsAt(spans, at[..|at| - 1]) + [spans[at[|at| - 1]].id]
  }

  lemma IdsAtSnoc(spans: seq<WebSpan>, at: seq<nat>, j: nat)
    requires j < |spans| && forall k :: 0 <= k < |at| ==> at[k] < |spans|
    ensures IdsAt(spans, at + [j]) == IdsAt(spans, at) + [spans[j].id]
  {
    assert (at + [j])[..|at|] == at;
  }

  ghost predicate KidsNamed(spans: seq<WebSpan>, p: text, n: nat) {
    n <= |spans| && KidIds(spans, p, n) == IdsAt(spans, ChildrenOf(spans, p, n))
  }

  lemma KidsNamedNext(spans: seq<WebSpan>, p: text, n: nat)
    requires n < |spans| && p != [] && Known(spans, p) && KidsNamed(spans, p, n)
    ensures KidsNamed(spans, p, n + 1)
  {
    KidIdsNext(spans, p, n);
    LinkedMeans(spans, spans[n]);
    IdsAtSnoc(spans, ChildrenOf(spans, p, n), n);
  }

  /** The children of an ID that some span has are, in input order, the spans
      that name it as their parent; duplicates included. */
  lemma {:induction false} KidsAreNamed(spans: seq<WebSpan>, p: text, n: nat)
    requires n <= |spans| && p != [] && Known(spans, p)
    ensures KidIds(spans, p, n) == IdsAt(spans, ChildrenOf(spans, p, n))
  {
    if n > 0 {
      KidsAreNamed(spans, p, n - 1);
      KidsNamedNext(spans, p, n - 1);
    }
  }

  /** Nothing hangs below the empty ID. */
  lemma {:induction false} NoKidsOfNone(spans: seq<WebSpan>, n: nat)
    requires n <= |spans|
    ensures KidIds(spans, [], n) == []
    decreases n
  {
    if n > 0 {
      NoKidsOfNone(spans, n - 1);
      LinkedMeans(spans, spans[n - 1]);
    }
  }

  lemma ParentlessNext(spans: seq<WebSpan>, n: nat)
    requires n < |spans|
    ensures Parentless(spans, n + 1)
         == if Linked(spans, spans[n]) then Parentless(spans, n) else Parentless(spans, n) + [n]
  {
    LinkedMeans(spans, spans[n]);
  }

  lemma RootsStep(spans: seq<WebSpan>, n: nat, at: seq<nat>)
    requires n < |spans| && Positions(at, n) && RootIds(spans, n) == IdsAt(spans, at)
    ensures RootIds(spans, n + 1) == IdsAt(spans, if Linked(spans, spans[n]) then at else at + [n])
  {
    RootIdsNext(spans, n);
    IdsAtSnoc(spans, at, n);
  }

  ghost predicate RootsNamed(spans: seq<WebSpan>, n: nat) {
    n <= |spans| && RootIds(spans, n) == IdsAt(spans, Parentless(spans, n))
  }

  lemma RootsNamedNext(spans: seq<WebSpan>, n: nat)
    requires n < |spans| && RootsNamed(spans, n)
    ensures RootsNamed(spans, n + 1)
  {
    RootsStep(spans, n, Parentless(spans, n));
    ParentlessNext(spans, n);
  }

  /** The roots are, in input order, the spans without a parent and those whose
      parent no span is. */
  lemma {:induction false} RootsAreNamed(spans: seq<WebSpan>, n: nat)
    requires n <= |spans|
    ensures RootIds(spans, n) == IdsAt(spans, Parentless(spans, n))
  {
    if n > 0 {
      RootsAreNamed(spans, n - 1);
      RootsNamedNext(spans, n - 1);
    }
  }

  /** The node of an ID holds the last span with it. */
  lemma {:induction false} LastIsHeld(spans: seq<WebSpan>, n: nat, i: nat)
    requires i < n <= |spans| && forall j :: i < j < n ==> spans[j].id != spans[i].id
    ensures spans[i].id in LastSpans(spans, n) && LastSpans(spans, n)[spans[i].id] == spans[i]
    decreases n
  {
    if i < n - 1 {
      LastIsHeld(spans, n - 1, i);
    }
  }

  lemma IdOnce(spans: seq<WebSpan>, i: nat)
    requires i < |spans| && Distinct(Ids(spans))
    ensures forall j :: 0 <= j < |spans| && j != i ==> spans[j].id != spans[i].id
  {
    forall j | 0 <= j < |spans| && j != i
      ensures spans[j].id != spans[i].id
    {
      assert Ids(spans)[j] != Ids(spans)[i];
    }
  }

  /** Among the nodes of the spans at these positions is span j's exactly when j
      is one of them. */
  lemma NodeAmong(spans: seq<WebSpan>, byId: map<text, Node>, nodes: seq<Node>, at: seq<nat>, j: nat)
    requires Distinct(Ids(spans)) && Holds(byId, LastSpans(spans, |spans|))
    requires j < |spans| && Positions(at, |spans|) && AreNodes(nodes, IdsAt(spans, at), byId)
    ensures spans[j].id in byId && (byId[spans[j].id] in nodes <==> j in at)
  {
    HeldKey(spans, byId, spans[j].id);
    assert Ids(spans)[j] == spans[j].id;
    if j in at {
      var k :| 0 <= k < |at| && at[k] == j;
      assert nodes[k] == byId[spans[j].id];
    }
    if byId[spans[j].id] in nodes {
      var k :| 0 <= k < |nodes| && nodes[k] == byId[spans[j].id];
      HeldKey(spans, byId, spans[at[k]].id);
      IdOnce(spans, j);
      assert at[k] == j;
    }
  }

  /** With distinct IDs span j's node is a child of span i's exactly when its
      parent is span i, ... */
  lemma ChildNode(spans: seq<WebSpan>, byId: map<text, Node>, i: nat, j: nat)
    requires i < |spans| && j < |spans| && Distinct(Ids(spans))
    requires Holds(byId, LastSpans(spans, |spans|)) && Hung(spans, |spans|, byId)
    ensures spans[i].id in byId && spans[j].id in byId
    ensures byId[spans[i].id].span == spans[i] && byId[spans[j].id].span == spans[j]
    ensures byId[spans[j].id] in byId[spans[i].id].children <==> spans[j].parent == spans[i].id && spans[i].id != []
  {
    var p, n := spans[i].id, |spans|;
    IdOnce(spans, i);
    IdOnce(spans, j);
    LastIsHeld(spans, n, i);
    LastIsHeld(spans, n, j);
    assert AreNodes(byId[p].children, KidIds(spans, p, n), byId);
    if p == [] {
      NoKidsOfNone(spans, n);
    } else {
      KidsAreNamed(spans, p, n);
      ChildrenHas(spans, p, n, j);
      NodeAmong(spans, byId, byId[p].children, ChildrenOf(spans, p, n), j);
    }
  }

  /** ... and a root exactly when it has no parent or no span is its parent. */
  lemma RootNode(spans: seq<WebSpan>, roots: seq<Node>, byId: map<text, Node>, j: nat)
    requires j < |spans| && Distinct(Ids(spans))
    requires Holds(byId, LastSpans(spans, |spans|)) && AreNodes(roots, RootIds(spans, |spans|), byId)
    ensures spans[j].id in byId && byId[spans[j].id].span == spans[j]
    ensures byId[spans[j].id] in roots
       <==> spans[j].parent == [] || forall i :: 0 <= i < |spans| ==> spans[i].id != spans[j].parent
  {
    var n := |spans|;
    IdOnce(spans, j);
    LastIsHeld(spans, n, j);
    RootsAreNamed(spans, n);
    ParentlessHas(spans, n, j);
    NodeAmong(spans, byId, roots, Parentless(spans, n), j);
  }

  /** Looking the parent up among the nodes tells whether the span is linked. */
  lemma LookedUp(spans: seq<WebSpan>, nodes: map<text, Node>, n: nat)
    requires n < |spans| && Holds(nodes, LastSpans(spans, |spans|))
    ensures spans[n].id in nodes
    ensures Linked(spans, spans[n]) <==> spans[n].parent != [] && spans[n].parent in nodes
  {
    HeldKey(spans, nodes, spans[n].id);
    HeldKey(spans, nodes, spans[n].parent);
    assert Ids(spans)[n] == spans[n].id;
  }

  /** Span n is hung below its parent or becomes a root. */
  method Place(ghost spans: seq<WebSpan>, ghost n: nat, s: WebSpan, nodes: map<text, Node>, roots: seq<Node>)
    returns (roots': seq<Node>)
    requires n < |spans| && s == spans[n] && Holds(nodes, LastSpans(spans, |spans|))
    requires AreNodes(roots, RootIds(spans, n), nodes) && Hung(spans, n, nodes)
    modifies nodes.Values
    ensures AreNodes(roots', RootIds(spans, n + 1), nodes) && Hung(spans, n + 1, nodes)
  {
    HeldNamed(spans, nodes);
    LookedUp(spans, nodes, n);
    RootIdsNext(spans, n);
    if s.parent != [] && s.parent in nodes {
      assert nodes[s.parent] in nodes.Values;
      Push(spans, n, s, nodes);
      roots' := roots;
    } else {
      AreNodesSnoc(roots, RootIds(spans, n), nodes, s.id);
      roots' := roots + [nodes[s.id]];
      HungNext(spans, n, nodes);
    }
  }

  /** Two passes: a node for every ID, then every span hung below its parent or
      made a root, in input order. */
  method BuildTree(spans: seq<WebSpan>) returns (roots: seq<Node>, ghost byId: map<text, Node>)
    ensures Holds(byId, LastSpans(spans, |spans|)) && fresh(byId.Values)
    ensures AreNodes(roots, RootIds(spans, |spans|), byId)
    ensures Hung(spans, |spans|, byId)
  {
    var nodes := MakeNodes(spans);
    roots := [];
    for n := 0 to |spans|
      invariant AreNodes(roots, RootIds(spans, n), nodes)
      invariant Hung(spans, n, nodes)
    {
      roots := Place(spans, n, spans[n], nodes, roots);
    }
    byId := nodes;
  }
}
