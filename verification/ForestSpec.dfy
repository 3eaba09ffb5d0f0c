/** Parent links between spans, and the depth-first order of the forest they
    form. The links are arbitrary: they may contain cycles, and a span whose
    chain of parents never ends belongs to no tree. */
module ForestSpec {
  import opened Bytes

  /** The spans' IDs in input order, and the parent of every span that has one
      among them. */
  datatype Links = Links(ids: seq<text>, parent: map<text, text>)

  ghost predicate Valid(g: Links) {
    && Distinct(g.ids)
    && (forall id :: id in g.parent ==> id in g.ids && g.parent[id] in g.ids)
  }

  /** The children of p among the first n spans, in input order. */
  function Kids(g: Links, p: text, n: nat): seq<text>
    requires n <= |g.ids|
  {
    if n == 0 then []
    else Kids(g, p, n - 1) + if g.ids[n - 1] in g.parent && g.parent[g.ids[n - 1]] == p then [g.ids[n - 1]] else []
  }

  function Roots(g: Links, n: nat): seq<text>
    requires n <= |g.ids|
  {
    if n == 0 then []
    else Roots(g, n - 1) + if g.ids[n - 1] !in g.parent then [g.ids[n - 1]] else []
  }

  function AllKids(g: Links, p: text): seq<text> {
    Kids(g, p, |g.ids|)
  }

  function AllRoots(g: Links): seq<text> {
    Roots(g, |g.ids|)
  }

  /** x is reached from y by following j parent links. */
  predicate Above(g: Links, y: text, j: nat, x: text)
    decreases j
  {
    if j == 0 then x == y else y in g.parent && Above(g, g.parent[y], j - 1, x)
  }

  /** Following d parent links from y leads to a span without a parent. */
  predicate DepthIs(g: Links, y: text, d: nat)
    decreases d
  {
    if d == 0 then y !in g.parent else y in g.parent && DepthIs(g, g.parent[y], d - 1)
  }

  /** The chain of parents from y reaches a root. */
  ghost predicate Grounded(g: Links, y: text) {
    exists d: nat :: DepthIs(g, y, d)
  }

  ghost predicate Acyclic(g: Links) {
    forall y, j: nat :: y in g.ids && j > 0 ==> !Above(g, y, j, y)
  }

  /** The depth-first order below the spans ks, at most `levels` deep. */
  function Preorder(g: Links, ks: seq<text>, levels: nat): seq<text>
    decreases levels, |ks|
  {
    if ks == [] || levels == 0 then []
    else [ks[0]] + Preorder(g, AllKids(g, ks[0]), levels - 1) + Preorder(g, ks[1..], levels)
  }

  /** No span of this forest is `levels` deep or deeper. */
  ghost predicate Fits(g: Links, levels: nat) {
    forall y, d: nat :: y in g.ids && DepthIs(g, y, d) ==> d < levels
  }

  // ---- Depths ----

  lemma {:induction false} DepthUnique(g: Links, y: text, d: nat, e: nat)
    requires DepthIs(g, y, d) && DepthIs(g, y, e)
    ensures d == e
    decreases d
  {
    if d > 0 {
      DepthUnique(g, g.parent[y], d - 1, e - 1);
    }
  }

  lemma {:induction false} AboveDepth(g: Links, y: text, j: nat, x: text, d: nat)
    requires Above(g, y, j, x) && DepthIs(g, x, d)
    ensures DepthIs(g, y, d + j)
    decreases j
  {
    if j > 0 {
      AboveDepth(g, g.parent[y], j - 1, x, d);
    }
  }

  lemma {:induction false} AboveUnique(g: Links, y: text, j: nat, x: text, z: text)
    requires Above(g, y, j, x) && Above(g, y, j, z)
    ensures x == z
    decreases j
  {
    if j > 0 {
      AboveUnique(g, g.parent[y], j - 1, x, z);
    }
  }

  /** The last link of a chain upwards comes from a child of its end. */
  lemma {:induction false} AboveLastLink(g: Links, y: text, j: nat, x: text) returns (c: text)
    requires j > 0 && Above(g, y, j, x)
    ensures c in g.parent && g.parent[c] == x && Above(g, y, j - 1, c)
    decreases j
  {
    if j == 1 {
      c := y;
    } else {
      c := AboveLastLink(g, g.parent[y], j - 1, x);
    }
  }

  lemma {:induction false} AboveTrans(g: Links, y: text, j: nat, x: text, k: nat, z: text)
    requires Above(g, y, j, x) && Above(g, x, k, z)
    ensures Above(g, y, j + k, z)
    decreases j
  {
    if j > 0 {
      AboveTrans(g, g.parent[y], j - 1, x, k, z);
    }
  }

  lemma {:induction false} GroundedRoot(g: Links, y: text, d: nat) returns (r: text)
    requires Valid(g) && y in g.ids && DepthIs(g, y, d)
    ensures r in g.ids && r !in g.parent && Above(g, y, d, r)
    decreases d
  {
    if d == 0 {
      r := y;
    } else {
      r := GroundedRoot(g, g.parent[y], d - 1);
    }
  }

  /** There is a bound on the depth of all spans that have one. */
  lemma {:induction false} SomeFit(g: Links, n: nat) returns (levels: nat)
    requires n <= |g.ids|
    ensures forall i, d: nat :: 0 <= i < n && DepthIs(g, g.ids[i], d) ==> d < levels
  {
    if n == 0 {
      levels := 0;
    } else {
      levels := SomeFit(g, n - 1);
      var y := g.ids[n - 1];
      if Grounded(g, y) {
        var d: nat :| DepthIs(g, y, d);
        forall e: nat | DepthIs(g, y, e)
          ensures e == d
        {
          DepthUnique(g, y, d, e);
        }
        levels := if levels > d then levels else d + 1;
      }
    }
  }

  lemma FitExists(g: Links)
    ensures exists levels: nat :: Fits(g, levels)
  {
    var levels := SomeFit(g, |g.ids|);
    forall y, d: nat | y in g.ids && DepthIs(g, y, d)
      ensures d < levels
    {
      var i :| 0 <= i < |g.ids| && g.ids[i] == y;
    }
    assert Fits(g, levels);
  }

  // ---- Children and roots ----

  lemma {:induction false} KidsAre(g: Links, p: text, n: nat)
    requires n <= |g.ids| && Distinct(g.ids)
    ensures Distinct(Kids(g, p, n))
    ensures forall c :: c in Kids(g, p, n) <==> c in g.ids[..n] && c in g.parent && g.parent[c] == p
  {
    if n > 0 {
      KidsAre(g, p, n - 1);
      assert g.ids[..n] == g.ids[..n - 1] + [g.ids[n - 1]];
      assert g.ids[n - 1] !in g.ids[..n - 1];
    }
  }

  lemma {:induction false} RootsAre(g: Links, n: nat)
    requires n <= |g.ids| && Distinct(g.ids)
    ensures Distinct(Roots(g, n))
    ensures forall c :: c in Roots(g, n) <==> c in g.ids[..n] && c !in g.parent
  {
    if n > 0 {
      RootsAre(g, n - 1);
      assert g.ids[..n] == g.ids[..n - 1] + [g.ids[n - 1]];
      assert g.ids[n - 1] !in g.ids[..n - 1];
    }
  }

  /** Siblings at depth d: distinct spans of the forest, as children of one span
      or as the roots are. */
  ghost predicate Level(g: Links, ks: seq<text>, d: nat) {
    Distinct(ks) && forall i :: 0 <= i < |ks| ==> ks[i] in g.ids && DepthIs(g, ks[i], d)
  }

  lemma KidsLevel(g: Links, p: text, d: nat)
    requires Valid(g) && DepthIs(g, p, d)
    ensures Level(g, AllKids(g, p), d + 1)
  {
    KidsAre(g, p, |g.ids|);
    forall i | 0 <= i < |AllKids(g, p)|
      ensures AllKids(g, p)[i] in g.ids && DepthIs(g, AllKids(g, p)[i], d + 1)
    {
      assert AllKids(g, p)[i] in AllKids(g, p);
    }
  }

  lemma RootsLevel(g: Links)
    requires Valid(g)
    ensures Level(g, AllRoots(g), 0)
  {
    RootsAre(g, |g.ids|);
    forall i | 0 <= i < |AllRoots(g)|
      ensures AllRoots(g)[i] in g.ids && DepthIs(g, AllRoots(g)[i], 0)
    {
      assert AllRoots(g)[i] in AllRoots(g);
    }
  }

  lemma IsKid(g: Links, c: text)
    requires Valid(g) && c in g.parent
    ensures c in AllKids(g, g.parent[c])
  {
    KidsAre(g, g.parent[c], |g.ids|);
    assert g.ids[..|g.ids|] == g.ids;
  }

  lemma LevelTail(g: Links, ks: seq<text>, d: nat)
    requires Level(g, ks, d) && ks != []
    ensures Level(g, ks[1..], d)
  {
  }
}
