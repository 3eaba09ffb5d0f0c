/** Properties of the depth-first order: which spans it contains, that each
    comes once, and how it nests. */
module ForestOrder {
  import opened Bytes
  import opened ForestSpec

  // ---- Membership ----

  lemma {:induction false} PreorderSound(g: Links, ks: seq<text>, levels: nat, y: text) returns (k: text, j: nat)
    requires y in Preorder(g, ks, levels)
    ensures k in ks && Above(g, y, j, k)
    decreases levels, |ks|
  {
    var below := Preorder(g, AllKids(g, ks[0]), levels - 1);
    if y == ks[0] {
      k, j := ks[0], 0;
    } else if y in below {
      var c, i := PreorderSound(g, AllKids(g, ks[0]), levels - 1, y);
      KidHasParent(g, ks[0], |g.ids|, c);
      assert Above(g, c, 1, ks[0]) by { assert Above(g, ks[0], 0, ks[0]); }
      AboveTrans(g, y, i, c, 1, ks[0]);
      k, j := ks[0], i + 1;
    } else {
      k, j := PreorderSound(g, ks[1..], levels, y);
    }
  }

  lemma {:induction false} KidHasParent(g: Links, p: text, n: nat, c: text)
    requires n <= |g.ids| && c in Kids(g, p, n)
    ensures c in g.parent && g.parent[c] == p
  {
    if c in Kids(g, p, n - 1) {
      KidHasParent(g, p, n - 1, c);
    }
  }

  lemma {:induction false} PreorderComplete(g: Links, ks: seq<text>, d: nat, levels: nat, k: text, j: nat, y: text)
    requires Valid(g) && Level(g, ks, d) && Fits(g, d + levels)
    requires k in ks && Above(g, y, j, k)
    ensures y in Preorder(g, ks, levels)
    decreases levels, |ks|
  {
    assert DepthIs(g, ks[0], d);
    assert levels > 0;
    if k != ks[0] {
      LevelTail(g, ks, d);
      PreorderComplete(g, ks[1..], d, levels, k, j, y);
    } else if j > 0 {
      var c := AboveLastLink(g, y, j, k);
      IsKid(g, c);
      KidsLevel(g, k, d);
      PreorderComplete(g, AllKids(g, k), d + 1, levels - 1, c, j - 1, y);
    }
  }

  // ---- Each span once ----

  lemma DistinctConcat(a: seq<text>, b: seq<text>)
    requires Distinct(a) && Distinct(b)
    requires forall x :: x in b ==> x !in a
    ensures Distinct(a + b)
  {
    forall i, j | 0 <= i < j < |a + b|
      ensures (a + b)[i] != (a + b)[j]
    {
      if i < |a| <= j {
        assert (a + b)[i] in a && (a + b)[j] in b;
      }
    }
  }

  lemma DistinctCons(k: text, s: seq<text>)
    requires Distinct(s) && k !in s
    ensures Distinct([k] + s)
  {
    assert Distinct([k]);
    DistinctConcat([k], s);
  }

  /** Below two siblings there is nothing in common, and neither is below the
      other. */
  lemma SiblingsApart(g: Links, k: text, l: text, d: nat, y: text, i: nat, j: nat)
    requires DepthIs(g, k, d) && DepthIs(g, l, d)
    requires Above(g, y, i, k) && Above(g, y, j, l)
    ensures k == l
  {
    AboveDepth(g, y, i, k, d);
    AboveDepth(g, y, j, l, d);
    DepthUnique(g, y, d + i, d + j);
    AboveUnique(g, y, i, k, l);
  }

  lemma NotBelowItself(g: Links, k: text, d: nat, j: nat)
    requires DepthIs(g, k, d) && Above(g, k, j, k)
    ensures j == 0
  {
    AboveDepth(g, k, j, k, d);
    DepthUnique(g, k, d, d + j);
  }

  /** A tree and the trees after it have each span once. */
  lemma TreesDistinct(g: Links, ks: seq<text>, d: nat, levels: nat)
    requires Level(g, ks, d) && ks != [] && levels > 0
    requires Distinct(Preorder(g, AllKids(g, ks[0]), levels - 1)) && Distinct(Preorder(g, ks[1..], levels))
    ensures Distinct(Preorder(g, ks, levels))
  {
    var below, after := Preorder(g, AllKids(g, ks[0]), levels - 1), Preorder(g, ks[1..], levels);
    NotBelow(g, ks[0], d, levels - 1);
    DistinctCons(ks[0], below);
    forall y | y in after
      ensures y !in [ks[0]] + below
    {
      TreesApart(g, ks, d, levels, y);
    }
    DistinctConcat([ks[0]] + below, after);
  }

  lemma {:induction false} PreorderDistinct(g: Links, ks: seq<text>, d: nat, levels: nat)
    requires Valid(g) && Level(g, ks, d)
    ensures Distinct(Preorder(g, ks, levels))
    decreases levels, |ks|
  {
    if ks != [] && levels > 0 {
      KidsLevel(g, ks[0], d);
      LevelTail(g, ks, d);
      PreorderDistinct(g, AllKids(g, ks[0]), d + 1, levels - 1);
      PreorderDistinct(g, ks[1..], d, levels);
      TreesDistinct(g, ks, d, levels);
    }
  }

  lemma TreesApart(g: Links, ks: seq<text>, d: nat, levels: nat, y: text)
    requires Level(g, ks, d) && ks != [] && levels > 0
    requires y in Preorder(g, ks[1..], levels)
    ensures y !in [ks[0]] + Preorder(g, AllKids(g, ks[0]), levels - 1)
  {
    if y in [ks[0]] + Preorder(g, AllKids(g, ks[0]), levels - 1) {
      var l, j := PreorderSound(g, ks[1..], levels, y);
      var i := BelowOrSelf(g, ks[0], levels - 1, y);
      SiblingsApart(g, ks[0], l, d, y, i, j);
    }
  }

  lemma BelowOrSelf(g: Links, k: text, levels: nat, y: text) returns (j: nat)
    requires y in [k] + Preorder(g, AllKids(g, k), levels)
    ensures Above(g, y, j, k)
  {
    if y == k {
      j := 0;
    } else {
      j := Below(g, k, levels, y);
    }
  }

  lemma Below(g: Links, k: text, levels: nat, y: text) returns (j: nat)
    requires y in Preorder(g, AllKids(g, k), levels)
    ensures j > 0 && Above(g, y, j, k)
  {
    var c, i := PreorderSound(g, AllKids(g, k), levels, y);
    KidHasParent(g, k, |g.ids|, c);
    assert Above(g, c, 1, k) by { assert Above(g, k, 0, k); }
    AboveTrans(g, y, i, c, 1, k);
    j := i + 1;
  }

  lemma NotBelow(g: Links, k: text, d: nat, levels: nat)
    requires DepthIs(g, k, d)
    ensures k !in Preorder(g, AllKids(g, k), levels)
  {
    if k in Preorder(g, AllKids(g, k), levels) {
      var j := Below(g, k, levels, k);
      NotBelowItself(g, k, d, j);
    }
  }

  // ---- The whole forest ----

  /** The order contains exactly the spans whose chain of parents reaches a
      root, each of them once. */
  lemma FlatForest(g: Links, levels: nat)
    requires Valid(g) && Fits(g, levels)
    ensures Distinct(Preorder(g, AllRoots(g), levels))
    ensures forall y :: y in Preorder(g, AllRoots(g), levels) <==> y in g.ids && Grounded(g, y)
  {
    RootsLevel(g);
    PreorderDistinct(g, AllRoots(g), 0, levels);
    RootsAre(g, |g.ids|);
    assert g.ids[..|g.ids|] == g.ids;
    forall y | y in Preorder(g, AllRoots(g), levels)
      ensures y in g.ids && Grounded(g, y)
    {
      var k, j := PreorderSound(g, AllRoots(g), levels, y);
      AboveDepth(g, y, j, k, 0);
      InIds(g, y, j, k);
    }
    forall y | y in g.ids && Grounded(g, y)
      ensures y in Preorder(g, AllRoots(g), levels)
    {
      var d: nat :| DepthIs(g, y, d);
      var r := GroundedRoot(g, y, d);
      PreorderComplete(g, AllRoots(g), 0, levels, r, d, y);
    }
  }

  lemma InIds(g: Links, y: text, j: nat, k: text)
    requires Valid(g) && k in g.ids && Above(g, y, j, k)
    ensures y in g.ids
  {
  }

  lemma {:induction false} DistinctCount(s: seq<text>, x: text)
    requires Distinct(s)
    ensures multiset(s)[x] == if x in s then 1 else 0
  {
    if s != [] {
      var init, last := s[..|s| - 1], s[|s| - 1];
      assert s == init + [last];
      DistinctCount(init, x);
    }
  }

  lemma SameMembers(a: seq<text>, b: seq<text>)
    requires Distinct(a) && Distinct(b)
    ensures multiset(a) == multiset(b) <==> forall x :: x in a <==> x in b
  {
    if multiset(a) == multiset(b) {
      forall x
        ensures x in a <==> x in b
      {
        assert x in multiset(a) <==> x in multiset(b);
      }
    }
    if forall x :: x in a <==> x in b {
      forall x
        ensures multiset(a)[x] == multiset(b)[x]
      {
        DistinctCount(a, x);
        DistinctCount(b, x);
      }
    }
  }

  /** The order is a permutation of the input exactly when every chain of
      parents reaches a root. */
  lemma FlatPermutation(g: Links, levels: nat)
    requires Valid(g) && Fits(g, levels)
    ensures multiset(Preorder(g, AllRoots(g), levels)) == multiset(g.ids)
       <==> forall y :: y in g.ids ==> Grounded(g, y)
  {
    FlatForest(g, levels);
    SameMembers(Preorder(g, AllRoots(g), levels), g.ids);
  }

  // ---- Chains that never end are cycles ----

  /** The first n + 1 spans of the chain of parents from y. */
  function Chain(g: Links, y: text, n: nat): seq<text>
    decreases n
  {
    if n == 0 || y !in g.parent then [y] else [y] + Chain(g, g.parent[y], n - 1)
  }

  lemma GroundedLink(g: Links, y: text)
    ensures y !in g.parent ==> Grounded(g, y)
    ensures y in g.parent && Grounded(g, g.parent[y]) ==> Grounded(g, y)
  {
    assert y !in g.parent ==> DepthIs(g, y, 0);
    if y in g.parent && Grounded(g, g.parent[y]) {
      var d: nat :| DepthIs(g, g.parent[y], d);
      assert DepthIs(g, y, d + 1);
    }
  }

  lemma {:induction false} ChainMeaning(g: Links, y: text, n: nat)
    requires Valid(g) && y in g.ids && !Grounded(g, y)
    ensures |Chain(g, y, n)| == n + 1
    ensures forall i :: 0 <= i <= n ==> Chain(g, y, n)[i] in g.ids && Above(g, y, i, Chain(g, y, n)[i])
    decreases n
  {
    GroundedLink(g, y);
    if n > 0 {
      ChainMeaning(g, g.parent[y], n - 1);
    }
  }

  lemma {:induction false} DistinctFits(s: seq<text>, ids: seq<text>)
    requires Distinct(s) && forall x :: x in s ==> x in ids
    ensures |s| <= |ids|
  {
    if s != [] {
      var init, last := s[..|s| - 1], s[|s| - 1];
      assert last in s && forall x :: x in init ==> x in s;
      var i :| 0 <= i < |ids| && ids[i] == last;
      var rest := ids[..i] + ids[i + 1..];
      forall x | x in init
        ensures x in rest
      {
        var j :| 0 <= j < |ids| && ids[j] == x;
        assert j != i;
        assert x == rest[if j < i then j else j - 1];
      }
      DistinctFits(init, rest);
    }
  }

  lemma {:induction false} AboveSuffix(g: Links, y: text, i: nat, x: text, j: nat, z: text)
    requires Above(g, y, i, x) && Above(g, y, j, z) && i <= j
    ensures Above(g, x, j - i, z)
    decreases i
  {
    if i > 0 {
      AboveSuffix(g, g.parent[y], i - 1, x, j - 1, z);
    }
  }

  /** Every chain of parents reaches a root exactly when there is no cycle. */
  lemma GroundedIffAcyclic(g: Links)
    requires Valid(g)
    ensures (forall y :: y in g.ids ==> Grounded(g, y)) <==> Acyclic(g)
  {
    if forall y :: y in g.ids ==> Grounded(g, y) {
      forall y, j: nat | y in g.ids && j > 0
        ensures !Above(g, y, j, y)
      {
        var d: nat :| DepthIs(g, y, d);
        if Above(g, y, j, y) {
          NotBelowItself(g, y, d, j);
        }
      }
    }
    if Acyclic(g) {
      forall y | y in g.ids
        ensures Grounded(g, y)
      {
        if !Grounded(g, y) {
          UngroundedCycle(g, y);
        }
      }
    }
  }

  lemma UngroundedCycle(g: Links, y: text)
    requires Valid(g) && y in g.ids && !Grounded(g, y)
    ensures !Acyclic(g)
  {
    var n := |g.ids|;
    var chain := Chain(g, y, n);
    ChainMeaning(g, y, n);
    if Distinct(chain) {
      DistinctFits(chain, g.ids);
    } else {
      var i, j :| 0 <= i < j < |chain| && chain[i] == chain[j];
      AboveSuffix(g, y, i, chain[i], j, chain[j]);
      assert Above(g, chain[i], j - i, chain[i]);
    }
  }

  // ---- How the order nests ----

  lemma PreorderOne(g: Links, x: text, levels: nat)
    requires levels > 0
    ensures Preorder(g, [x], levels) == [x] + Preorder(g, AllKids(g, x), levels - 1)
  {
    assert [x][1..] == [];
  }

  lemma PreorderCons(g: Links, ks: seq<text>, levels: nat)
    requires ks != [] && levels > 0
    ensures Preorder(g, ks, levels)
         == [ks[0]] + Preorder(g, AllKids(g, ks[0]), levels - 1) + Preorder(g, ks[1..], levels)
  {
  }

  lemma Around(a: seq<text>, b: seq<text>, c: seq<text>, pre: seq<text>, mid: seq<text>, post: seq<text>)
    requires b == pre + mid + post
    ensures a + b + c == (a + pre) + mid + (post + c)
  {
  }

  lemma AboveKid(g: Links, y: text, j: nat, c: text, k: text)
    requires c in AllKids(g, k) && Above(g, y, j, c)
    ensures Above(g, y, j + 1, k)
  {
    KidHasParent(g, k, |g.ids|, c);
    assert Above(g, c, 1, k) by { assert Above(g, k, 0, k); }
    AboveTrans(g, y, j, c, 1, k);
  }

  lemma FirstTree(g: Links, ks: seq<text>, levels: nat)
    requires ks != [] && levels > 0
    ensures Preorder(g, ks, levels) == [] + Preorder(g, [ks[0]], levels) + Preorder(g, ks[1..], levels)
  {
    PreorderCons(g, ks, levels);
    PreorderOne(g, ks[0], levels);
  }

  lemma InFirstTree(g: Links, ks: seq<text>, levels: nat, pre: seq<text>, mid: seq<text>, post: seq<text>)
    requires ks != [] && levels > 0 && Preorder(g, AllKids(g, ks[0]), levels - 1) == pre + mid + post
    ensures Preorder(g, ks, levels) == ([ks[0]] + pre) + mid + (post + Preorder(g, ks[1..], levels))
  {
    PreorderCons(g, ks, levels);
    Around([ks[0]], pre + mid + post, Preorder(g, ks[1..], levels), pre, mid, post);
  }

  lemma InLaterTrees(g: Links, ks: seq<text>, levels: nat, pre: seq<text>, mid: seq<text>, post: seq<text>)
    requires ks != [] && levels > 0 && Preorder(g, ks[1..], levels) == pre + mid + post
    ensures Preorder(g, ks, levels)
         == ([ks[0]] + Preorder(g, AllKids(g, ks[0]), levels - 1) + pre) + mid + post
  {
    PreorderCons(g, ks, levels);
    Around([ks[0]] + Preorder(g, AllKids(g, ks[0]), levels - 1), pre + mid + post, [], pre, mid, post);
    assert post + [] == post;
  }

  /** Every span in the order is followed at once by everything below it: the
      order is that of the span alone with something before and after it. */
  lemma {:induction false} SubtreeContiguous(g: Links, ks: seq<text>, levels: nat, x: text)
    returns (pre: seq<text>, rest: nat, post: seq<text>, k: text, j: nat)
    requires x in Preorder(g, ks, levels)
    ensures j + rest == levels && rest > 0
    ensures k in ks && Above(g, x, j, k)
    ensures Preorder(g, ks, levels) == pre + Preorder(g, [x], rest) + post
    decreases levels, |ks|
  {
    var below, after := Preorder(g, AllKids(g, ks[0]), levels - 1), Preorder(g, ks[1..], levels);
    if x == ks[0] {
      FirstTree(g, ks, levels);
      pre, rest, post, k, j := [], levels, after, x, 0;
    } else if x in below {
      var c, i;
      pre, rest, post, c, i := SubtreeContiguous(g, AllKids(g, ks[0]), levels - 1, x);
      InFirstTree(g, ks, levels, pre, Preorder(g, [x], rest), post);
      AboveKid(g, x, i, c, ks[0]);
      pre, post, k, j := [ks[0]] + pre, post + after, ks[0], i + 1;
    } else {
      PreorderCons(g, ks, levels);
      pre, rest, post, k, j := SubtreeContiguous(g, ks[1..], levels, x);
      InLaterTrees(g, ks, levels, pre, Preorder(g, [x], rest), post);
      pre := [ks[0]] + below + pre;
    }
  }

  /** The chain of parents from y passes through x, or starts there. */
  ghost predicate Under(g: Links, y: text, x: text) {
    y in g.ids && exists j: nat :: Above(g, y, j, x)
  }

  lemma SubtreeIs(g: Links, x: text, e: nat, levels: nat, y: text)
    requires Valid(g) && x in g.ids && DepthIs(g, x, e) && Fits(g, e + levels)
    ensures y in Preorder(g, [x], levels) <==> Under(g, y, x)
  {
    assert Level(g, [x], e);
    if y in Preorder(g, [x], levels) {
      var k, j := PreorderSound(g, [x], levels, y);
      InIds(g, y, j, x);
    }
    if Under(g, y, x) {
      var j: nat :| Above(g, y, j, x);
      PreorderComplete(g, [x], e, levels, x, j, y);
    }
  }

  lemma FlatContains(g: Links, levels: nat, x: text)
    requires Valid(g) && Fits(g, levels) && x in g.ids && Grounded(g, x)
    ensures x in Preorder(g, AllRoots(g), levels) && Level(g, AllRoots(g), 0)
  {
    FlatForest(g, levels);
    RootsLevel(g);
  }

  lemma HeadDepth(g: Links, ks: seq<text>, d: nat, k: text)
    requires Level(g, ks, d) && k in ks
    ensures DepthIs(g, k, d)
  {
  }

  lemma FlatAround(g: Links, levels: nat, x: text)
    returns (pre: seq<text>, rest: nat, post: seq<text>)
    requires Valid(g) && Fits(g, levels) && x in g.ids && Grounded(g, x)
    ensures 0 < rest <= levels && DepthIs(g, x, levels - rest)
    ensures Preorder(g, AllRoots(g), levels) == pre + ([x] + Preorder(g, AllKids(g, x), rest - 1)) + post
  {
    FlatContains(g, levels, x);
    var r, e;
    pre, rest, post, r, e := SubtreeContiguous(g, AllRoots(g), levels, x);
    PreorderOne(g, x, rest);
    HeadDepth(g, AllRoots(g), 0, r);
    AboveDepth(g, x, e, r, 0);
  }

  /** In the flattened forest every span is followed at once by exactly the
      spans below it. */
  lemma FlatNests(g: Links, levels: nat, x: text)
    returns (pre: seq<text>, below: seq<text>, post: seq<text>)
    requires Valid(g) && Fits(g, levels) && x in g.ids && Grounded(g, x)
    ensures Preorder(g, AllRoots(g), levels) == pre + ([x] + below) + post
    ensures forall y :: y in [x] + below <==> Under(g, y, x)
  {
    var rest;
    pre, rest, post := FlatAround(g, levels, x);
    below := Preorder(g, AllKids(g, x), rest - 1);
    PreorderOne(g, x, rest);
    var e: nat := levels - rest;
    assert Fits(g, e + rest);
    forall y
      ensures y in [x] + below <==> Under(g, y, x)
    {
      SubtreeIs(g, x, e, rest, y);
    }
  }

  /** a comes somewhere before b. */
  ghost predicate Before(order: seq<text>, a: text, b: text) {
    exists u, v :: 0 <= u < v < |order| && order[u] == a && order[v] == b
  }

  lemma BeforeInside(pre: seq<text>, mid: seq<text>, post: seq<text>, a: text, b: text)
    requires Before(mid, a, b)
    ensures Before(pre + mid + post, a, b)
  {
    var u, v :| 0 <= u < v < |mid| && mid[u] == a && mid[v] == b;
    var all := pre + mid + post;
    assert all[|pre| + u] == a && all[|pre| + v] == b;
  }

  lemma {:induction false} HeadsInOrder(g: Links, ks: seq<text>, levels: nat, k: text)
    requires k in ks && levels > 0
    ensures k in Preorder(g, ks, levels)
    decreases |ks|
  {
    if k != ks[0] {
      HeadsInOrder(g, ks[1..], levels, k);
    }
  }

  /** Siblings come in the order in which their list has them. */
  lemma {:induction false} SiblingOrder(g: Links, ks: seq<text>, levels: nat, a: text, b: text)
    requires Before(ks, a, b) && levels > 0
    ensures Before(Preorder(g, ks, levels), a, b)
    decreases |ks|
  {
    var u, v :| 0 <= u < v < |ks| && ks[u] == a && ks[v] == b;
    var below, after := Preorder(g, AllKids(g, ks[0]), levels - 1), Preorder(g, ks[1..], levels);
    PreorderCons(g, ks, levels);
    var order := [ks[0]] + below + after;
    var shift := 1 + |below|;
    if u == 0 {
      assert ks[1..][v - 1] == b;
      HeadsInOrder(g, ks[1..], levels, b);
      var w :| 0 <= w < |after| && after[w] == b;
      assert order[0] == a && order[shift + w] == b;
    } else {
      assert ks[1..][u - 1] == a && ks[1..][v - 1] == b;
      SiblingOrder(g, ks[1..], levels, a, b);
      BeforeInside([ks[0]] + below, after, [], a, b);
      assert [ks[0]] + below + after + [] == order;
    }
  }

  lemma BeforeLonger(s: seq<text>, more: seq<text>, a: text, b: text)
    requires Before(s, a, b)
    ensures Before(s + more, a, b)
  {
    BeforeInside([], s, more, a, b);
    assert [] + s == s;
  }

  lemma BeforeLast(s: seq<text>, a: text, b: text)
    requires a in s
    ensures Before(s + [b], a, b)
  {
    var u :| 0 <= u < |s| && s[u] == a;
    assert (s + [b])[u] == a && (s + [b])[|s|] == b;
  }

  lemma {:induction false} KidsInOrder(g: Links, p: text, n: nat, i: nat, j: nat)
    requires i < j < n <= |g.ids|
    requires IsKidOf(g, g.ids[i], p) && IsKidOf(g, g.ids[j], p)
    ensures Before(Kids(g, p, n), g.ids[i], g.ids[j])
    decreases n
  {
    if j < n - 1 {
      KidsInOrder(g, p, n - 1, i, j);
      BeforeLonger(Kids(g, p, n - 1), if IsKidOf(g, g.ids[n - 1], p) then [g.ids[n - 1]] else [], g.ids[i], g.ids[j]);
    } else {
      KidListed(g, p, n - 1, i);
      BeforeLast(Kids(g, p, n - 1), g.ids[i], g.ids[j]);
    }
  }

  predicate IsKidOf(g: Links, c: text, p: text) {
    c in g.parent && g.parent[c] == p
  }

  lemma {:induction false} KidListed(g: Links, p: text, n: nat, i: nat)
    requires i < n <= |g.ids| && IsKidOf(g, g.ids[i], p)
    ensures g.ids[i] in Kids(g, p, n)
    decreases n
  {
    if i < n - 1 {
      KidListed(g, p, n - 1, i);
    }
  }

  lemma {:induction false} RootsInOrder(g: Links, n: nat, i: nat, j: nat)
    requires i < j < n <= |g.ids|
    requires g.ids[i] !in g.parent && g.ids[j] !in g.parent
    ensures Before(Roots(g, n), g.ids[i], g.ids[j])
    decreases n
  {
    if j < n - 1 {
      RootsInOrder(g, n - 1, i, j);
      BeforeLonger(Roots(g, n - 1), if g.ids[n - 1] !in g.parent then [g.ids[n - 1]] else [], g.ids[i], g.ids[j]);
    } else {
      RootListed(g, n - 1, i);
      BeforeLast(Roots(g, n - 1), g.ids[i], g.ids[j]);
    }
  }

  lemma {:induction false} RootListed(g: Links, n: nat, i: nat)
    requires i < n <= |g.ids| && g.ids[i] !in g.parent
    ensures g.ids[i] in Roots(g, n)
    decreases n
  {
    if i < n - 1 {
      RootListed(g, n - 1, i);
    }
  }

  lemma FlatRootsOrdered(g: Links, levels: nat, i: nat, j: nat)
    requires Valid(g) && Fits(g, levels) && i < j < |g.ids|
    requires g.ids[i] !in g.parent && g.ids[j] !in g.parent
    ensures Before(Preorder(g, AllRoots(g), levels), g.ids[i], g.ids[j])
  {
    RootsInOrder(g, |g.ids|, i, j);
    assert DepthIs(g, g.ids[i], 0);
    SiblingOrder(g, AllRoots(g), levels, g.ids[i], g.ids[j]);
  }

  lemma FlatKidsOrdered(g: Links, levels: nat, i: nat, j: nat, p: text)
    requires Valid(g) && Fits(g, levels) && i < j < |g.ids|
    requires IsKidOf(g, g.ids[i], p) && IsKidOf(g, g.ids[j], p) && Grounded(g, p)
    ensures Before(Preorder(g, AllRoots(g), levels), g.ids[i], g.ids[j])
  {
    var pre, rest, post := FlatAround(g, levels, p);
    assert DepthIs(g, g.ids[i], levels - rest + 1);
    KidsInOrder(g, p, |g.ids|, i, j);
    var below := Preorder(g, AllKids(g, p), rest - 1);
    SiblingOrder(g, AllKids(g, p), rest - 1, g.ids[i], g.ids[j]);
    BeforeInside([p], below, [], g.ids[i], g.ids[j]);
    assert [p] + below + [] == [p] + below;
    BeforeInside(pre, [p] + below, post, g.ids[i], g.ids[j]);
  }

  /** Spans with the same parent, and spans without one, keep their order. */
  lemma FlatSiblings(g: Links, levels: nat, i: nat, j: nat)
    requires Valid(g) && Fits(g, levels) && i < j < |g.ids|
    requires Grounded(g, g.ids[i])
    requires g.ids[i] in g.parent <==> g.ids[j] in g.parent
    requires g.ids[i] in g.parent ==> g.parent[g.ids[i]] == g.parent[g.ids[j]]
    ensures Before(Preorder(g, AllRoots(g), levels), g.ids[i], g.ids[j])
  {
    if g.ids[i] in g.parent {
      var d: nat :| DepthIs(g, g.ids[i], d);
      assert DepthIs(g, g.parent[g.ids[i]], d - 1);
      FlatKidsOrdered(g, levels, i, j, g.parent[g.ids[i]]);
    } else {
      FlatRootsOrdered(g, levels, i, j);
    }
  }
}
