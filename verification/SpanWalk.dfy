/** The depth-first walk over nodes hung below one another, for any list of
    spans, IDs used twice included, and exactly when it comes to an end. */
module SpanWalk {
  import opened Bytes
  import opened ForestOrder
  import opened SpanForest

  function AllKidIds(spans: seq<WebSpan>, p: text): seq<text> {
    KidIds(spans, p, |spans|)
  }

  function AllRootIds(spans: seq<WebSpan>): seq<text> {
    RootIds(spans, |spans|)
  }

  /** A node met on the walk, and the number of nodes above it on the way. */
  datatype Visit = Visit(id: text, depth: nat)

  /** The walk below the nodes ks, at most `levels` deep. */
  function Visits(spans: seq<WebSpan>, ks: seq<text>, depth: nat, levels: nat): seq<Visit>
    decreases levels, |ks|
  {
    if ks == [] || levels == 0 then []
    else
      [Visit(ks[0], depth)]
      + Visits(spans, AllKidIds(spans, ks[0]), depth + 1, levels - 1)
      + Visits(spans, ks[1..], depth, levels)
  }

  /** The walk below the nodes ks needs no more than this many levels. */
  predicate Ends(spans: seq<WebSpan>, ks: seq<text>, levels: nat)
    decreases levels, |ks|
  {
    ks == [] || (levels > 0 && Ends(spans, AllKidIds(spans, ks[0]), levels - 1) && Ends(spans, ks[1..], levels))
  }

  ghost predicate WalkEnds(spans: seq<WebSpan>) {
    exists levels: nat :: Ends(spans, AllRootIds(spans), levels)
  }

  /** Any number of levels that is enough gives the same walk. */
  lemma {:induction false} EnoughLevels(spans: seq<WebSpan>, ks: seq<text>, depth: nat, levels: nat, others: nat)
    requires Ends(spans, ks, levels) && Ends(spans, ks, others)
    ensures Visits(spans, ks, depth, levels) == Visits(spans, ks, depth, others)
    decreases levels, |ks|
  {
    if ks != [] {
      EnoughLevels(spans, AllKidIds(spans, ks[0]), depth + 1, levels - 1, others - 1);
      EnoughLevels(spans, ks[1..], depth, levels, others);
    }
  }

  // ---- Ways down ----

  ghost predicate Descends(spans: seq<WebSpan>, path: seq<text>) {
    forall i :: 0 < i < |path| ==> path[i] in AllKidIds(spans, path[i - 1])
  }

  /** A way down from one of the nodes ks. */
  ghost predicate WayDown(spans: seq<WebSpan>, ks: seq<text>, path: seq<text>) {
    path != [] && path[0] in ks && Descends(spans, path)
  }

  /** Below some root an ID is met again further down. */
  ghost predicate CycleReached(spans: seq<WebSpan>) {
    exists path :: WayDown(spans, AllRootIds(spans), path) && !Distinct(path)
  }

  /** No way down is longer than the number of levels the walk needs. */
  lemma {:induction false} WayBounded(spans: seq<WebSpan>, ks: seq<text>, levels: nat, path: seq<text>)
    requires Ends(spans, ks, levels) && WayDown(spans, ks, path)
    ensures |path| <= levels
    decreases levels, |ks|
  {
    if path[0] != ks[0] {
      WayBounded(spans, ks[1..], levels, path);
    } else if |path| > 1 {
      var below := path[1..];
      assert below[0] in AllKidIds(spans, path[0]);
      forall i | 0 < i < |below|
        ensures below[i] in AllKidIds(spans, below[i - 1])
      {
        assert path[i + 1] in AllKidIds(spans, path[i]);
      }
      WayBounded(spans, AllKidIds(spans, ks[0]), levels - 1, below);
    }
  }

  /** A walk that needs more levels has a way down that long. */
  lemma {:induction false} LongWay(spans: seq<WebSpan>, ks: seq<text>, levels: nat) returns (path: seq<text>)
    requires !Ends(spans, ks, levels)
    ensures WayDown(spans, ks, path) && |path| == levels + 1
    decreases levels, |ks|
  {
    if levels == 0 {
      path := [ks[0]];
    } else if Ends(spans, AllKidIds(spans, ks[0]), levels - 1) {
      path := LongWay(spans, ks[1..], levels);
    } else {
      var below := LongWay(spans, AllKidIds(spans, ks[0]), levels - 1);
      path := [ks[0]] + below;
      forall i | 0 < i < |path|
        ensures path[i] in AllKidIds(spans, path[i - 1])
      {
        if i > 1 {
          assert below[i - 1] in AllKidIds(spans, below[i - 2]);
        }
      }
    }
  }

  // ---- Long ways down are cycles ----

  lemma {:induction false} KidIdsKnown(spans: seq<WebSpan>, p: text, n: nat, id: text)
    requires n <= |spans| && id in KidIds(spans, p, n)
    ensures id in Ids(spans)
  {
    KidIdsNext(spans, p, n - 1);
    assert Ids(spans)[n - 1] == spans[n - 1].id;
    if id in KidIds(spans, p, n - 1) {
      KidIdsKnown(spans, p, n - 1, id);
    }
  }

  lemma {:induction false} RootIdsKnown(spans: seq<WebSpan>, n: nat, id: text)
    requires n <= |spans| && id in RootIds(spans, n)
    ensures id in Ids(spans)
  {
    RootIdsNext(spans, n - 1);
    assert Ids(spans)[n - 1] == spans[n - 1].id;
    if id in RootIds(spans, n - 1) {
      RootIdsKnown(spans, n - 1, id);
    }
  }

  /** A way down longer than the list of spans meets an ID twice. */
  lemma LongWayRepeats(spans: seq<WebSpan>, path: seq<text>)
    requires WayDown(spans, AllRootIds(spans), path) && |path| > |spans|
    ensures !Distinct(path)
  {
    forall id | id in path
      ensures id in Ids(spans)
    {
      var i :| 0 <= i < |path| && path[i] == id;
      if i == 0 {
        RootIdsKnown(spans, |spans|, id);
      } else {
        KidIdsKnown(spans, path[i - 1], |spans|, id);
      }
    }
    if Distinct(path) {
      DistinctFits(path, Ids(spans));
    }
  }

  lemma DescendsOn(spans: seq<WebSpan>, path: seq<text>, more: seq<text>)
    requires path != [] && Descends(spans, path) && Descends(spans, [path[|path| - 1]] + more)
    ensures Descends(spans, path + more)
  {
    var longer, tail, n := path + more, [path[|path| - 1]] + more, |path| - 1;
    forall i | 0 < i < |longer|
      ensures longer[i] in AllKidIds(spans, longer[i - 1])
    {
      if i > n {
        assert tail[i - n] in AllKidIds(spans, tail[i - n - 1]);
      }
    }
  }

  /** A way down that meets an ID twice can be followed as long as one likes. */
  lemma {:induction false} GoRound(spans: seq<WebSpan>, ks: seq<text>, path: seq<text>, i: nat, j: nat, rounds: nat)
    returns (longer: seq<text>)
    requires WayDown(spans, ks, path) && i < j < |path| && path[i] == path[j]
    ensures WayDown(spans, ks, longer) && longer[|longer| - 1] == path[i] && |longer| > rounds
    decreases rounds
  {
    if rounds == 0 {
      longer := path[..i + 1];
    } else {
      var before := GoRound(spans, ks, path, i, j, rounds - 1);
      var round := path[i + 1..j + 1];
      assert [path[i]] + round == path[i..j + 1];
      DescendsOn(spans, before, round);
      longer := before + round;
    }
  }

  /** The walk comes to an end exactly when no way down from a root meets an ID
      twice. */
  lemma WalkEndsExactly(spans: seq<WebSpan>)
    ensures WalkEnds(spans) <==> !CycleReached(spans)
  {
    var roots := AllRootIds(spans);
    if WalkEnds(spans) && CycleReached(spans) {
      var levels: nat :| Ends(spans, roots, levels);
      var path :| WayDown(spans, roots, path) && !Distinct(path);
      var i, j :| 0 <= i < j < |path| && path[i] == path[j];
      var longer := GoRound(spans, roots, path, i, j, levels);
      WayBounded(spans, roots, levels, longer);
    }
    if !WalkEnds(spans) {
      assert !Ends(spans, roots, |spans|);
      var path := LongWay(spans, roots, |spans|);
      LongWayRepeats(spans, path);
    }
  }

  const DOUBLED := [WebSpan("a", "", "first"), WebSpan("a", "b", "second"), WebSpan("b", "a", "third")]

  lemma DoubledLinks()
    ensures !Linked(DOUBLED, DOUBLED[0]) && Linked(DOUBLED, DOUBLED[1]) && Linked(DOUBLED, DOUBLED[2])
  {
    assert Ids(DOUBLED)[0] == "a" && Ids(DOUBLED)[2] == "b";
  }

  lemma DoubledKids(p: text)
    ensures AllKidIds(DOUBLED, p) == (if p == "b" then ["a"] else if p == "a" then ["b"] else [])
  {
    DoubledLinks();
    KidIdsNext(DOUBLED, p, 0);
    KidIdsNext(DOUBLED, p, 1);
    KidIdsNext(DOUBLED, p, 2);
  }

  lemma DoubledRoots()
    ensures AllRootIds(DOUBLED) == ["a"]
  {
    DoubledLinks();
    RootIdsNext(DOUBLED, 0);
    RootIdsNext(DOUBLED, 1);
    RootIdsNext(DOUBLED, 2);
  }

  lemma DoubledWay() returns (path: seq<text>)
    ensures WayDown(DOUBLED, AllRootIds(DOUBLED), path) && |path| == 3 && path[0] == path[2]
  {
    DoubledRoots();
    DoubledKids("a");
    DoubledKids("b");
    path := ["a", "b", "a"];
  }

  /** With an ID used twice a root can be met again below itself: no number of
      levels is enough for the walk. */
  lemma DoubledNeverEnds(levels: nat)
    ensures !Ends(DOUBLED, AllRootIds(DOUBLED), levels)
  {
    var roots := AllRootIds(DOUBLED);
    var path := DoubledWay();
    var longer := GoRound(DOUBLED, roots, path, 0, 2, levels);
    if Ends(DOUBLED, roots, levels) {
      WayBounded(DOUBLED, roots, levels, longer);
    }
  }

  /** An ID used twice need not lead to a cycle. */
  lemma TwinsEnd()
    ensures var twins := [WebSpan("a", "", "x"), WebSpan("a", "", "y")];
            !Distinct(Ids(twins)) && WalkEnds(twins)
  {
    var twins := [WebSpan("a", "", "x"), WebSpan("a", "", "y")];
    assert Ids(twins)[0] == Ids(twins)[1];
    RootIdsNext(twins, 0);
    RootIdsNext(twins, 1);
    KidIdsNext(twins, "a", 0);
    KidIdsNext(twins, "a", 1);
    assert AllKidIds(twins, "a") == [];
    assert Ends(twins, [], 1);
    assert Ends(twins, ["a"], 1) by { assert ["a"][1..] == []; }
    assert AllRootIds(twins)[1..] == ["a"];
    assert Ends(twins, AllRootIds(twins), 1);
  }
}
