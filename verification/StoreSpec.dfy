/** What the trace store should hold after any history of additions: a bounded
    queue of traces, each with the spans added since it was last created. */
module StoreSpec {
  import opened Bytes

  /** One call of Add. */
  datatype Added<T> = Added(id: text, span: T)

  /** A live trace. */
  datatype Entry<T> = Entry(id: text, spans: seq<T>)

  predicate HasId<T>(entries: seq<Entry<T>>, id: text) {
    exists i :: 0 <= i < |entries| && entries[i].id == id
  }

  function Append<T>(entries: seq<Entry<T>>, a: Added<T>): (r: seq<Entry<T>>)
    ensures |r| == |entries|
    ensures forall i :: 0 <= i < |r| ==>
              r[i] == if entries[i].id == a.id then Entry(a.id, entries[i].spans + [a.span]) else entries[i]
  {
    if entries == [] then []
    else
      var e := entries[|entries| - 1];
      Append(entries[..|entries| - 1], a)
      + [if e.id == a.id then Entry(a.id, e.spans + [a.span]) else e]
  }

  /** The queue keeps at most `cap` entries, oldest first. */
  function Push<T>(entries: seq<Entry<T>>, cap: nat, a: Added<T>): seq<Entry<T>>
    requires cap >= 1
  {
    if HasId(entries, a.id) then Append(entries, a)
    else (if |entries| >= cap then entries[1..] else entries) + [Entry(a.id, [a.span])]
  }

  function Fold<T>(h: seq<Added<T>>, cap: nat): seq<Entry<T>>
    requires cap >= 1
  {
    if h == [] then [] else Push(Fold(h[..|h| - 1], cap), cap, h[|h| - 1])
  }

  predicate DistinctIds<T>(entries: seq<Entry<T>>) {
    forall i, j :: 0 <= i < j < |entries| ==> entries[i].id != entries[j].id
  }

  lemma {:induction false} FoldBounded<T>(h: seq<Added<T>>, cap: nat)
    requires cap >= 1
    ensures |Fold(h, cap)| <= cap && DistinctIds(Fold(h, cap))
  {
    if h != [] {
      FoldBounded(h[..|h| - 1], cap);
    }
  }

  /** The entries are those of the additions from the first one on. */
  ghost predicate OneEach<T>(entries: seq<Entry<T>>, h: seq<Added<T>>, first: nat) {
    && first <= |h| && |entries| == |h| - first
    && forall k :: 0 <= k < |entries| ==> entries[k] == Entry(h[first + k].id, [h[first + k].span])
  }

  lemma OneMore<T>(entries: seq<Entry<T>>, h: seq<Added<T>>, first: nat, cap: nat, a: Added<T>)
    requires cap >= 1 && OneEach(entries, h, first) && |entries| <= cap
    requires forall i :: 0 <= i < |h| ==> h[i].id != a.id
    ensures OneEach(Push(entries, cap, a), h + [a], if |entries| >= cap then first + 1 else first)
  {
    assert forall k :: 0 <= k < |entries| ==> entries[k].id == h[first + k].id != a.id;
    assert !HasId(entries, a.id);
    assert forall k :: 0 <= k < |h| ==> (h + [a])[k] == h[k];
  }

  /** Of traces that are all different the newest `cap` are kept, in order. */
  lemma {:induction false} NewestKept<T>(h: seq<Added<T>>, cap: nat)
    requires cap >= 1 && forall i, j :: 0 <= i < j < |h| ==> h[i].id != h[j].id
    ensures OneEach(Fold(h, cap), h, if |h| <= cap then 0 else |h| - cap)
  {
    if h != [] {
      var init := h[..|h| - 1];
      NewestKept(init, cap);
      OneMore(Fold(init, cap), init, if |init| <= cap then 0 else |init| - cap, cap, h[|h| - 1]);
      assert init + [h[|h| - 1]] == h;
    }
  }

  // ---- The declarative reading of a history ----

  function Window(cs: seq<nat>, cap: nat): seq<nat> {
    if |cs| <= cap then cs else cs[|cs| - cap..]
  }

  /** The additions that create a trace: those whose ID is not the ID of one of
      the last `cap` creations before. */
  function Creations<T>(h: seq<Added<T>>, cap: nat): (cs: seq<nat>)
    ensures forall k :: 0 <= k < |cs| ==> cs[k] < |h|
  {
    if h == [] then []
    else
      var n := |h| - 1;
      var cs := Creations(h[..n], cap);
      if exists k :: 0 <= k < |Window(cs, cap)| && h[Window(cs, cap)[k]].id == h[n].id then cs else cs + [n]
  }

  /** The spans added for this ID from position c on. */
  function SpansSince<T>(h: seq<Added<T>>, c: nat, id: text): seq<T> {
    if |h| <= c then []
    else
      var a := h[|h| - 1];
      SpansSince(h[..|h| - 1], c, id) + if a.id == id then [a.span] else []
  }

  /** The entry of the trace created by addition c. */
  ghost predicate IsTraceOf<T>(e: Entry<T>, h: seq<Added<T>>, c: nat) {
    c < |h| && e.id == h[c].id && e.spans == SpansSince(h, c, e.id)
  }

  /** Entry k belongs to the k-th of the last `cap` creations and holds exactly
      the spans of its ID since then. */
  ghost predicate IsHistory<T>(entries: seq<Entry<T>>, h: seq<Added<T>>, cap: nat) {
    var live := Window(Creations(h, cap), cap);
    |entries| == |live| && forall k :: 0 <= k < |live| ==> IsTraceOf(entries[k], h, live[k])
  }

  lemma TraceGrows<T>(e: Entry<T>, h: seq<Added<T>>, c: nat, a: Added<T>)
    requires IsTraceOf(e, h, c)
    ensures IsTraceOf(Grown(e, a), h + [a], c)
  {
    assert (h + [a])[..|h|] == h;
    assert e.spans + [] == e.spans;
  }

  lemma WindowSnoc(cs: seq<nat>, cap: nat, n: nat)
    requires cap >= 1
    ensures var live := Window(cs, cap);
            Window(cs + [n], cap) == (if |live| >= cap then live[1..] else live) + [n]
  {
  }

  lemma CreationsSnoc<T>(entries: seq<Entry<T>>, h: seq<Added<T>>, cap: nat, a: Added<T>)
    requires IsHistory(entries, h, cap)
    ensures Creations(h + [a], cap) == if HasId(entries, a.id) then Creations(h, cap) else Creations(h, cap) + [|h|]
  {
    var h' := h + [a];
    assert h'[..|h|] == h;
    var live := Window(Creations(h, cap), cap);
    assert forall k :: 0 <= k < |live| ==> h'[live[k]].id == entries[k].id;
    if HasId(entries, a.id) {
      var i :| 0 <= i < |entries| && entries[i].id == a.id;
      assert h'[live[i]].id == h'[|h|].id;
    }
  }

  function Grown<T>(e: Entry<T>, a: Added<T>): Entry<T> {
    if e.id == a.id then Entry(e.id, e.spans + [a.span]) else e
  }

  lemma TracesGrow<T>(entries: seq<Entry<T>>, h: seq<Added<T>>, live: seq<nat>, a: Added<T>)
    requires |entries| == |live| && forall k :: 0 <= k < |live| ==> IsTraceOf(entries[k], h, live[k])
    ensures forall k :: 0 <= k < |live| ==> IsTraceOf(Grown(entries[k], a), h + [a], live[k])
  {
    forall k | 0 <= k < |live|
      ensures IsTraceOf(Grown(entries[k], a), h + [a], live[k])
    {
      TraceGrows(entries[k], h, live[k], a);
    }
  }

  lemma NewTraceIsHistory<T>(h: seq<Added<T>>, a: Added<T>)
    ensures IsTraceOf(Entry(a.id, [a.span]), h + [a], |h|)
  {
    assert (h + [a])[..|h|] == h;
    assert SpansSince(h + [a], |h|, a.id) == [] + [a.span] == [a.span];
  }

  lemma PushLive<T>(entries: seq<Entry<T>>, h: seq<Added<T>>, cap: nat, a: Added<T>)
    requires cap >= 1
    requires IsHistory(entries, h, cap) && HasId(entries, a.id)
    ensures IsHistory(Push(entries, cap, a), h + [a], cap)
  {
    CreationsSnoc(entries, h, cap, a);
    TracesGrow(entries, h, Window(Creations(h, cap), cap), a);
    assert forall k :: 0 <= k < |entries| ==> Push(entries, cap, a)[k] == Grown(entries[k], a);
  }

  /** A span of another trace changes none of these. */
  lemma TracesStay<T>(entries: seq<Entry<T>>, h: seq<Added<T>>, live: seq<nat>, a: Added<T>)
    requires |entries| == |live| && forall k :: 0 <= k < |live| ==> IsTraceOf(entries[k], h, live[k])
    requires !HasId(entries, a.id)
    ensures forall k :: 0 <= k < |live| ==> IsTraceOf(entries[k], h + [a], live[k])
  {
    TracesGrow(entries, h, live, a);
    assert forall k :: 0 <= k < |live| ==> Grown(entries[k], a) == entries[k];
  }

  lemma PushNew<T>(entries: seq<Entry<T>>, h: seq<Added<T>>, cap: nat, a: Added<T>)
    requires cap >= 1
    requires IsHistory(entries, h, cap) && !HasId(entries, a.id)
    ensures IsHistory(Push(entries, cap, a), h + [a], cap)
  {
    var cs := Creations(h, cap);
    var live := Window(cs, cap);
    CreationsSnoc(entries, h, cap, a);
    WindowSnoc(cs, cap, |h|);
    TracesStay(entries, h, live, a);
    NewTraceIsHistory(h, a);
  }

  lemma PushIsHistory<T>(entries: seq<Entry<T>>, h: seq<Added<T>>, cap: nat, a: Added<T>)
    requires cap >= 1
    requires IsHistory(entries, h, cap)
    ensures IsHistory(Push(entries, cap, a), h + [a], cap)
  {
    if HasId(entries, a.id) {
      PushLive(entries, h, cap, a);
    } else {
      PushNew(entries, h, cap, a);
    }
  }

  /** For every history, the queue is exactly what the history says. */
  lemma {:induction false} FoldIsHistory<T>(h: seq<Added<T>>, cap: nat, entries: seq<Entry<T>>)
    requires cap >= 1 && entries == Fold(h, cap)
    ensures IsHistory(entries, h, cap)
    decreases |h|
  {
    if h != [] {
      var init := h[..|h| - 1];
      FoldIsHistory(init, cap, Fold(init, cap));
      PushIsHistory(Fold(init, cap), init, cap, h[|h| - 1]);
      assert init + [h[|h| - 1]] == h;
    }
  }

  // ---- Pages ----

  function NonEmpty(ids: seq<text>): seq<text> {
    if ids == [] then []
    else NonEmpty(ids[..|ids| - 1]) + if ids[|ids| - 1] != [] then [ids[|ids| - 1]] else []
  }

  lemma {:induction false} AllNonEmpty(ids: seq<text>)
    requires forall i :: 0 <= i < |ids| ==> ids[i] != []
    ensures NonEmpty(ids) == ids
  {
    if ids != [] {
      AllNonEmpty(ids[..|ids| - 1]);
    }
  }

  /** An empty ID among others is left out, and the others keep their order. */
  lemma {:induction false} EmptyLeftOut(a: seq<text>, b: seq<text>)
    requires forall i :: 0 <= i < |a| ==> a[i] != []
    requires forall i :: 0 <= i < |b| ==> b[i] != []
    ensures NonEmpty(a + [[]] + b) == a + b
  {
    var ids := a + [[]] + b;
    if b == [] {
      assert ids[..|ids| - 1] == a && a + [] == a;
      AllNonEmpty(a);
    } else {
      var n := |b| - 1;
      assert ids[..|ids| - 1] == a + [[]] + b[..n];
      EmptyLeftOut(a, b[..n]);
      assert a + b[..n] + [b[n]] == a + b;
    }
  }

  /** The IDs that ListTraces returns, from all `total` stored traces of which
      `ids` have a non-empty ID. */
  function Page(ids: seq<text>, total: nat, offset: int, limit: int): seq<text> {
    if total == 0 || offset >= total || (offset > 0 && offset >= |ids|) then []
    else
      var rest := if offset > 0 then ids[offset..] else ids;
      if 0 < limit < |rest| then rest[..limit] else rest
  }

  /** Without a limit a page is everything from the offset on. */
  lemma WholeList(ids: seq<text>, total: nat, offset: int, limit: int)
    requires total >= |ids| && limit <= 0
    ensures Page(ids, total, offset, limit)
         == if offset <= 0 then ids else if offset >= |ids| then [] else ids[offset..]
  {
  }

  /** Pages of size k from an offset on, until a page is empty. */
  function AllPages(ids: seq<text>, total: nat, k: nat, offset: nat): seq<text>
    requires k >= 1 && total >= |ids|
    decreases |ids| - offset
  {
    var page := Page(ids, total, offset, k);
    if page == [] || offset >= |ids| then [] else page + AllPages(ids, total, k, offset + k)
  }

  /** A page is what the list has from the offset on, up to its size. */
  lemma PageIs(ids: seq<text>, total: nat, k: nat, offset: nat)
    requires k >= 1 && total >= |ids|
    ensures Page(ids, total, offset, k)
         == if offset >= |ids| then [] else ids[offset..if offset + k <= |ids| then offset + k else |ids|]
  {
  }

  /** Page by page nothing is skipped and nothing repeated. */
  lemma {:induction false} PagesCover(ids: seq<text>, total: nat, k: nat, offset: nat)
    requires k >= 1 && offset <= |ids| <= total
    ensures AllPages(ids, total, k, offset) == ids[offset..]
    decreases |ids| - offset
  {
    PageIs(ids, total, k, offset);
    if offset < |ids| {
      var page := Page(ids, total, offset, k);
      if offset + k <= |ids| {
        PagesCover(ids, total, k, offset + k);
        assert ids[offset..] == page + ids[offset + k..];
      } else {
        assert page == ids[offset..] == page + [];
      }
    }
  }

  // ---- Timing ----

  /** Start and duration in nanoseconds. Zero is the zero time of the source. */
  datatype Interval = Interval(start: int, duration: int)

  function End(x: Interval): int {
    x.start + x.duration
  }

  /** The two accumulators of the timing loop after the first n spans. */
  function Earliest(xs: seq<Interval>, n: nat): int
    requires n <= |xs|
  {
    if n == 0 then 0
    else
      var e := Earliest(xs, n - 1);
      if e == 0 || xs[n - 1].start < e then xs[n - 1].start else e
  }

  function LatestEnd(xs: seq<Interval>, n: nat): int
    requires n <= |xs|
  {
    if n == 0 then 0
    else
      var l := LatestEnd(xs, n - 1);
      if End(xs[n - 1]) > l then End(xs[n - 1]) else l
  }

  /** The trace's own interval. */
  function Hull(xs: seq<Interval>): Interval {
    Interval(Earliest(xs, |xs|), LatestEnd(xs, |xs|) - Earliest(xs, |xs|))
  }

  predicate Covers(outer: Interval, inner: Interval) {
    outer.start <= inner.start && End(inner) <= End(outer)
  }

  predicate Positive(xs: seq<Interval>) {
    forall i :: 0 <= i < |xs| ==> xs[i].start > 0 && xs[i].duration >= 0
  }

  lemma {:induction false} HullPrefix(xs: seq<Interval>, n: nat)
    requires Positive(xs) && 1 <= n <= |xs|
    ensures forall i :: 0 <= i < n ==> 0 < Earliest(xs, n) <= xs[i].start && End(xs[i]) <= LatestEnd(xs, n)
    ensures exists i :: 0 <= i < n && xs[i].start == Earliest(xs, n)
    ensures exists i :: 0 <= i < n && End(xs[i]) == LatestEnd(xs, n)
  {
    if n == 1 {
      assert xs[0].start == Earliest(xs, 1) && End(xs[0]) == LatestEnd(xs, 1);
    } else {
      HullPrefix(xs, n - 1);
      var i :| 0 <= i < n - 1 && xs[i].start == Earliest(xs, n - 1);
      var j :| 0 <= j < n - 1 && End(xs[j]) == LatestEnd(xs, n - 1);
      assert xs[i].start == Earliest(xs, n) || xs[n - 1].start == Earliest(xs, n);
      assert End(xs[j]) == LatestEnd(xs, n) || End(xs[n - 1]) == LatestEnd(xs, n);
    }
  }

  /** The trace's interval covers every span, and lies within every interval
      that does. */
  lemma HullIsSmallest(xs: seq<Interval>, other: Interval)
    requires Positive(xs) && xs != []
    ensures forall i :: 0 <= i < |xs| ==> Covers(Hull(xs), xs[i])
    ensures (forall i :: 0 <= i < |xs| ==> Covers(other, xs[i])) ==> Covers(other, Hull(xs))
  {
    HullPrefix(xs, |xs|);
  }

  /** Another span only widens the interval. */
  lemma HullWidens(xs: seq<Interval>, x: Interval)
    requires Positive(xs + [x]) && xs != []
    ensures Covers(Hull(xs + [x]), Hull(xs))
  {
    var ys := xs + [x];
    forall i | 0 <= i < |xs|
      ensures xs[i].start > 0 && xs[i].duration >= 0
    {
      assert ys[i] == xs[i];
    }
    HullIsSmallest(ys, Hull(ys));
    forall i | 0 <= i < |xs|
      ensures Covers(Hull(ys), xs[i])
    {
      assert ys[i] == xs[i];
    }
    HullIsSmallest(xs, Hull(ys));
  }
}
