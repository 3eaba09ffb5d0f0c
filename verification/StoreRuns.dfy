/** A trace store from its creation on: what it holds after any list of spans
    has been added. */
module StoreRuns {
  import opened Bytes
  import opened StoreSpec
  import opened TraceModel
  import opened TraceStore
  import opened StoreGuarantees

  lemma {:induction false} SinceAdded<T>(h: seq<Added<T>>, c: nat, id: text, i: nat)
    requires i < |SpansSince(h, c, id)|
    ensures exists j :: 0 <= j < |h| && h[j].span == SpansSince(h, c, id)[i]
    decreases |h|
  {
    var init := h[..|h| - 1];
    if i < |SpansSince(init, c, id)| {
      SinceAdded(init, c, id, i);
      var j :| 0 <= j < |init| && init[j].span == SpansSince(init, c, id)[i];
      assert h[j].span == SpansSince(h, c, id)[i];
    } else {
      assert h[|h| - 1].span == SpansSince(h, c, id)[i];
    }
  }

  /** A trace has a span as soon as it exists. */
  lemma {:induction false} SinceNotEmpty<T>(h: seq<Added<T>>, c: nat)
    requires c < |h|
    ensures SpansSince(h, c, h[c].id) != []
    decreases |h|
  {
    if c < |h| - 1 {
      SinceNotEmpty(h[..|h| - 1], c);
    }
  }

  /** The spans of a live trace are among those added, and there is one. */
  lemma TraceHasAdded(m: MemStore, id: text)
    requires m.Valid() && id in m.traces
    ensures m.traces[id].spans != []
    ensures forall s :: s in m.traces[id].spans ==> exists j :: 0 <= j < |m.history| && m.history[j].span == s
  {
    StoreIsHistory(m);
    var live := Window(Creations(m.history, m.maxTraces), m.maxTraces);
    var k := LiveAt(m, id);
    SinceNotEmpty(m.history, live[k]);
    forall s | s in m.traces[id].spans
      ensures exists j :: 0 <= j < |m.history| && m.history[j].span == s
    {
      var i :| 0 <= i < |m.traces[id].spans| && m.traces[id].spans[i] == s;
      SinceAdded(m.history, live[k], id, i);
    }
  }

  /** A live ID is in the ring. */
  lemma LiveAt(m: MemStore, id: text) returns (k: nat)
    requires m.Valid() && id in m.traces
    ensures k < |m.ids| && m.ids[k] == id
  {
    ModelFields(m.ids, m.table, m.history, m.maxTraces);
    assert id in m.ids;
    k :| k < |m.ids| && m.ids[k] == id;
  }

  /** The trace's interval is the smallest that covers its spans. */
  ghost predicate TightlyTimed(t: Trace)
    reads t, t.spans
  {
    var own := Interval(t.start, t.duration);
    && (forall s :: s in t.spans ==> Covers(own, IntervalOf(s)))
    && (forall other :: (forall s :: s in t.spans ==> Covers(other, IntervalOf(s))) ==> Covers(other, own))
  }

  lemma TimedTightly(t: Trace)
    requires t.Timed() && t.spans != []
    requires forall s :: s in t.spans ==> s.info.start > 0 && s.info.duration >= 0
    ensures TightlyTimed(t)
  {
    var xs :| t.TimedBy(xs);
    assert forall i :: 0 <= i < |xs| ==> t.spans[i] in t.spans && xs[i] == IntervalOf(t.spans[i]);
    var own := Interval(t.start, t.duration);
    HullIsSmallest(xs, own);
    forall s | s in t.spans
      ensures Covers(own, IntervalOf(s))
    {
      var i :| 0 <= i < |t.spans| && t.spans[i] == s;
      assert Covers(own, xs[i]);
    }
    forall other | forall s :: s in t.spans ==> Covers(other, IntervalOf(s))
      ensures Covers(other, own)
    {
      assert forall i :: 0 <= i < |xs| ==> Covers(other, xs[i]);
      HullIsSmallest(xs, other);
    }
  }

  /** The additions of these spans, in this order. */
  function Additions(spans: seq<Span>): (h: seq<Added<Span>>)
    reads spans
    ensures |h| == |spans|
  {
    if spans == [] then []
    else
      var s := spans[|spans| - 1];
      Additions(spans[..|spans| - 1]) + [Added(s.info.traceID, s)]
  }

  lemma {:induction false} AdditionsAt(spans: seq<Span>, i: nat)
    requires i < |spans|
    ensures Additions(spans)[i] == Added(spans[i].info.traceID, spans[i])
  {
    if i < |spans| - 1 {
      AdditionsAt(spans[..|spans| - 1], i);
    }
  }

  ghost predicate AllPositive(spans: seq<Span>)
    reads spans
  {
    forall s :: s in spans ==> s.info.start > 0 && s.info.duration >= 0
  }

  /** In numbers: no span starts earlier or ends later, one starts and one ends
      just then. */
  lemma TightMeans(t: Trace)
    requires t.Timed() && t.spans != []
    requires forall s :: s in t.spans ==> s.info.start > 0 && s.info.duration >= 0
    ensures forall s :: s in t.spans ==>
              t.start <= s.info.start && s.info.start + s.info.duration <= t.start + t.duration
    ensures exists s: Span :: s in t.spans && s.info.start == t.start
    ensures exists s: Span :: s in t.spans && s.info.start + s.info.duration == t.start + t.duration
  {
    var xs: seq<Interval> :| t.TimedBy(xs);
    assert forall i :: 0 <= i < |xs| ==> t.spans[i] in t.spans && xs[i] == IntervalOf(t.spans[i]);
    HullPrefix(xs, |xs|);
    forall s | s in t.spans
      ensures t.start <= s.info.start && s.info.start + s.info.duration <= t.start + t.duration
    {
      var i :| 0 <= i < |t.spans| && t.spans[i] == s;
      assert xs[i] == IntervalOf(s);
    }
    var i :| 0 <= i < |xs| && xs[i].start == Earliest(xs, |xs|);
    assert t.spans[i].info.start == t.start;
    var j :| 0 <= j < |xs| && End(xs[j]) == LatestEnd(xs, |xs|);
    assert t.spans[j].info.start + t.spans[j].info.duration == t.start + t.duration;
  }

  /** Adding any list of spans to a new store: it holds what this history calls
      for, every live trace is timed by its spans, and for positive starts and
      durations that are not negative, every live trace has the smallest interval
      that covers its spans. */
  method Record(spans: seq<Span>, maxTraces: nat) returns (m: MemStore)
    requires maxTraces >= 1
    ensures fresh(m) && m.Valid() && m.maxTraces == maxTraces && m.history == Additions(spans)
    ensures forall id :: id in m.traces ==> m.traces[id].Timed()
    ensures AllPositive(spans) ==> forall id :: id in m.traces ==> TightlyTimed(m.traces[id])
  {
    m := new MemStore(maxTraces);
    ghost var added := Additions(spans);
    for i := 0 to |spans|
      invariant fresh(m) && fresh(m.order)
      invariant forall id :: id in m.traces ==> fresh(m.traces[id])
      invariant m.Valid() && m.maxTraces == maxTraces && m.history == added[..i]
      invariant forall id :: id in m.traces ==> m.traces[id].Timed()
    {
      AdditionsAt(spans, i);
      assert added == Additions(spans);
      assert added[..i + 1] == added[..i] + [added[i]];
      AddKeepsTiming(m, spans[i]);
    }
    AllTight(m, spans);
  }

  lemma AllTight(m: MemStore, spans: seq<Span>)
    requires m.Valid() && m.history == Additions(spans)
    requires forall id :: id in m.traces ==> m.traces[id].Timed()
    ensures AllPositive(spans) ==> forall id :: id in m.traces ==> TightlyTimed(m.traces[id])
  {
    if AllPositive(spans) {
      forall id | id in m.traces
        ensures TightlyTimed(m.traces[id])
      {
        TraceHasAdded(m, id);
        forall s | s in m.traces[id].spans
          ensures s in spans
        {
          var j :| 0 <= j < |m.history| && m.history[j].span == s;
          AdditionsAt(spans, j);
        }
        TimedTightly(m.traces[id]);
      }
    }
  }
}
