/** What callers of the trace store can rely on. */
module StoreGuarantees {
  import opened Bytes
  import opened StoreSpec
  import opened TraceModel
  import opened TraceStore

  /** After every history of additions, the live traces are those of the last
      `maxTraces` creations, oldest first, each with exactly the spans of its ID
      since then. */
  lemma StoreIsHistory(m: MemStore)
    requires m.Valid()
    ensures var live := Window(Creations(m.history, m.maxTraces), m.maxTraces);
            && |m.ids| == |live| == |m.traces|
            && Distinct(m.ids)
            && m.ids == RingIds(m.order[..], m.pos, m.full)
            && (forall k :: 0 <= k < |live| ==>
                  && live[k] < |m.history|
                  && m.ids[k] == m.history[live[k]].id
                  && m.ids[k] in m.traces
                  && m.traces[m.ids[k]].spans == SpansSince(m.history, live[k], m.ids[k]))
  {
    var entries := EntriesOf(m.ids, m.table);
    var live := Window(Creations(m.history, m.maxTraces), m.maxTraces);
    ModelFields(m.ids, m.table, m.history, m.maxTraces);
    FoldIsHistory(m.history, m.maxTraces, entries);
    m.StoredIds();
    EntriesAt(m.ids, m.table);
    forall k | 0 <= k < |live|
      ensures live[k] < |m.history| && m.ids[k] == m.history[live[k]].id && m.ids[k] in m.traces
      ensures m.traces[m.ids[k]].spans == SpansSince(m.history, live[k], m.ids[k])
    {
      assert IsTraceOf(entries[k], m.history, live[k]);
      assert m.ids[k] in m.table;
    }
  }

  lemma ModelFields<T>(ids: seq<text>, table: map<text, seq<T>>, history: seq<Added<T>>, cap: nat)
    requires cap >= 1 && Model(ids, table) == ModelOf(history, cap)
    ensures Distinct(ids) && SameIds(ids, table) && EntriesOf(ids, table) == Fold(history, cap)
  {
    ModelIsFold(history, cap);
    assert Model(ids, table).ids == ids && Model(ids, table).table == table;
  }

  twostate predicate Untouched(t: Trace)
    reads t, t.spans
  {
    && t.start == old(t.start) && t.duration == old(t.duration) && t.spans == old(t.spans)
    && forall s :: s in t.spans ==> s.info == old(s.info)
  }

  /** The traces after an addition are those from before, and possibly a new one. */
  twostate predicate Extended(traces: map<text, Trace>, new after: map<text, Trace>, new id: text) {
    forall k :: k in after ==> (k in traces && after[k] == traces[k]) || (k == id && fresh(after[k]))
  }

  /** Traces that were left alone, with their spans, stay timed; with a timed one
      beside them all are. */
  twostate lemma StayTimed(traces: map<text, Trace>, new after: map<text, Trace>, new id: text)
    requires forall k :: k in traces ==> old(traces[k].Timed())
    requires forall k :: k in traces && k != id ==> Untouched(traces[k])
    requires Extended(traces, after, id) && id in after && after[id].Timed()
    ensures forall k :: k in after ==> after[k].Timed()
  {
    forall k | k in after && k != id
      ensures after[k].Timed()
    {
      var t := after[k];
      var xs :| old(t.TimedBy(xs));
      forall i | 0 <= i < |t.spans|
        ensures xs[i] == IntervalOf(t.spans[i])
      {
        assert t.spans[i] in t.spans;
      }
      assert t.TimedBy(xs);
    }
  }

  /** An addition keeps the other traces, or evicts them. */
  method AddTimed(m: MemStore, span: Span, id: text)
    requires m.Valid() && id == span.info.traceID
    modifies m, m.order, if id in m.traces then {m.traces[id]} else {}
    ensures m.Valid() && m.history == old(m.history) + [Added(id, span)]
    ensures m.maxTraces == old(m.maxTraces) && m.order == old(m.order)
    ensures id in m.traces && m.traces[id].Timed()
    ensures Extended(old(m.traces), m.traces, id)
  {
    m.Add(span);
  }

  /** An addition leaves the other traces alone. */
  method AddBeside(m: MemStore, span: Span, id: text)
    requires m.Valid() && id == span.info.traceID
    modifies m, m.order, if id in m.traces then {m.traces[id]} else {}
    ensures m.Valid() && m.history == old(m.history) + [Added(id, span)]
    ensures m.maxTraces == old(m.maxTraces) && m.order == old(m.order)
    ensures id in m.traces && m.traces[id].Timed()
    ensures Extended(old(m.traces), m.traces, id)
    ensures forall k :: k in old(m.traces) && k != id ==> Untouched(old(m.traces)[k])
  {
    ghost var before := m.traces;
    assert forall k :: k in before && k != id && id in before ==> before[k] != before[id];
    AddTimed(m, span, id);
  }

  /** If every live trace is timed by its spans before an addition, every live
      trace is afterwards. */
  method AddKeepsTiming(m: MemStore, span: Span)
    requires m.Valid()
    requires forall id :: id in m.traces ==> m.traces[id].Timed()
    modifies m, m.order, if span.info.traceID in m.traces then {m.traces[span.info.traceID]} else {}
    ensures m.Valid() && m.history == old(m.history) + [Added(old(span.info.traceID), span)]
    ensures m.maxTraces == old(m.maxTraces) && m.order == old(m.order)
    ensures Extended(old(m.traces), m.traces, old(span.info.traceID))
    ensures forall id :: id in m.traces ==> m.traces[id].Timed()
  {
    ghost var before := m.traces;
    AddBeside(m, span, span.info.traceID);
    StayTimed(before, m.traces, span.info.traceID);
  }

  /** A snapshot taken before an addition still reads as the trace did when it
      was taken. */
  method SnapshotSurvivesAdd(m: MemStore, id: text, span: Span) returns (t: Trace?)
    requires m.Valid()
    modifies m, m.order, if span.info.traceID in m.traces then {m.traces[span.info.traceID]} else {}
    ensures t == null <==> id !in old(m.traces)
    ensures t != null ==>
              && t.traceID == old(m.traces[id].traceID)
              && t.start == old(m.traces[id].start) && t.duration == old(m.traces[id].duration)
              && |t.spans| == |old(m.traces[id].spans)|
              && forall i :: 0 <= i < |t.spans| ==> t.spans[i].Value() == old(m.traces[id].spans[i].Value())
  {
    t := m.GetTrace(id);
    label taken:
    AddAnywhere(m, span);
    if t != null {
      forall i | 0 <= i < |t.spans|
        ensures t.spans[i].Value() == old(m.traces[id].spans[i].Value())
      {
        assert old@taken(t.spans[i].Value()) == old(m.traces[id].spans[i].Value());
      }
    }
  }

  /** An addition, of which only the objects it may touch are known. */
  method AddAnywhere(m: MemStore, span: Span)
    requires m.Valid()
    modifies m, m.order, if span.info.traceID in m.traces then {m.traces[span.info.traceID]} else {}
  {
    m.Add(span);
  }

  method ScrambleSpan(s: Span, info: SpanInfo, entries: map<text, text>)
    modifies s.Objects()
    ensures s.Objects() == old(s.Objects())
  {
    s.info := info;
    if s.httpHeaders != null {
      s.httpHeaders.entries := entries;
    }
    if s.grpcMetadata != null {
      s.grpcMetadata.entries := entries;
    }
    if s.connectHeaders != null {
      s.connectHeaders.entries := entries;
    }
  }

  /** Overwrites everything that can be reached through a trace. */
  method Scramble(t: Trace, info: SpanInfo, entries: map<text, text>)
    modifies t, t.spans
    modifies set s: Span, o: object | s in t.spans && o in s.Objects() :: o
  {
    for i := 0 to |t.spans|
      invariant t.spans == old(t.spans)
      invariant forall s :: s in t.spans ==> s.Objects() == old(s.Objects())
    {
      assert t.spans[i] in t.spans;
      ScrambleSpan(t.spans[i], info, entries);
    }
    t.traceID, t.start, t.duration, t.spans := info.traceID, info.start, info.duration, [];
  }

  /** Overwriting a snapshot changes nothing in the store. */
  method StoreSurvivesEdits(m: MemStore, id: text, info: SpanInfo, entries: map<text, text>)
    requires m.Valid()
    ensures m.Valid() && m.traces == old(m.traces)
    ensures forall k :: k in m.traces ==> unchanged(m.traces[k])
    ensures forall k, i :: k in m.traces && 0 <= i < |m.traces[k].spans| ==>
              m.traces[k].spans[i].Value() == old(m.traces[k].spans[i].Value())
  {
    var t := m.GetTrace(id);
    if t != null {
      Scramble(t, info, entries);
    }
  }

  // ---- Reading page by page ----

  /** Copies of the traces with these IDs, and copies of those with these. */
  lemma CopiesConcat(a: seq<Trace>, x: seq<text>, b: seq<Trace>, y: seq<text>, traces: map<text, Trace>)
    requires |a| == |x| && forall i :: 0 <= i < |a| ==> x[i] in traces && a[i].LooksLike(traces[x[i]])
    requires |b| == |y| && forall i :: 0 <= i < |b| ==> y[i] in traces && b[i].LooksLike(traces[y[i]])
    ensures |a + b| == |x + y|
    ensures forall i :: 0 <= i < |a + b| ==> (x + y)[i] in traces && (a + b)[i].LooksLike(traces[(x + y)[i]])
  {
    forall i | 0 <= i < |a + b|
      ensures (x + y)[i] in traces && (a + b)[i].LooksLike(traces[(x + y)[i]])
    {
      if i < |a| {
        assert (a + b)[i] == a[i] && (x + y)[i] == x[i];
      } else {
        assert (a + b)[i] == b[i - |a|] && (x + y)[i] == y[i - |a|];
      }
    }
  }

  function Left(n: nat, offset: nat): nat {
    if offset < n then n - offset else 0
  }

  /** The pages of size k from an offset on, until one is empty. */
  method ReadPages(m: MemStore, k: nat, offset: nat, ghost ids: seq<text>)
    returns (all: seq<Trace>, ghost names: seq<text>)
    requires m.Valid() && k >= 1 && ids == NonEmpty(m.ids) && |ids| <= |m.ids|
    ensures names == AllPages(ids, |m.ids|, k, offset) && |all| == |names|
    ensures forall i :: 0 <= i < |all| ==> names[i] in m.traces && all[i].LooksLike(m.traces[names[i]])
    decreases Left(|ids|, offset), 0
  {
    PageIs(ids, |m.ids|, k, offset);
    var page := m.ListTraces(offset, k);
    names := AllPages(ids, |m.ids|, k, offset);
    if page == [] {
      return [], names;
    }
    ghost var listed, others := Page(ids, |m.ids|, offset, k), [];
    all, others := RestBeside(m, k, offset + k, ids, page, listed);
    CopiesConcat(page, listed, all, others, m.traces);
    all := page + all;
  }

  /** Reading further pages leaves a page already listed as it was. */
  method RestBeside(m: MemStore, k: nat, offset: nat, ghost ids: seq<text>, ghost page: seq<Trace>,
                    ghost listed: seq<text>)
    returns (rest: seq<Trace>, ghost names: seq<text>)
    requires m.Valid() && k >= 1 && ids == NonEmpty(m.ids) && |ids| <= |m.ids|
    requires |page| == |listed|
    requires forall i :: 0 <= i < |page| ==> listed[i] in m.traces && page[i].LooksLike(m.traces[listed[i]])
    ensures forall i :: 0 <= i < |page| ==> listed[i] in m.traces && page[i].LooksLike(m.traces[listed[i]])
    ensures names == AllPages(ids, |m.ids|, k, offset) && |rest| == |names|
    ensures forall i :: 0 <= i < |rest| ==> names[i] in m.traces && rest[i].LooksLike(m.traces[names[i]])
    decreases Left(|ids|, offset), 1
  {
    rest, names := ReadPages(m, k, offset, ids);
    forall i | 0 <= i < |page|
      ensures page[i].LooksLike(m.traces[listed[i]])
    {
      assert old(page[i].LooksLike(m.traces[listed[i]]));
    }
  }

  /** All pages of size k, one after the other, are copies of all stored traces,
      oldest first: none is missing and none comes twice. */
  method ReadAllPages(m: MemStore, k: nat) returns (all: seq<Trace>)
    requires m.Valid() && k >= 1
    ensures |all| == |NonEmpty(m.ids)|
    ensures forall i :: 0 <= i < |all| ==>
              NonEmpty(m.ids)[i] in m.traces && all[i].LooksLike(m.traces[NonEmpty(m.ids)[i]])
    ensures (forall i :: 0 <= i < |m.ids| ==> m.ids[i] != []) ==> NonEmpty(m.ids) == m.ids
  {
    ghost var ids := NonEmpty(m.ids);
    NonEmptyFewer(m.ids);
    PagesCover(ids, |m.ids|, k, 0);
    if forall i :: 0 <= i < |m.ids| ==> m.ids[i] != [] {
      AllNonEmpty(m.ids);
    }
    ghost var names;
    all, names := ReadPages(m, k, 0, ids);
  }

  lemma {:induction false} NonEmptyFewer(ids: seq<text>)
    ensures |NonEmpty(ids)| <= |ids|
  {
    if ids != [] {
      NonEmptyFewer(ids[..|ids| - 1]);
    }
  }
}
