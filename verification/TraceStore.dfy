/** The in-memory trace store: a map from trace IDs to traces and a circular
    array that remembers their order. Every operation runs under the store's
    mutex and is one atomic step. */
module TraceStore {
  import opened Bytes
  import opened StoreSpec
  import opened TraceModel

  /** The IDs in the slots of a ring that are in use, oldest first. */
  function RingIds(order: seq<text>, pos: nat, full: bool): seq<text>
    requires pos <= |order|
  {
    if full then order[pos..] + order[..pos] else order[..pos]
  }

  /** Writing at `pos` and stepping forward drops the oldest ID of a full ring
      and adds the new one at the end. */
  lemma RingStep(order: seq<text>, pos: nat, full: bool, id: text)
    requires pos < |order|
    ensures var wrapped := pos + 1 >= |order|;
            var ids := RingIds(order, pos, full);
            && |ids| == (if full then |order| else pos)
            && (full ==> ids[0] == order[pos])
            && RingIds(order[pos := id], if wrapped then 0 else pos + 1, full || wrapped)
            == (if full then ids[1..] else ids) + [id]
  {
    var order' := order[pos := id];
    if full {
      assert (order[pos..] + order[..pos])[1..] == order[pos + 1..] + order[..pos];
      assert order'[pos + 1..] == order[pos + 1..];
      assert order'[..pos + 1] == order[..pos] + [id];
      if pos + 1 >= |order| {
        assert order' == order[..pos] + [id];
      }
    } else {
      assert order'[..pos + 1] == order[..pos] + [id];
    }
  }

  /** The traces with these IDs, in this order. */
  function EntriesOf<T>(ids: seq<text>, table: map<text, seq<T>>): seq<Entry<T>> {
    if ids == [] then []
    else
      var id := ids[|ids| - 1];
      EntriesOf(ids[..|ids| - 1], table) + [Entry(id, if id in table then table[id] else [])]
  }

  lemma {:induction false} EntriesAt<T>(ids: seq<text>, table: map<text, seq<T>>)
    ensures |EntriesOf(ids, table)| == |ids|
    ensures forall i :: 0 <= i < |ids| ==>
              EntriesOf(ids, table)[i] == Entry(ids[i], if ids[i] in table then table[ids[i]] else [])
  {
    if ids != [] {
      EntriesAt(ids[..|ids| - 1], table);
    }
  }

  /** The ring and the map have the same IDs. */
  ghost predicate SameIds<T>(ids: seq<text>, table: map<text, seq<T>>) {
    forall id :: id in table <==> id in ids
  }

  lemma LiveId<T>(ids: seq<text>, table: map<text, seq<T>>, id: text)
    requires SameIds(ids, table)
    ensures id in table <==> HasId(EntriesOf(ids, table), id)
  {
    EntriesAt(ids, table);
    if id in ids {
      var i :| 0 <= i < |ids| && ids[i] == id;
      assert EntriesOf(ids, table)[i].id == id;
    }
  }

  lemma EntriesAppend<T>(ids: seq<text>, table: map<text, seq<T>>, cap: nat, a: Added<T>)
    requires cap >= 1 && SameIds(ids, table) && a.id in table
    ensures EntriesOf(ids, table[a.id := table[a.id] + [a.span]]) == Push(EntriesOf(ids, table), cap, a)
  {
    var table' := table[a.id := table[a.id] + [a.span]];
    LiveId(ids, table, a.id);
    EntriesAt(ids, table);
    EntriesAt(ids, table');
    assert forall i :: 0 <= i < |ids| ==> ids[i] in table;
    assert EntriesOf(ids, table') == Append(EntriesOf(ids, table), a);
  }

  /** What stays in a ring and in a map when a new trace arrives. */
  function Kept(ids: seq<text>, cap: nat): seq<text>
    requires cap >= 1
  {
    if |ids| >= cap then ids[1..] else ids
  }

  function Rest<V>(ids: seq<text>, table: map<text, V>, cap: nat): map<text, V>
    requires cap >= 1
  {
    if |ids| >= cap then table - {ids[0]} else table
  }

  lemma EntriesNew<T>(ids: seq<text>, table: map<text, seq<T>>, cap: nat, a: Added<T>)
    requires cap >= 1 && SameIds(ids, table) && Distinct(ids) && a.id !in table
    ensures EntriesOf(Kept(ids, cap) + [a.id], Rest(ids, table, cap)[a.id := [a.span]])
         == Push(EntriesOf(ids, table), cap, a)
  {
    LiveId(ids, table, a.id);
    EntriesKept(ids, table, cap, a);
    var kept := Kept(ids, cap);
    assert (kept + [a.id])[..|kept|] == kept;
    EntriesAt(ids, table);
  }

  lemma SameIdsNew<T>(ids: seq<text>, table: map<text, seq<T>>, cap: nat, a: Added<T>)
    requires cap >= 1 && SameIds(ids, table) && Distinct(ids) && a.id !in table
    ensures SameIds(Kept(ids, cap) + [a.id], Rest(ids, table, cap)[a.id := [a.span]])
  {
    KeptIds(ids, table, |ids| >= cap);
  }

  lemma EntriesKept<T>(ids: seq<text>, table: map<text, seq<T>>, cap: nat, a: Added<T>)
    requires cap >= 1 && SameIds(ids, table) && Distinct(ids) && a.id !in table
    ensures EntriesOf(Kept(ids, cap), Rest(ids, table, cap)[a.id := [a.span]])
         == if |ids| >= cap then EntriesOf(ids, table)[1..] else EntriesOf(ids, table)
  {
    EntriesAt(ids, table);
    EntriesAt(Kept(ids, cap), Rest(ids, table, cap)[a.id := [a.span]]);
    assert forall i :: 0 <= i < |ids| ==> ids[i] in table;
  }

  lemma KeptIds<T>(ids: seq<text>, table: map<text, seq<T>>, full: bool)
    requires SameIds(ids, table) && Distinct(ids) && (full ==> ids != [])
    ensures SameIds(if full then ids[1..] else ids, if full then table - {ids[0]} else table)
  {
    if full {
      forall id | id in ids && id != ids[0]
        ensures id in ids[1..]
      {
        var i :| 0 <= i < |ids| && ids[i] == id;
        assert ids[1..][i - 1] == id;
      }
    }
  }

  /** The live IDs, oldest first, and the spans of each. */
  datatype Model<T> = Model(ids: seq<text>, table: map<text, seq<T>>)

  function Step<T>(m: Model<T>, cap: nat, a: Added<T>): Model<T>
    requires cap >= 1
  {
    if a.id in m.table then m.(table := m.table[a.id := m.table[a.id] + [a.span]])
    else Model(Kept(m.ids, cap) + [a.id], Rest(m.ids, m.table, cap)[a.id := [a.span]])
  }

  function ModelOf<T>(history: seq<Added<T>>, cap: nat): Model<T>
    requires cap >= 1
  {
    if history == [] then Model([], map[])
    else Step(ModelOf(history[..|history| - 1], cap), cap, history[|history| - 1])
  }

  lemma ModelSnoc<T>(history: seq<Added<T>>, cap: nat, a: Added<T>)
    requires cap >= 1
    ensures ModelOf(history + [a], cap) == Step(ModelOf(history, cap), cap, a)
  {
    assert (history + [a])[..|history|] == history;
  }

  /** The live IDs and their spans are the queue that the history calls for. */
  lemma {:induction false} ModelIsFold<T>(history: seq<Added<T>>, cap: nat)
    requires cap >= 1
    ensures var m := ModelOf(history, cap);
            && |m.ids| <= cap
            && Distinct(m.ids)
            && SameIds(m.ids, m.table)
            && EntriesOf(m.ids, m.table) == Fold(history, cap)
  {
    if history != [] {
      var init, a := history[..|history| - 1], history[|history| - 1];
      ModelIsFold(init, cap);
      var m := ModelOf(init, cap);
      StepKeeps(m, cap, a);
    }
  }

  lemma StepKeeps<T>(m: Model<T>, cap: nat, a: Added<T>)
    requires cap >= 1 && |m.ids| <= cap && Distinct(m.ids) && SameIds(m.ids, m.table)
    ensures var m' := Step(m, cap, a);
            && |m'.ids| <= cap
            && Distinct(m'.ids)
            && SameIds(m'.ids, m'.table)
            && EntriesOf(m'.ids, m'.table) == Push(EntriesOf(m.ids, m.table), cap, a)
  {
    if a.id in m.table {
      EntriesAppend(m.ids, m.table, cap, a);
    } else {
      EntriesNew(m.ids, m.table, cap, a);
      SameIdsNew(m.ids, m.table, cap, a);
      assert a.id !in m.ids;
    }
  }

  /** A new trace is first empty and then gets its span. */
  lemma StepNew<T>(m: Model<T>, cap: nat, a: Added<T>)
    requires cap >= 1 && a.id !in m.table
    ensures var t := Rest(m.ids, m.table, cap)[a.id := []];
            Step(m, cap, a) == Model(Kept(m.ids, cap) + [a.id], t[a.id := t[a.id] + [a.span]])
  {
    var rest := Rest(m.ids, m.table, cap);
    assert [] + [a.span] == [a.span];
    assert rest[a.id := []][a.id := [a.span]] == rest[a.id := [a.span]];
  }

  class MemStore {
    var traces: map<text, Trace>
    var order: array<text>
    var maxTraces: nat
    var pos: nat
    var full: bool
    ghost var history: seq<Added<Span>>      // every call of Add
    ghost var ids: seq<text>                 // the live IDs, oldest first
    ghost var table: map<text, seq<Span>>    // the spans of each live ID

    /** The ring holds the live IDs. */
    ghost predicate RingValid()
      reads this, order
    {
      && order.Length == maxTraces >= 1
      && pos < maxTraces
      && ids == RingIds(order[..], pos, full)
    }

    /** The map holds the live traces, each under its own ID. */
    ghost predicate MapValid()
      reads this, traces.Values
    {
      && table.Keys == traces.Keys
      && (forall id :: id in traces ==> traces[id].traceID == id && traces[id].spans == table[id])
    }

    /** The store is what its history says. */
    ghost predicate Valid()
      reads this, order, traces.Values
    {
      RingValid() && MapValid() && Model(ids, table) == ModelOf(history, maxTraces)
    }

    constructor (maxTraces: nat)
      requires maxTraces >= 1
      ensures Valid() && fresh(order)
      ensures this.maxTraces == maxTraces && history == [] && traces == map[]
    {
      traces := map[];
      order := new text[maxTraces];
      this.maxTraces := maxTraces;
      pos, full := 0, false;
      history, ids, table := [], [], map[];
    }

    /** Puts a new trace in the map, evicting the oldest one if the ring is
        full. */
    method PutTrace(id: text, start: int)
      requires RingValid() && MapValid() && id !in traces
      modifies this`traces, this`table
      ensures MapValid()
      ensures id in traces && fresh(traces[id])
      ensures traces == Rest(ids, old(traces), maxTraces)[id := traces[id]]
      ensures table == Rest(ids, old(table), maxTraces)[id := []]
    {
      RingStep(order[..], pos, full, id);
      if full {
        var oldID := order[pos];
        traces, table := traces - {oldID}, table - {oldID};
      }
      var t := new Trace(id, start);
      traces, table := traces[id := t], table[id := []];
    }

    /** Writes an ID into the ring and steps forward. */
    method Advance(id: text)
      requires RingValid()
      modifies this`pos, this`full, this`ids, order
      ensures RingValid()
      ensures ids == Kept(old(ids), maxTraces) + [id]
    {
      RingStep(order[..], pos, full, id);
      ghost var slots := order[..];
      ids := Kept(ids, maxTraces) + [id];
      order[pos] := id;
      assert order[..] == slots[pos := id];
      pos := pos + 1;
      if pos >= maxTraces {
        pos := 0;
        full := true;
      }
    }

    /** Appending to a live trace touches no other trace. */
    method AppendTo(t: Trace, span: Span)
      requires MapValid() && t.traceID in traces && traces[t.traceID] == t
      modifies t`spans, t`start, t`duration, this`table
      ensures MapValid() && t.Timed()
      ensures table == old(table)[t.traceID := old(table)[t.traceID] + [span]]
    {
      t.spans := t.spans + [span];
      t.UpdateTiming();
      table := table[t.traceID := table[t.traceID] + [span]];
    }

    /** The branch of Add for an ID that is not live. */
    method StoreNew(span: Span, id: text)
      requires RingValid() && MapValid() && id !in traces
      modifies this`traces, this`pos, this`full, this`ids, this`table, order
      ensures RingValid() && MapValid()
      ensures id in traces && traces[id].Timed() && fresh(traces[id])
      ensures Model(ids, table) == Step(Model(old(ids), old(table)), maxTraces, Added(id, span))
      ensures traces == Rest(old(ids), old(traces), maxTraces)[id := traces[id]]
    {
      StepNew(Model(ids, table), maxTraces, Added(id, span));
      PutTrace(id, span.info.start);
      Advance(id);
      AppendTo(traces[id], span);
    }

    /** A span joins its trace, which is created if it is not live, evicting
        the oldest one when the ring is full. No other trace is touched. */
    method Add(span: Span)
      requires Valid()
      modifies this, order, if span.info.traceID in traces then {traces[span.info.traceID]} else {}
      ensures Valid()
      ensures history == old(history) + [Added(span.info.traceID, span)]
      ensures maxTraces == old(maxTraces) && order == old(order)
      ensures span.info.traceID in traces && traces[span.info.traceID].Timed()
      ensures span.info.traceID in old(traces) ==> traces == old(traces)
      ensures span.info.traceID !in old(traces) ==>
                && fresh(traces[span.info.traceID])
                && traces == Rest(old(ids), old(traces), maxTraces)[span.info.traceID := traces[span.info.traceID]]
    {
      var id := span.info.traceID;
      ModelSnoc(history, maxTraces, Added(id, span));
      history := history + [Added(id, span)];
      if id !in traces {
        StoreNew(span, id);
      } else {
        AppendTo(traces[id], span);
      }
    }

    method GetTrace(traceID: text) returns (t: Trace?)
      requires Valid()
      ensures t == null <==> traceID !in traces
      ensures t != null ==> fresh(t) && t.LooksLike(traces[traceID])
      ensures t != null ==> forall i :: 0 <= i < |t.spans| ==> fresh(t.spans[i].Objects())
    {
      if traceID !in traces {
        return null;
      }
      t := traces[traceID].Snapshot();
    }

    method OrderedIDs() returns (r: seq<text>)
      requires RingValid()
      ensures r == NonEmpty(ids)
    {
      r := [];
      ghost var slots := order[..];
      if full {
        for i := 0 to maxTraces
          invariant r == NonEmpty(ids[..i])
        {
          var idx := (pos + i) % maxTraces;
          RingAt(slots, pos, i);
          NonEmptyStep(ids, i);
          if order[idx] != [] {
            r := r + [order[idx]];
          }
        }
        assert ids[..maxTraces] == ids;
      } else {
        for i := 0 to pos
          invariant r == NonEmpty(ids[..i])
        {
          NonEmptyStep(ids, i);
          if order[i] != [] {
            r := r + [order[i]];
          }
        }
        assert ids[..pos] == ids;
      }
    }

    /** The traces of one page, oldest first, as copies. */
    method ListTraces(offset: int, limit: int) returns (r: seq<Trace>)
      requires Valid()
      ensures var page := Page(NonEmpty(ids), |ids|, offset, limit);
              && |r| == |page|
              && (forall i :: 0 <= i < |r| ==> page[i] in traces)
              && (forall i :: 0 <= i < |r| ==> fresh(r[i]) && r[i].LooksLike(traces[page[i]]))
              && (forall i, j :: 0 <= i < |r| && 0 <= j < |r[i].spans| ==> fresh(r[i].spans[j].Objects()))
    {
      StoredIds();
      var total := |traces|;
      if total == 0 || offset >= total {
        return [];
      }
      var page := OrderedIDs();
      if offset > 0 {
        if offset >= |page| {
          return [];
        }
        page := page[offset..];
      }
      if limit > 0 && limit < |page| {
        page := page[..limit];
      }
      assert page == Page(NonEmpty(ids), |ids|, offset, limit);
      r := Snapshots(page);
    }

    method Snapshots(page: seq<text>) returns (r: seq<Trace>)
      requires forall i :: 0 <= i < |page| ==> page[i] in traces
      ensures |r| == |page|
      ensures forall i :: 0 <= i < |r| ==> fresh(r[i]) && r[i].LooksLike(traces[page[i]])
      ensures forall i, j :: 0 <= i < |r| && 0 <= j < |r[i].spans| ==> fresh(r[i].spans[j].Objects())
    {
      r := [];
      for i := 0 to |page|
        invariant |r| == i
        invariant forall k :: 0 <= k < i ==> fresh(r[k]) && r[k].LooksLike(traces[page[k]])
        invariant forall k, j :: 0 <= k < i && 0 <= j < |r[k].spans| ==> fresh(r[k].spans[j].Objects())
      {
        if page[i] in traces {
          var t := traces[page[i]].Snapshot();
          r := r + [t];
        }
      }
    }

    lemma StoredIds()
      requires Valid()
      ensures |traces| == |ids|
      ensures forall i :: 0 <= i < |NonEmpty(ids)| ==> NonEmpty(ids)[i] in traces
    {
      ModelIsFold(history, maxTraces);
      assert Model(ids, table).ids == ids && Model(ids, table).table == table;
      KeysCount(ids, traces.Keys);
      NonEmptyIn(ids);
    }
  }

  lemma {:induction false} KeysCount(ids: seq<text>, keys: set<text>)
    requires Distinct(ids) && forall id :: id in keys <==> id in ids
    ensures |keys| == |ids|
  {
    if ids == [] {
      assert keys == {};
    } else {
      var init, last := ids[..|ids| - 1], ids[|ids| - 1];
      assert ids == init + [last];
      KeysCount(init, keys - {last});
    }
  }

  lemma {:induction false} NonEmptyIn(ids: seq<text>)
    ensures forall i :: 0 <= i < |NonEmpty(ids)| ==> NonEmpty(ids)[i] in ids
  {
    if ids != [] {
      NonEmptyIn(ids[..|ids| - 1]);
    }
  }

  lemma Wrap(x: int, n: int)
    requires 0 <= x < 2 * n
    ensures x % n == if x < n then x else x - n
  {
    assert x / n == if x < n then 0 else 1;
  }

  lemma RingAt(order: seq<text>, pos: nat, i: nat)
    requires pos < |order| && i < |order|
    ensures RingIds(order, pos, true)[i] == order[(pos + i) % |order|]
  {
    var k := (pos + i) % |order|;
    assert k == if pos + i < |order| then pos + i else pos + i - |order| by {
      Wrap(pos + i, |order|);
    }
    assert (order[pos..] + order[..pos])[i] == order[k];
  }

  lemma NonEmptyStep(ids: seq<text>, i: nat)
    requires i < |ids|
    ensures NonEmpty(ids[..i + 1]) == NonEmpty(ids[..i]) + if ids[i] != [] then [ids[i]] else []
  {
    assert ids[..i + 1][..i] == ids[..i];
  }
}
