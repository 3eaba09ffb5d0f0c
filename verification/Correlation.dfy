/** The stack of active requests that SQL queries without a usable comment are
    attributed to. Every operation holds the correlator's lock throughout, so
    it is one step; the clock is read inside it. */
module Correlation {
  import opened Bytes
  import opened Options

  datatype Active = Active(traceID: text, spanID: text, seen: int)

  /** An operation that changes the stack. */
  datatype Op = Set(traceID: text, spanID: text, now: int) | Clear(traceID: text, spanID: text)

  const DEFAULT_TTL := 5_000_000_000

  predicate Matches(e: Active, traceID: text, spanID: text) {
    e.traceID == traceID && e.spanID == spanID
  }

  /** es without its last entry for this span. */
  function WithoutLast(es: seq<Active>, traceID: text, spanID: text): seq<Active> {
    if es == [] then []
    else
      var n := |es| - 1;
      if Matches(es[n], traceID, spanID) then es[..n] else WithoutLast(es[..n], traceID, spanID) + [es[n]]
  }

  predicate Expired(e: Active, now: int, ttl: int) {
    now - e.seen >= ttl
  }

  /** The last entry that has not expired. */
  function Newest(es: seq<Active>, now: int, ttl: int): Option<Active> {
    if es == [] then None
    else
      var n := |es| - 1;
      if !Expired(es[n], now, ttl) then Some(es[n]) else Newest(es[..n], now, ttl)
  }

  class Correlator {
    var entries: seq<Active>
    const ttl: int

    constructor (ttl: int)
      ensures this.ttl > 0 && (ttl > 0 ==> this.ttl == ttl) && (ttl <= 0 ==> this.ttl == 5_000_000_000)
      ensures entries == []
    {
      this.ttl := if ttl <= 0 then DEFAULT_TTL else ttl;
      entries := [];
    }

    method SetActive(traceID: text, spanID: text, now: int)
      modifies this
      ensures entries == Stepped(old(entries), Set(traceID, spanID, now))
    {
      entries := entries + [Active(traceID, spanID, now)];
    }

    method ClearActive(traceID: text, spanID: text)
      modifies this
      ensures entries == Stepped(old(entries), Clear(traceID, spanID))
    {
      var i := |entries| - 1;
      assert entries[..i + 1] == entries;
      assert entries == entries + entries[i + 1..];
      while i >= 0
        invariant -1 <= i < |entries|
        invariant entries == old(entries)
        invariant WithoutLast(entries, traceID, spanID)
               == WithoutLast(entries[..i + 1], traceID, spanID) + entries[i + 1..]
      {
        var upTo := entries[..i + 1];
        assert upTo[..i] == entries[..i];
        if entries[i].traceID == traceID && entries[i].spanID == spanID {
          entries := entries[..i] + entries[i + 1..];
          return;
        }
        assert [entries[i]] + entries[i + 1..] == entries[i..];
        i := i - 1;
      }
    }

    method Correlate(now: int, made: text) returns (traceID: text, parentID: text)
      ensures match Newest(entries, now, ttl)
              case Some(e) => traceID == e.traceID && parentID == e.spanID
              case None => traceID == made && parentID == []
    {
      var i := |entries| - 1;
      assert entries[..i + 1] == entries;
      while i >= 0
        invariant -1 <= i < |entries|
        invariant Newest(entries, now, ttl) == Newest(entries[..i + 1], now, ttl)
      {
        assert entries[..i + 1][..i] == entries[..i];
        if now - entries[i].seen < ttl {
          return entries[i].traceID, entries[i].spanID;
        }
        i := i - 1;
      }
      return made, [];
    }
  }

  function Stepped(es: seq<Active>, op: Op): seq<Active> {
    match op
    case Set(traceID, spanID, now) => es + [Active(traceID, spanID, now)]
    case Clear(traceID, spanID) => WithoutLast(es, traceID, spanID)
  }

  // ---- Runs ----

  function StackAfter(ops: seq<Op>, n: nat): seq<Active>
    requires n <= |ops|
  {
    if n == 0 then [] else Stepped(StackAfter(ops, n - 1), ops[n - 1])
  }

  /** Operation k made a request active, and none before n cleared it. */
  ghost predicate Uncleared(ops: seq<Op>, k: nat, n: nat) {
    && k < n <= |ops| && ops[k].Set?
    && forall j :: k < j < n && ops[j].Clear? ==> ops[j].traceID != ops[k].traceID || ops[j].spanID != ops[k].spanID
  }

  /** The requests uncleared before n that the first m operations made active,
      in that order. */
  ghost function ActiveOf(ops: seq<Op>, m: nat, n: nat): seq<Active>
    requires m <= n <= |ops|
  {
    if m == 0 then []
    else
      var op, before := ops[m - 1], ActiveOf(ops, m - 1, n);
      if Uncleared(ops, m - 1, n) then before + [Active(op.traceID, op.spanID, op.now)] else before
  }

  /** No request is made active again before it is cleared. */
  ghost predicate Proper(ops: seq<Op>) {
    forall k: nat, n: nat :: k < n < |ops| && Uncleared(ops, k, n) && ops[n].Set? ==>
      ops[n].traceID != ops[k].traceID || ops[n].spanID != ops[k].spanID
  }

  /** The clock never goes back between the operations that read it. */
  ghost predicate ClockForward(ops: seq<Op>) {
    forall i, j :: 0 <= i < j < |ops| && ops[i].Set? && ops[j].Set? ==> ops[i].now <= ops[j].now
  }

  ghost predicate Sorted(es: seq<Active>) {
    forall i, j :: 0 <= i < j < |es| ==> es[i].seen <= es[j].seen
  }

  function Without(es: seq<Active>, traceID: text, spanID: text): seq<Active> {
    if es == [] then []
    else
      var n := |es| - 1;
      var rest := Without(es[..n], traceID, spanID);
      if Matches(es[n], traceID, spanID) then rest else rest + [es[n]]
  }

  ghost predicate Never(es: seq<Active>, traceID: text, spanID: text) {
    forall i :: 0 <= i < |es| ==> !Matches(es[i], traceID, spanID)
  }

  lemma {:induction false} WithoutNever(es: seq<Active>, traceID: text, spanID: text)
    requires Never(es, traceID, spanID)
    ensures Without(es, traceID, spanID) == es && WithoutLast(es, traceID, spanID) == es
  {
    if es != [] {
      var n := |es| - 1;
      WithoutNever(es[..n], traceID, spanID);
      assert !Matches(es[n], traceID, spanID);
      assert es[..n] + [es[n]] == es;
    }
  }

  /** At most one entry for this span. */
  ghost predicate Once(es: seq<Active>, traceID: text, spanID: text) {
    forall i, j :: 0 <= i < j < |es| ==> !(Matches(es[i], traceID, spanID) && Matches(es[j], traceID, spanID))
  }

  lemma {:induction false} WithoutOnce(es: seq<Active>, traceID: text, spanID: text)
    requires Once(es, traceID, spanID)
    ensures WithoutLast(es, traceID, spanID) == Without(es, traceID, spanID)
  {
    if es != [] {
      var n := |es| - 1;
      if Matches(es[n], traceID, spanID) {
        WithoutNever(es[..n], traceID, spanID);
      } else {
        WithoutOnce(es[..n], traceID, spanID);
      }
    }
  }

  // ---- The stack is the history ----

  lemma {:induction false} FromSet(ops: seq<Op>, m: nat, n: nat, i: nat) returns (k: nat)
    requires m <= n <= |ops| && i < |ActiveOf(ops, m, n)|
    ensures k < m && Uncleared(ops, k, n)
    ensures ActiveOf(ops, m, n)[i] == Active(ops[k].traceID, ops[k].spanID, ops[k].now)
    decreases m
  {
    if i < |ActiveOf(ops, m - 1, n)| {
      k := FromSet(ops, m - 1, n, i);
    } else {
      k := m - 1;
    }
  }

  lemma {:induction false} ActiveOnce(ops: seq<Op>, m: nat, n: nat, traceID: text, spanID: text)
    requires m <= n <= |ops| && Proper(ops)
    ensures Once(ActiveOf(ops, m, n), traceID, spanID)
    decreases m
  {
    if m > 0 {
      var before := ActiveOf(ops, m - 1, n);
      ActiveOnce(ops, m - 1, n, traceID, spanID);
      if Uncleared(ops, m - 1, n) && ops[m - 1].traceID == traceID && ops[m - 1].spanID == spanID {
        forall i | 0 <= i < |before|
          ensures !Matches(before[i], traceID, spanID)
        {
          var k := FromSet(ops, m - 1, n, i);
          assert Uncleared(ops, k, m - 1);
        }
      }
    }
  }

  lemma {:induction false} SetKeepsActive(ops: seq<Op>, m: nat, n: nat)
    requires m <= n < |ops| && ops[n].Set?
    ensures ActiveOf(ops, m, n + 1) == ActiveOf(ops, m, n)
    decreases m
  {
    if m > 0 {
      SetKeepsActive(ops, m - 1, n);
      assert Uncleared(ops, m - 1, n + 1) <==> Uncleared(ops, m - 1, n);
    }
  }

  lemma WithoutSnoc(es: seq<Active>, e: Active, traceID: text, spanID: text)
    ensures Without(es + [e], traceID, spanID)
         == if Matches(e, traceID, spanID) then Without(es, traceID, spanID) else Without(es, traceID, spanID) + [e]
  {
    assert (es + [e])[..|es|] == es;
  }

  lemma {:induction false} ClearRemovesActive(ops: seq<Op>, m: nat, n: nat)
    requires m <= n < |ops| && ops[n].Clear?
    ensures ActiveOf(ops, m, n + 1) == Without(ActiveOf(ops, m, n), ops[n].traceID, ops[n].spanID)
    decreases m
  {
    if m > 0 {
      var op, before := ops[m - 1], ActiveOf(ops, m - 1, n);
      ClearRemovesActive(ops, m - 1, n);
      if op.Set? {
        var e := Active(op.traceID, op.spanID, op.now);
        WithoutSnoc(before, e, ops[n].traceID, ops[n].spanID);
        assert Uncleared(ops, m - 1, n + 1)
          <==> Uncleared(ops, m - 1, n) && !Matches(e, ops[n].traceID, ops[n].spanID);
      }
    }
  }

  /** The stack holds exactly the requests made active and not cleared since, in
      the order in which they became active. */
  lemma {:induction false} StackIsHistory(ops: seq<Op>, n: nat)
    requires n <= |ops| && Proper(ops)
    ensures StackAfter(ops, n) == ActiveOf(ops, n, n)
    decreases n
  {
    if n > 0 {
      var op := ops[n - 1];
      StackIsHistory(ops, n - 1);
      match op
      case Set(_, _, _) =>
        SetKeepsActive(ops, n - 1, n - 1);
        assert Uncleared(ops, n - 1, n);
      case Clear(traceID, spanID) =>
        ClearRemovesActive(ops, n - 1, n - 1);
        ActiveOnce(ops, n - 1, n - 1, traceID, spanID);
        WithoutOnce(StackAfter(ops, n - 1), traceID, spanID);
    }
  }

  // ---- The backward search ----

  lemma OutOfInit(es: seq<Active>, i: nat)
    requires i < |es| - 1
    ensures var n := |es| - 1;
            && es[i + 1..] == es[..n][i + 1..] + [es[n]]
            && es[..n][..i] + es[..n][i + 1..] + [es[n]] == es[..i] + es[i + 1..]
  {
  }

  /** Clearing takes out one entry, the last for its span, and leaves the rest
      in order; without one it changes nothing. */
  lemma {:induction false} WithoutLastMeans(es: seq<Active>, traceID: text, spanID: text) returns (i: int)
    ensures -1 <= i < |es|
    ensures i == -1 ==> Never(es, traceID, spanID) && WithoutLast(es, traceID, spanID) == es
    ensures i != -1 ==> Matches(es[i], traceID, spanID) && Never(es[i + 1..], traceID, spanID)
    ensures i != -1 ==> WithoutLast(es, traceID, spanID) == es[..i] + es[i + 1..]
  {
    if es == [] {
      i := -1;
    } else {
      var n := |es| - 1;
      if Matches(es[n], traceID, spanID) {
        i := n;
        assert es[i + 1..] == [];
      } else {
        i := WithoutLastMeans(es[..n], traceID, spanID);
        if i != -1 {
          OutOfInit(es, i);
        }
      }
    }
  }

  ghost predicate NoLaterThan(es: seq<Active>, now: int) {
    forall i :: 0 <= i < |es| ==> es[i].seen <= now
  }

  lemma RemovedSorted(es: seq<Active>, traceID: text, spanID: text)
    requires Sorted(es)
    ensures Sorted(WithoutLast(es, traceID, spanID))
    ensures forall now :: NoLaterThan(es, now) ==> NoLaterThan(WithoutLast(es, traceID, spanID), now)
  {
    var i := WithoutLastMeans(es, traceID, spanID);
  }

  /** With a clock that never goes back the stack is sorted by the time of its
      entries, and none is later than the next reading. */
  lemma {:induction false} StackSorted(ops: seq<Op>, n: nat)
    requires n <= |ops| && ClockForward(ops)
    ensures Sorted(StackAfter(ops, n))
    ensures forall j :: n <= j < |ops| && ops[j].Set? ==> NoLaterThan(StackAfter(ops, n), ops[j].now)
    decreases n
  {
    if n > 0 {
      StackSorted(ops, n - 1);
      if ops[n - 1].Clear? {
        RemovedSorted(StackAfter(ops, n - 1), ops[n - 1].traceID, ops[n - 1].spanID);
      }
    }
  }

  /** On a sorted stack the search over all entries finds the newest one or
      none: looking at the newest alone gives the same answer. */
  lemma {:induction false} NewestOnly(es: seq<Active>, now: int, ttl: int)
    requires Sorted(es)
    ensures Newest(es, now, ttl)
         == if es != [] && now - es[|es| - 1].seen < ttl then Some(es[|es| - 1]) else None
  {
    if |es| > 1 {
      NewestOnly(es[..|es| - 1], now, ttl);
    }
  }

  /** After any run a query is attributed to the request that became active
      last among those not cleared, unless that one has expired. */
  lemma QueryGoesToNewest(ops: seq<Op>, now: int, ttl: int)
    requires Proper(ops) && ClockForward(ops)
    ensures var uncleared := ActiveOf(ops, |ops|, |ops|);
            Newest(StackAfter(ops, |ops|), now, ttl)
            == if uncleared != [] && now - uncleared[|uncleared| - 1].seen < ttl then Some(uncleared[|uncleared| - 1])
               else None
  {
    StackIsHistory(ops, |ops|);
    StackSorted(ops, |ops|);
    NewestOnly(StackAfter(ops, |ops|), now, ttl);
  }
}
