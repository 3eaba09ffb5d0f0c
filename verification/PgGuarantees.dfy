/** What a proxied connection guarantees on every run: bytes pass unchanged,
    queries are neither invented nor reordered, and events report on the right
    part of the server's stream. */
module PgGuarantees {
  import opened PgCodec
  import opened PgFields
  import opened PgCapture
  import opened PgSystem
  import opened PgSafety

  predicate AtBoundary(r: Relay) {
    r.left == [] || (r.read != [] && r.left == Encode(Last(r)))
  }

  lemma RelayTransparent(r: Relay)
    requires RelayInv(r)
    ensures r.written <= r.sent
    ensures ParseAll(r.written) == Delivered(r) <= ParseAll(r.sent)
    ensures AtBoundary(r) ==> r.written == EncodeAll(Delivered(r))
  {
    ReceiverSees(r);
    SenderSent(r);
    assert r.sent == r.written + (r.left + r.unread) by {
      Assoc(r.written, r.left, r.unread);
    }
    if r.left == [] || r.read == [] {
      assert r.written + [] == r.written;
    } else if AtBoundary(r) {
      WrittenSplit(r);
      var init := EncodeAll(r.read[..|r.read| - 1]);
      assert r.written == init + Encode(Last(r))[..0] == init;
    }
  }

  /** Byte transparency: in every reachable state each peer has received a
      prefix of what the other one sent, it can decode exactly the messages
      written in full, and outside a write that prefix ends between messages. */
  lemma Transparency(st: State)
    requires Reachable(st)
    ensures st.c.relay.written <= st.c.relay.sent
    ensures st.s.relay.written <= st.s.relay.sent
    ensures ParseAll(st.c.relay.written) <= ParseAll(st.c.relay.sent)
    ensures ParseAll(st.s.relay.written) <= ParseAll(st.s.relay.sent)
    ensures st.c.pc != Writing && st.c.pc != Stopped ==>
              st.c.relay.written == EncodeAll(ParseAll(st.c.relay.written))
    ensures st.s.pc != Forwarding && st.s.pc != Ended ==>
              st.s.relay.written == EncodeAll(ParseAll(st.s.relay.written))
  {
    ReachableInv(st);
    RelayTransparent(st.c.relay);
    RelayTransparent(st.s.relay);
  }

  lemma {:induction false} LogSplits(log: seq<Attempt>)
    ensures multiset(Queries(log)) == multiset(Chosen(log, true)) + multiset(Chosen(log, false))
  {
    if log != [] {
      var init, a := log[..|log| - 1], log[|log| - 1];
      LogSplits(init);
      assert Queries(log) == Queries(init) + [a.query];
      assert Chosen(log, a.accepted) == Chosen(init, a.accepted) + [a.query];
      assert Chosen(log, !a.accepted) == Chosen(init, !a.accepted);
    }
  }

  lemma {:induction false} PositionsBound(ms: seq<Msg>, at: seq<nat>)
    requires forall k :: 0 <= k < |at| ==> at[k] < |ms| && ms[at[k]].kind == 'Z'
    requires forall k, l :: 0 <= k < l < |at| ==> at[k] < at[l]
    ensures |at| <= CountKind(ms, 'Z')
  {
    if at != [] {
      assert at[|at| - 1] < |ms|;
      var init := ms[..|ms| - 1];
      if at[|at| - 1] == |ms| - 1 {
        PositionsBound(init, at[..|at| - 1]);
      } else {
        PositionsBound(init, at);
      }
    }
  }

  lemma {:induction false} QueriesLength(log: seq<Attempt>)
    ensures |Queries(log)| == |log|
  {
    if log != [] {
      QueriesLength(log[..|log| - 1]);
    }
  }

  lemma OffersBounded(c: Client, log: seq<Attempt>)
    requires OffersInv(c, log)
    ensures Queries(log) <= Captures(c.relay.read)
    ensures |Captures(c.relay.read)| <= |log| + 1
  {
    QueriesLength(log);
  }

  /** Conservation: the queries offered are those captured from the messages
      read, up to one still to be offered; each was accepted or dropped; the
      accepted ones are, in order, those emitted and then those buffered; the
      buffer never exceeds its capacity; and there is at most one event for
      every ReadyForQuery read. */
  lemma Conservation(st: State)
    requires Reachable(st)
    ensures Queries(st.ch.log) <= Captures(st.c.relay.read)
    ensures |Captures(st.c.relay.read)| <= |st.ch.log| + 1
    ensures multiset(Queries(st.ch.log)) == multiset(Chosen(st.ch.log, true)) + multiset(Chosen(st.ch.log, false))
    ensures Chosen(st.ch.log, true) == EventQueries(st.s.events) + st.ch.buffer
    ensures |st.ch.buffer| <= 64
    ensures |st.s.events| <= CountKind(st.s.relay.read, 'Z')
  {
    ReachableInv(st);
    OffersBounded(st.c, st.ch.log);
    LogSplits(st.ch.log);
    EventsBounded(st.s.relay.read, |Handled(st.s)|, st.s.events, st.s.at);
  }

  lemma EventsBounded(read: seq<Msg>, h: nat, events: seq<Event>, at: seq<nat>)
    requires EventsInv(read, h, events, at)
    ensures |events| <= CountKind(read, 'Z')
  {
    PositionsBound(read, at);
  }

  lemma {:induction false} CycleStartMeaning(ms: seq<Msg>, n: nat, i: nat)
    requires n <= |ms|
    ensures CycleStart(ms, n) == 0 || ms[CycleStart(ms, n) - 1].kind == 'Z'
    ensures CycleStart(ms, n) <= i < n ==> ms[i].kind != 'Z'
  {
    if n > 0 && ms[n - 1].kind != 'Z' {
      CycleStartMeaning(ms, n - 1, i);
    }
  }

  /** The error text is that of the last ErrorResponse, and empty only without
      one. */
  lemma {:induction false} LastErrorMeaning(ms: seq<Msg>, n: nat, i: nat)
    requires i <= n <= |ms|
    requires forall j :: i < j < n ==> ms[j].kind != 'E'
    requires if i < n then ms[i].kind == 'E' else forall j :: 0 <= j < n ==> ms[j].kind != 'E'
    ensures LastErrorIn(ms, n) == if i < n then ErrorText(ms[i].payload) else []
  {
    if n > 0 && ms[n - 1].kind != 'E' {
      LastErrorMeaning(ms, n - 1, if i < n then i else n - 1);
    }
  }

  /** Message z is a ReadyForQuery and `from` is the position after the
      ReadyForQuery before it. */
  ghost predicate IsCycle(ms: seq<Msg>, from: nat, z: nat) {
    && from <= z < |ms|
    && ms[z].kind == 'Z'
    && (from == 0 || ms[from - 1].kind == 'Z')
    && (forall i :: from <= i < z ==> ms[i].kind != 'Z')
  }

  /** Event e reports on the cycle that message z ends: its row count is the
      number of DataRows, and its error the text of the last ErrorResponse,
      between the ReadyForQuery before and that one. */
  ghost predicate Describes(e: Event, ms: seq<Msg>, z: nat) {
    exists from: nat ::
      && IsCycle(ms, from, z)
      && e.rowCount == CountKind(ms[from..z], 'D')
      && e.error == LastErrorText(ms[from..z])
  }

  lemma CycleDescribed(e: Event, ms: seq<Msg>, z: nat)
    requires z < |ms| && ms[z].kind == 'Z'
    requires e.rowCount == CountKind(Cycle(ms[..z]), 'D') && e.error == LastErrorText(Cycle(ms[..z]))
    ensures Describes(e, ms, z)
  {
    var from := CycleStart(ms[..z], z);
    assert ms[..z][from..] == ms[from..z];
    forall i | from <= i < z
      ensures ms[i].kind != 'Z'
    {
      CycleStartMeaning(ms[..z], z, i);
    }
    CycleStartMeaning(ms[..z], z, z);
    assert IsCycle(ms, from, z);
  }

  /** Row counts and errors: every event comes from a ReadyForQuery of its own,
      in order, and reports on the cycle that it ends. */
  lemma EventsDescribeCycles(st: State)
    requires Reachable(st)
    ensures |st.s.at| == |st.s.events|
    ensures forall k, l :: 0 <= k < l < |st.s.at| ==> st.s.at[k] < st.s.at[l]
    ensures forall k :: 0 <= k < |st.s.at| ==> Describes(st.s.events[k], st.s.relay.read, st.s.at[k])
  {
    ReachableInv(st);
    EventsInvDescribes(st.s.relay.read, |Handled(st.s)|, st.s.events, st.s.at);
  }

  lemma EventsInvDescribes(read: seq<Msg>, h: nat, events: seq<Event>, at: seq<nat>)
    requires EventsInv(read, h, events, at)
    ensures forall k :: 0 <= k < |at| ==> Describes(events[k], read, at[k])
  {
    forall k | 0 <= k < |at|
      ensures Describes(events[k], read, at[k])
    {
      CycleDescribed(events[k], read, at[k]);
    }
  }
}
