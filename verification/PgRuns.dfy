/** Runs in which the peers keep to rules. A rule is checked in every state on
    the way, so a statement about all states reached under it is one about all
    interleavings with such peers. */
module PgRuns {
  import opened Bytes
  import opened PgCodec
  import opened PgCapture
  import opened PgSystem
  import opened PgSafety

  /** The messages the client has sent in full, whether or not they were read. */
  function ClientMessages(st: State): seq<Msg> {
    ParseAll(st.c.relay.sent)
  }

  /** How many ReadyForQuery messages these client messages call for. */
  function Asked(ms: seq<Msg>): nat {
    CountKind(ms, 'S') + CountKind(ms, 'Q')
  }

  /** The server never sends more ReadyForQuery messages than it has received
      Sync and Query messages. */
  predicate ServerOk(st: State) {
    CountKind(ParseAll(st.s.relay.sent), 'Z') <= Asked(ParseAll(st.c.relay.written))
  }

  /** The client sends extended-query groups, each with exactly one query; the
      last one may not have it yet. */
  predicate ClientOk(st: State) {
    var ms := ClientMessages(st);
    CountKind(ms, 'Q') == 0 && OnePerClosedGroup(ms) && |OpenGroup(ms)| <= 1
  }

  /** The groups whose query the client has sent. */
  function Started(ms: seq<Msg>): nat {
    CountKind(ms, 'S') + |OpenGroup(ms)|
  }

  /** At most `window` groups, counting the one being sent, are not yet answered
      by a ReadyForQuery that has reached the client. */
  predicate WindowOk(st: State, window: nat) {
    Started(ClientMessages(st)) <= CountKind(ParseAll(st.s.relay.written), 'Z') + window
  }

  /** Either only the server is bound, or the client is, too. */
  datatype Rules = AnyClient | Windowed(window: nat)

  predicate Allowed(rules: Rules, st: State) {
    ServerOk(st) && (rules.Windowed? ==> ClientOk(st) && WindowOk(st, rules.window))
  }

  /** The state after the first n actions. */
  function StateAfterActions(clientUnread: text, serverUnread: text, actions: seq<Action>, n: nat): State
    requires n <= |actions|
  {
    Run(Start(clientUnread, serverUnread), actions[..n])
  }

  lemma RunStep(clientUnread: text, serverUnread: text, actions: seq<Action>, n: nat)
    requires n < |actions|
    ensures StateAfterActions(clientUnread, serverUnread, actions, n + 1)
         == Do(StateAfterActions(clientUnread, serverUnread, actions, n), actions[n])
  {
    assert actions[..n + 1][..n] == actions[..n];
  }

  /** Every state of this run is allowed. */
  ghost predicate Lawful(rules: Rules, cu: text, su: text, actions: seq<Action>) {
    forall i :: 0 <= i <= |actions| ==> Allowed(rules, StateAfterActions(cu, su, actions, i))
  }

  /** Some lawful run, in some interleaving, leads here. */
  ghost predicate Reaches(rules: Rules, st: State) {
    exists cu, su, actions :: Lawful(rules, cu, su, actions) && st == Run(Start(cu, su), actions)
  }

  lemma ReachesReachable(rules: Rules, st: State)
    requires Reaches(rules, st)
    ensures Reachable(st) && Inv(st) && Allowed(rules, st)
  {
    var cu, su, actions :| Lawful(rules, cu, su, actions) && st == Run(Start(cu, su), actions);
    assert actions[..|actions|] == actions;
    assert Allowed(rules, StateAfterActions(cu, su, actions, |actions|));
    assert Reachable(st);
    ReachableInv(st);
  }

  lemma ReachesStart(rules: Rules, cu: text, su: text)
    requires Allowed(rules, Start(cu, su))
    ensures Reaches(rules, Start(cu, su))
  {
    assert Lawful(rules, cu, su, []);
    assert Run(Start(cu, su), []) == Start(cu, su);
  }

  lemma ReachesDo(rules: Rules, st: State, a: Action)
    requires Reaches(rules, st) && Allowed(rules, Do(st, a))
    ensures Reaches(rules, Do(st, a))
  {
    var cu, su, actions :| Lawful(rules, cu, su, actions) && st == Run(Start(cu, su), actions);
    var longer := actions + [a];
    assert longer[..|actions|] == actions;
    assert Run(Start(cu, su), longer) == Do(st, a);
    forall i | 0 <= i <= |longer|
      ensures Allowed(rules, StateAfterActions(cu, su, longer, i))
    {
      if i <= |actions| {
        assert longer[..i] == actions[..i];
        assert Allowed(rules, StateAfterActions(cu, su, actions, i));
      } else {
        assert longer[..i] == longer;
      }
    }
  }
}
