/** A whole connection: the handshake, then the two loops under any schedule. */
module PgConnection {
  import opened Bytes
  import opened PgCodec
  import opened PgConn
  import opened PgHandshake
  import opened PgSystem
  import opened PgGuarantees

  /** The bytes that the peers send while the loops run. */
  function ClientBytes(actions: seq<Action>): text {
    if actions == [] then []
    else
      var a := actions[|actions| - 1];
      ClientBytes(actions[..|actions| - 1]) + if a.ClientSends? then a.b else []
  }

  function ServerBytes(actions: seq<Action>): text {
    if actions == [] then []
    else
      var a := actions[|actions| - 1];
      ServerBytes(actions[..|actions| - 1]) + if a.ServerSends? then a.b else []
  }

  lemma DoSends(st: State, a: Action)
    ensures Do(st, a).c.relay.sent == st.c.relay.sent + if a.ClientSends? then a.b else []
    ensures Do(st, a).s.relay.sent == st.s.relay.sent + if a.ServerSends? then a.b else []
  {
    assert st.c.relay.sent + [] == st.c.relay.sent;
    assert st.s.relay.sent + [] == st.s.relay.sent;
  }

  lemma {:induction false} RunSends(st: State, actions: seq<Action>)
    ensures Run(st, actions).c.relay.sent == st.c.relay.sent + ClientBytes(actions)
    ensures Run(st, actions).s.relay.sent == st.s.relay.sent + ServerBytes(actions)
  {
    if actions == [] {
      assert st.c.relay.sent + [] == st.c.relay.sent;
      assert st.s.relay.sent + [] == st.s.relay.sent;
    } else {
      var init, a := actions[..|actions| - 1], actions[|actions| - 1];
      RunSends(st, init);
      DoSends(Run(st, init), a);
      Assoc(st.c.relay.sent, ClientBytes(init), if a.ClientSends? then a.b else []);
      Assoc(st.s.relay.sent, ServerBytes(init), if a.ServerSends? then a.b else []);
    }
  }

  /** The connection from its first byte, without TLS: what the server has
      received is a prefix of what the client has sent, and the other way
      round. Once the handshake is complete the prefix is the handshake followed
      by whole messages, except while a message is being written or after a
      write has failed. */
  method HandleConnection(client: Conn, server: Conn, schedule: seq<Action>)
    returns (outcome: Outcome, st: State, ghost h: Handshake)
    requires client != server
    requires client.outgoing == [] && server.outgoing == []
    modifies client, server
    ensures !outcome.Established? ==> server.outgoing <= old(client.incoming) && client.outgoing <= old(server.incoming)
    ensures !outcome.Established? ==>
              EndsAfterRetries(outcome, h, old(client.incoming), old(server.incoming),
                               old(client.room), old(server.room))
    ensures outcome.Established? ==>
              st == Run(Start(client.incoming, server.incoming), schedule)
    ensures outcome.Established? ==>
              && Complete(h)
              && server.outgoing == Up(h) && client.outgoing == Down(h)
              && Up(h) + st.c.relay.written <= old(client.incoming) + ClientBytes(schedule)
              && Down(h) + st.s.relay.written <= old(server.incoming) + ServerBytes(schedule)
              && (st.c.pc != Writing && st.c.pc != Stopped ==>
                    st.c.relay.written == EncodeAll(ParseAll(st.c.relay.written)))
              && (st.s.pc != Forwarding && st.s.pc != Ended ==>
                    st.s.relay.written == EncodeAll(ParseAll(st.s.relay.written)))
  {
    outcome, h := RelayStartup(client, server);
    assert [] + old(client.incoming) == old(client.incoming);
    assert [] + old(server.incoming) == old(server.incoming);
    st := Start([], []);
    if outcome.Established? {
      var start := Start(client.incoming, server.incoming);
      st := Run(start, schedule);
      assert server.outgoing == Up(h) && client.outgoing == Down(h);
      assert Reachable(st);
      Transparency(st);
      RunSends(start, schedule);
      Assoc(Up(h), client.incoming, ClientBytes(schedule));
      Assoc(Down(h), server.incoming, ServerBytes(schedule));
    }
  }
}
