/** One end of a connection, and reading and writing messages on it. */
module PgConn {
  import opened Bytes
  import opened PgCodec

  /** A blocking connection, seen from the proxy. What the peer will ever send
      is fixed in advance and unknown; so is the number of bytes it will accept
      before writes fail. */
  class Conn {
    var incoming: text   // bytes still to be read before the end of the stream
    var outgoing: text   // bytes delivered to the peer so far
    var room: nat        // bytes the peer will still accept

    constructor (incoming: text, room: nat)
      ensures this.incoming == incoming && this.outgoing == [] && this.room == room
    {
      this.incoming, this.outgoing, this.room := incoming, [], room;
    }

    method ReadFull(n: nat) returns (ok: bool, data: text)
      modifies this`incoming
      ensures ok == (n <= |old(incoming)|)
      ensures old(incoming) == data + incoming
      ensures if ok then |data| == n else incoming == []
    {
      ok := n <= |incoming|;
      var k := if ok then n else |incoming|;
      data, incoming := incoming[..k], incoming[k..];
    }

    method Write(b: text) returns (ok: bool)
      modifies this`outgoing, this`room
      ensures ok == (|b| <= old(room))
      ensures outgoing == old(outgoing) + if ok then b else b[..old(room)]
      ensures room == if ok then old(room) - |b| else 0
    {
      ok := |b| <= room;
      var k := if ok then |b| else room;
      outgoing, room := outgoing + b[..k], room - k;
    }
  }

  datatype ReadResult = Read(msg: Msg) | ReadFailed

  method ReadMessage(conn: Conn) returns (r: ReadResult)
    modifies conn`incoming
    ensures r.Read? == Decode(old(conn.incoming)).Frame?
    ensures r.Read? ==> Decode(old(conn.incoming)) == Frame(r.msg, conn.incoming)
  {
    ghost var stream := conn.incoming;
    var ok, header := conn.ReadFull(5);
    if !ok {
      return ReadFailed;
    }
    assert stream[1..5] == header[1..5];
    var length := U32(header[1..5]);
    if length < 4 {
      return ReadFailed;
    }
    if length > MAX_MESSAGE_SIZE {
      return ReadFailed;
    }
    var payload;
    ok, payload := conn.ReadFull(length - 4);
    if !ok {
      return ReadFailed;
    }
    assert stream == header + payload + conn.incoming;
    assert stream[5..1 + length] == payload;
    assert stream[1 + length..] == conn.incoming;
    return Read(Msg(header[0], payload));
  }

  method WriteMessage(conn: Conn, m: Msg) returns (ok: bool)
    modifies conn`outgoing, conn`room
    ensures ok == (|Encode(m)| <= old(conn.room))
    ensures conn.outgoing == old(conn.outgoing) + if ok then Encode(m) else Encode(m)[..old(conn.room)]
    ensures conn.room == if ok then old(conn.room) - |Encode(m)| else 0
  {
    ok := conn.Write(Header(m));
    if !ok {
      assert Encode(m)[..old(conn.room)] == Header(m)[..old(conn.room)];
      return;
    }
    if |m.payload| > 0 {
      ghost var room := conn.room;
      ok := conn.Write(m.payload);
      if !ok {
        assert Encode(m)[..old(conn.room)] == Header(m) + m.payload[..room];
      } else {
        assert Encode(m) == Header(m) + m.payload;
      }
    } else {
      assert Encode(m) == Header(m);
    }
  }
}
