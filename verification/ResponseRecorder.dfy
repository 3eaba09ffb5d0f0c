/** Recording the status and the start of a response on its way to the client. */
module ResponseRecorder {
  import opened Bytes
  import opened BodyCapture

  /** A call the handler makes on a response writer. */
  datatype Call = Header(code: int) | Data(chunk: text)

  /** All data of these calls. */
  function DataOf(calls: seq<Call>): text {
    if calls == [] then []
    else
      var n := |calls| - 1;
      if calls[n].Data? then DataOf(calls[..n]) + calls[n].chunk else DataOf(calls[..n])
  }

  /** The status of a response: that of its first call, 0 before any. */
  function StatusOf(calls: seq<Call>): int {
    if calls == [] then 0 else if calls[0].Header? then calls[0].code else 200
  }

  /** The writer that leads to the client. It accepts so many bytes before its
      connection breaks. */
  class ResponseWriter {
    var calls: seq<Call>
    var room: nat

    constructor (room: nat)
      ensures calls == [] && this.room == room
    {
      calls, this.room := [], room;
    }

    method WriteHeader(code: int)
      modifies this
      ensures calls == old(calls) + [Header(code)] && room == old(room)
    {
      calls := calls + [Header(code)];
    }

    method Write(b: text) returns (n: nat, ok: bool)
      modifies this
      ensures calls == old(calls) + [Data(b)]
      ensures n == (if |b| <= old(room) then |b| else old(room)) && room == old(room) - n
      ensures ok <==> n == |b|
    {
      calls := calls + [Data(b)];
      n := if |b| <= room then |b| else room;
      room := room - n;
      ok := n == |b|;
    }
  }

  class Recorder {
    const out: ResponseWriter
    const maxBodySize: int
    var statusCode: int
    var wroteHeader: bool
    var body: text

    /** What is recorded is determined by the calls passed on: the status by the
        first, the body by all data up to the limit. */
    ghost predicate Valid()
      reads this, out
    {
      && body == Start(DataOf(out.calls), Cap(maxBodySize))
      && statusCode == StatusOf(out.calls)
      && (wroteHeader <==> out.calls != [])
    }

    constructor (out: ResponseWriter, maxBodySize: int)
      requires out.calls == []
      ensures Valid() && this.out == out && this.maxBodySize == maxBodySize
    {
      this.out, this.maxBodySize := out, maxBodySize;
      statusCode, wroteHeader, body := 0, false, [];
    }

    /** Every call reaches the client's writer, also a second one. */
    method WriteHeader(code: int)
      requires Valid()
      modifies this, out
      ensures Valid() && out.calls == old(out.calls) + [Header(code)]
      ensures statusCode == if old(out.calls) == [] then code else old(statusCode)
      ensures body == old(body)
    {
      if !wroteHeader {
        statusCode := code;
        wroteHeader := true;
      }
      HeaderSnoc(out.calls, code);
      out.WriteHeader(code);
    }

    /** Data reaches the client's writer whole, and the caller learns what the
        writer said. */
    method Write(b: text) returns (n: nat, ok: bool)
      requires Valid()
      modifies this, out
      ensures Valid() && out.calls == old(out.calls) + [Data(b)]
      ensures n == (if |b| <= old(out.room) then |b| else old(out.room)) && (ok <==> n == |b|)
      ensures statusCode == if old(out.calls) == [] then 200 else old(statusCode)
      ensures body == old(body) + b[..if |old(body)| >= maxBodySize then 0
                                      else if |b| > maxBodySize - |old(body)| then maxBodySize - |old(body)|
                                      else |b|]
    {
      if !wroteHeader {
        statusCode := 200;
        wroteHeader := true;
      }
      DataSnoc(out.calls, b);
      StartGrows(body, DataOf(out.calls), b, maxBodySize);
      assert body + b[..0] == body && body + b[..|b|] == body + b;
      if |body| < maxBodySize {
        var remaining := maxBodySize - |body|;
        if |b| > remaining {
          body := body + b[..remaining];
        } else {
          body := body + b;
        }
      }
      n, ok := out.Write(b);
    }
  }

  lemma HeaderSnoc(calls: seq<Call>, code: int)
    ensures DataOf(calls + [Header(code)]) == DataOf(calls)
    ensures StatusOf(calls + [Header(code)]) == if calls == [] then code else StatusOf(calls)
  {
    assert (calls + [Header(code)])[..|calls|] == calls;
  }

  lemma DataSnoc(calls: seq<Call>, chunk: text)
    ensures DataOf(calls + [Data(chunk)]) == DataOf(calls) + chunk
    ensures StatusOf(calls + [Data(chunk)]) == if calls == [] then 200 else StatusOf(calls)
  {
    assert (calls + [Data(chunk)])[..|calls|] == calls;
  }

  /** The start of a concatenation is the start of the first part, filled up
      from the second. */
  lemma StartGrows(start: text, a: text, b: text, limit: int)
    requires start == Start(a, Cap(limit))
    ensures Start(a + b, Cap(limit)) ==
            if |start| >= limit then start
            else if |b| > limit - |start| then start + b[..limit - |start|]
            else start + b
  {
  }
}
