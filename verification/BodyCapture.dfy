/** Capturing the start of a request body while forwarding all of it. */
module BodyCapture {
  import opened Bytes

  datatype Status = More | Ended | Failed

  function Concat(chunks: seq<text>): text {
    if chunks == [] then [] else chunks[0] + Concat(chunks[1..])
  }

  /** A body read piece by piece: one chunk or a part of one at a time, then the
      end or a failure. An empty chunk is a read that returns nothing yet. */
  class Body {
    var chunks: seq<text>
    var closed: bool
    const failing: bool
    /** The end is reported together with the last data, not after it. */
    const eager: bool

    constructor (chunks: seq<text>, failing: bool, eager: bool)
      ensures this.chunks == chunks && this.failing == failing && this.eager == eager && !closed
    {
      this.chunks := chunks;
      this.failing := failing;
      this.eager := eager;
      closed := false;
    }

    function End(): Status {
      if failing then Failed else Ended
    }

    method Read(want: nat) returns (data: text, status: Status)
      requires want > 0
      modifies this`chunks
      ensures |data| <= want && |data| <= |Concat(old(chunks))|
      ensures || chunks == After(old(chunks), |data|)
              || (data == [] && old(chunks) != [] && old(chunks)[0] == [] && chunks == old(chunks)[1..])
      ensures data + Concat(chunks) == Concat(old(chunks))
      ensures data == [] <==> old(chunks) == [] || old(chunks)[0] == []
      ensures status != More ==> chunks == [] && status == End()
      ensures data == [] && status == More ==> |chunks| < |old(chunks)|
    {
      if chunks == [] {
        return [], End();
      }
      var first := chunks[0];
      if |first| <= want {
        data, chunks := first, chunks[1..];
      } else {
        data, chunks := first[..want], [first[want..]] + chunks[1..];
      }
      status := if eager && chunks == [] then End() else More;
    }

    method Close()
      modifies this`closed
      ensures closed
    {
      closed := true;
    }
  }

  /** What is left to read after exactly n bytes. */
  function After(chunks: seq<text>, n: nat): seq<text> {
    if n == 0 || chunks == [] then chunks
    else if |chunks[0]| <= n then After(chunks[1..], n - |chunks[0]|)
    else [chunks[0][n..]] + chunks[1..]
  }

  lemma {:induction false} AfterAfter(chunks: seq<text>, n: nat, m: nat)
    ensures After(chunks, n + m) == After(After(chunks, n), m)
    decreases |chunks|
  {
    if n > 0 && chunks != [] {
      if |chunks[0]| <= n {
        AfterAfter(chunks[1..], n - |chunks[0]|, m);
      } else {
        var rest := [chunks[0][n..]] + chunks[1..];
        assert rest[1..] == chunks[1..];
        if |chunks[0]| > n + m {
          assert chunks[0][n..][m..] == chunks[0][n + m..];
        }
      }
    }
  }

  lemma {:induction false} ConcatAfter(chunks: seq<text>, n: nat)
    requires n <= |Concat(chunks)|
    ensures Concat(After(chunks, n)) == Concat(chunks)[n..]
    decreases |chunks|
  {
    if n > 0 {
      if |chunks[0]| <= n {
        ConcatAfter(chunks[1..], n - |chunks[0]|);
      } else {
        var rest := [chunks[0][n..]] + chunks[1..];
        assert rest[1..] == chunks[1..];
      }
    }
  }

  function Cap(limit: int): nat {
    if limit < 0 then 0 else limit
  }

  /** The first n bytes, or all. */
  function Start(s: text, n: nat): text {
    if |s| <= n then s else s[..n]
  }

  /** What is captured is the start of the body, as long as the limit allows. */
  lemma StartMeans(s: text, limit: int, captured: text)
    ensures captured == Start(s, Cap(limit))
       <==> captured <= s && |captured| == if limit <= 0 then 0 else if |s| <= limit then |s| else limit
  {
    if captured <= s {
      assert captured == s[..|captured|];
    }
    assert s[..|s|] == s;
  }

  /** Everything until the end, a failure, or the limit; reads are of any size
      that fits under the limit. */
  method ReadAllLimited(rc: Body, limit: int) returns (head: text, failed: bool)
    modifies rc`chunks
    ensures head == Start(Concat(old(rc.chunks)), Cap(limit))
    ensures head + Concat(rc.chunks) == Concat(old(rc.chunks))
    ensures failed ==> rc.failing && rc.chunks == []
    ensures |Concat(old(rc.chunks))| > Cap(limit) ==> rc.chunks == After(old(rc.chunks), Cap(limit))
  {
    ghost var all := rc.chunks;
    head := [];
    while |head| < limit
      invariant |head| <= Cap(limit)
      invariant head + Concat(rc.chunks) == Concat(all)
      invariant After(rc.chunks, Cap(limit) - |head|) == After(all, Cap(limit))
      decreases |Concat(rc.chunks)|, |rc.chunks|
    {
      ghost var before, sofar := rc.chunks, head;
      var want :| 1 <= want <= limit - |head|;
      var data, status := rc.Read(want);
      head := head + data;
      assert sofar + (data + Concat(rc.chunks)) == sofar + data + Concat(rc.chunks);
      if data != [] {
        AfterAfter(before, |data|, limit - |head|);
      }
      if status != More {
        return head, status == Failed;
      }
    }
    return head, false;
  }

  /** The body handed to the upstream server. */
  datatype Rebuilt = NoBody | Replay(bytes: text) | Continue(head: text, rest: Body)

  /** The bytes the upstream server can read from it. */
  function Forwarded(b: Rebuilt): text
    reads if b.Continue? then {b.rest} else {}
  {
    match b
    case NoBody => []
    case Replay(bytes) => bytes
    case Continue(head, rest) => head + Concat(rest.chunks)
  }

  /** More than n bytes come, but the read after the first n returns nothing. */
  predicate Stalls(chunks: seq<text>, n: nat) {
    |Concat(chunks)| > n && After(chunks, n) != [] && After(chunks, n)[0] == []
  }

  /** The client's stream ends, or seems to, within the captured part: the bytes
      are no more than the limit, or the read after them returns nothing. */
  predicate Conceals(chunks: seq<text>, n: nat) {
    |Concat(chunks)| <= n || Stalls(chunks, n)
  }

  /** Whether reading it to the end reports a failure. */
  predicate ReportsFailure(b: Rebuilt) {
    b.Continue? && b.rest.failing
  }

  /** The upstream body is complete except when the client's reader stalls just
      after the captured part; its length is given exactly when it fits. A failure
      of the client's stream is passed on exactly when it is not concealed. */
  method CaptureBody(rc: Body?, limit: int) returns (captured: text, body: Rebuilt, length: int)
    modifies if rc == null then {} else {rc}
    ensures rc == null ==> captured == [] && body == NoBody && length == 0
    ensures rc != null ==> captured == Start(Concat(old(rc.chunks)), Cap(limit))
    ensures rc != null ==> (Forwarded(body) == Concat(old(rc.chunks)) <==> !Stalls(old(rc.chunks), Cap(limit)))
    ensures rc != null && rc.failing ==> (!ReportsFailure(body) <==> Conceals(old(rc.chunks), Cap(limit)))
    ensures rc != null && (|captured| == |Concat(old(rc.chunks))| || Stalls(old(rc.chunks), Cap(limit))) ==>
              body == Replay(captured) && length == |captured| && rc.closed
    ensures rc != null && !(|captured| == |Concat(old(rc.chunks))| || Stalls(old(rc.chunks), Cap(limit))) ==>
              body.Continue? && body.rest == rc && length == -1 && rc.closed == old(rc.closed)
  {
    if rc == null {
      return [], NoBody, 0;
    }
    ghost var all := rc.chunks;
    var head, failed := ReadAllLimited(rc, limit);
    if failed {
      rc.Close();
      return head, Replay(head), |head|;
    }
    var probe, _ := rc.Read(1);
    if probe == [] {
      rc.Close();
      return head, Replay(head), |head|;
    }
    assert head + (probe + Concat(rc.chunks)) == head + probe + Concat(rc.chunks);
    return head, Continue(head + probe, rc), -1;
  }

  /** A failing reader whose failure is reported after a long body, but not after
      one of exactly the limit. */
  method FailureExample() returns (short: Rebuilt, long: Rebuilt)
    ensures short == Replay("ab") && !ReportsFailure(short)
    ensures ReportsFailure(long)
  {
    var chunks: seq<text> := ["ab"];
    assert chunks[1..] == [] && Concat(chunks) == "ab" + Concat([]) == "ab";
    var head: text, length := [], 0;
    var rc := new Body(chunks, true, false);
    head, short, length := CaptureBody(rc, 2);
    rc := new Body(chunks, true, false);
    assert After(chunks, 1) == ["ab"[1..]] + [];
    head, long, length := CaptureBody(rc, 1);
  }

  /** A reader whose reads return data or the end never stalls. */
  lemma {:induction false} SteadyNeverStalls(chunks: seq<text>, n: nat)
    requires forall i :: 0 <= i < |chunks| ==> chunks[i] != []
    ensures !Stalls(chunks, n)
    decreases |chunks|
  {
    if n > 0 && chunks != [] && |chunks[0]| <= n {
      SteadyNeverStalls(chunks[1..], n - |chunks[0]|);
    }
  }

  /** A stalling reader loses the bytes after the captured part. */
  lemma StallExample()
    ensures var chunks := ["ab", "", "cd"];
            Stalls(chunks, 2) && Concat(chunks) == "abcd"
  {
    var chunks: seq<text> := ["ab", "", "cd"];
    assert After(chunks, 2) == After(chunks[1..], 0) == chunks[1..];
    assert chunks[1..] == ["", "cd"];
    assert chunks[2..] == ["cd"] && ["cd"][1..] == [];
    assert ["", "cd"][1..] == ["cd"];
    assert Concat(["cd"]) == "cd" + Concat([]) == "cd";
    assert Concat(["", "cd"]) == "cd";
  }
}
