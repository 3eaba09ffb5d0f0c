/** Trace context over several proxies: each HTTP proxy reads the traceparent
    header or starts a trace, and forwards a header naming its own span; the
    last application puts the header it got into a SQL comment. */
module Propagation {
  import opened Bytes
  import opened SqlComment
  import opened Traceparent

  /** The IDs of the span recorded at one proxy. */
  datatype Hop = Hop(traceID: text, parentID: text, spanID: text)

  /** The IDs newly generated at one proxy. */
  datatype Made = Made(traceID: text, spanID: text)

  function ExtractOrCreate(header: text, made: Made): (h: Hop)
    ensures h.spanID == made.spanID
    ensures match ParseTraceparent(header)
            case Accepted(traceID, spanID) => h.traceID == traceID && h.parentID == spanID
            case Rejected => h.traceID == made.traceID && h.parentID == []
  {
    if header != [] && ParseTraceparent(header).Accepted? then
      var tc := ParseTraceparent(header);
      Hop(tc.traceID, tc.spanID, made.spanID)
    else Hop(made.traceID, [], made.spanID)
  }

  function Outgoing(h: Hop): text {
    FormatTraceparent(h.traceID, h.spanID)
  }

  /** The spans at a row of proxies, each passing its header to the next. */
  function Hops(header: text, made: seq<Made>): (hops: seq<Hop>)
    ensures |hops| == |made|
    decreases |made|
  {
    if made == [] then []
    else
      var h := ExtractOrCreate(header, made[0]);
      [h] + Hops(Outgoing(h), made[1..])
  }

  /** The IDs are 16 and 8 bytes, not all zero, in hexadecimal. */
  ghost predicate MadeFrom(made: Made, t: text, s: text) {
    && |t| == 16 && |s| == 8 && !AllZero(t) && !AllZero(s)
    && made.traceID == Hex(t) && made.spanID == Hex(s)
  }

  ghost predicate Generated(made: Made) {
    exists t, s :: MadeFrom(made, t, s)
  }

  ghost predicate WellFormed(made: seq<Made>) {
    forall i :: 0 <= i < |made| ==> Generated(made[i])
  }

  lemma FirstHop(header: text, made: Made)
    requires Generated(made)
    ensures var h := ExtractOrCreate(header, made);
            && ParseTraceparent(Outgoing(h)) == Accepted(h.traceID, h.spanID)
            && Outgoing(h) != []
  {
    var h := ExtractOrCreate(header, made);
    var t, s :| MadeFrom(made, t, s);
    HexIds(t, s);
    FormatParse(h.traceID, h.spanID);
  }

  /** The span the i-th one should name as its parent. */
  function ParentAt(hops: seq<Hop>, parentID: text, i: nat): text
    requires i < |hops|
  {
    if i == 0 then parentID else hops[i - 1].spanID
  }

  /** hops share the trace, each is the child of the one before, and the first
      has this parent. */
  ghost predicate Chained(hops: seq<Hop>, traceID: text, parentID: text) {
    forall i: nat :: i < |hops| ==> hops[i].traceID == traceID && hops[i].parentID == ParentAt(hops, parentID, i)
  }

  lemma ChainedCons(h: Hop, rest: seq<Hop>)
    requires Chained(rest, h.traceID, h.spanID)
    ensures Chained([h] + rest, h.traceID, h.parentID)
  {
    var hops := [h] + rest;
    forall i: nat | i < |hops|
      ensures hops[i].traceID == h.traceID && hops[i].parentID == ParentAt(hops, h.parentID, i)
    {
      if i > 0 {
        assert hops[i] == rest[i - 1];
        assert ParentAt(rest, h.spanID, i - 1) == ParentAt(hops, h.parentID, i);
      }
    }
  }

  lemma {:induction false} HopsFollow(traceID: text, spanID: text, header: text, made: seq<Made>)
    requires WellFormed(made) && ParseTraceparent(header) == Accepted(traceID, spanID) && header != []
    ensures Chained(Hops(header, made), traceID, spanID)
    decreases |made|
  {
    if made != [] {
      var h := ExtractOrCreate(header, made[0]);
      FirstHop(header, made[0]);
      HopsFollow(traceID, h.spanID, Outgoing(h), made[1..]);
      ChainedCons(h, Hops(Outgoing(h), made[1..]));
    }
  }

  /** Whatever header the first proxy gets, all spans share its trace, and each
      is the child of the one before. */
  lemma OneTrace(header: text, made: seq<Made>)
    requires WellFormed(made) && made != []
    ensures var first := ExtractOrCreate(header, made[0]);
            Chained(Hops(header, made), first.traceID, first.parentID)
  {
    var h := ExtractOrCreate(header, made[0]);
    FirstHop(header, made[0]);
    HopsFollow(h.traceID, h.spanID, Outgoing(h), made[1..]);
    ChainedCons(h, Hops(Outgoing(h), made[1..]));
  }

  lemma {:induction false} HopsSpans(header: text, made: seq<Made>, i: nat)
    requires i < |made| && WellFormed(made)
    ensures var h := Hops(header, made)[i];
            && h.spanID == made[i].spanID && Outgoing(h) != []
            && ParseTraceparent(Outgoing(h)) == Accepted(h.traceID, h.spanID)
    decreases i
  {
    var h := ExtractOrCreate(header, made[0]);
    FirstHop(header, made[0]);
    assert Hops(header, made) == [h] + Hops(Outgoing(h), made[1..]);
    if i > 0 {
      HopsSpans(Outgoing(h), made[1..], i - 1);
    }
  }

  /** A comment with the last proxy's header names the common trace and the last
      proxy's span. */
  lemma SqlInTrace(header: text, made: seq<Made>, hops: seq<Hop>, tp: text, query: text)
    requires WellFormed(made) && made != []
    requires hops == Hops(header, made) && tp == Outgoing(hops[|hops| - 1])
    ensures CommentOf(AppendTraceparent(query, tp)) == Found(hops[0].traceID, hops[|hops| - 1].spanID)
    ensures tp != []
  {
    HopsSpans(header, made, |made| - 1);
    OneTrace(header, made);
    assert hops[|hops| - 1].traceID == hops[0].traceID;
    ReadAppended(query, tp);
  }
}
