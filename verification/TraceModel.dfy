/** Spans and traces as the mutable objects they are, and deep copies of them. */
module TraceModel {
  import opened Bytes
  import opened StoreSpec

  datatype Kind = HttpSpan | ConnectSpan | GrpcSpan | SqlSpan

  /** The fields of a span other than its three header maps. Those that the
      store only copies are kept together in `details`. */
  datatype SpanInfo = SpanInfo(
    traceID: text, spanID: text, parentID: text, kind: Kind, name: text,
    start: int, duration: int, isError: bool, details: seq<text>)

  class HeaderMap {
    var entries: map<text, text>

    constructor (entries: map<text, text>)
      ensures this.entries == entries
    {
      this.entries := entries;
    }
  }

  datatype Headers = NoMap | Map(entries: map<text, text>)

  function HeadersOf(m: HeaderMap?): Headers
    reads m
  {
    if m == null then NoMap else Map(m.entries)
  }

  /** Everything that can be read through a span. */
  datatype SpanValue = SpanValue(info: SpanInfo, http: Headers, grpc: Headers, connect: Headers)

  class Span {
    var info: SpanInfo
    var httpHeaders: HeaderMap?
    var grpcMetadata: HeaderMap?
    var connectHeaders: HeaderMap?

    constructor (info: SpanInfo, http: HeaderMap?, grpc: HeaderMap?, connect: HeaderMap?)
      ensures this.info == info
      ensures httpHeaders == http && grpcMetadata == grpc && connectHeaders == connect
    {
      this.info := info;
      httpHeaders, grpcMetadata, connectHeaders := http, grpc, connect;
    }

    function Value(): SpanValue
      reads this, httpHeaders, grpcMetadata, connectHeaders
    {
      SpanValue(info, HeadersOf(httpHeaders), HeadersOf(grpcMetadata), HeadersOf(connectHeaders))
    }

    /** The mutable objects reachable from this span. */
    ghost function Objects(): set<object>
      reads this
    {
      {this} + MapObjects(httpHeaders) + MapObjects(grpcMetadata) + MapObjects(connectHeaders)
    }
  }

  ghost function MapObjects(m: HeaderMap?): set<object> {
    if m == null then {} else {m}
  }

  method CloneMap(m: HeaderMap?) returns (c: HeaderMap?)
    ensures m == null <==> c == null
    ensures c != null ==> fresh(c)
    ensures HeadersOf(c) == HeadersOf(m)
  {
    if m == null {
      return null;
    }
    c := new HeaderMap(m.entries);
  }

  method CloneSpan(s: Span) returns (c: Span)
    ensures fresh(c.Objects())
    ensures c.Value() == s.Value()
    ensures c.info == s.info
    ensures if s.httpHeaders == null then c.httpHeaders == null
            else c.httpHeaders != null && c.httpHeaders.entries == s.httpHeaders.entries
                 && c.httpHeaders != s.httpHeaders
    ensures if s.grpcMetadata == null then c.grpcMetadata == null
            else c.grpcMetadata != null && c.grpcMetadata.entries == s.grpcMetadata.entries
                 && c.grpcMetadata != s.grpcMetadata
    ensures if s.connectHeaders == null then c.connectHeaders == null
            else c.connectHeaders != null && c.connectHeaders.entries == s.connectHeaders.entries
                 && c.connectHeaders != s.connectHeaders
  {
    var http := CloneMap(s.httpHeaders);
    var grpc := CloneMap(s.grpcMetadata);
    var connect := CloneMap(s.connectHeaders);
    c := new Span(s.info, http, grpc, connect);
  }

  function IntervalOf(s: Span): Interval
    reads s
  {
    Interval(s.info.start, s.info.duration)
  }

  function Intervals(spans: seq<Span>): (xs: seq<Interval>)
    reads spans
    ensures |xs| == |spans|
    ensures forall i :: 0 <= i < |xs| ==> xs[i] == IntervalOf(spans[i])
  {
    if spans == [] then []
    else Intervals(spans[..|spans| - 1]) + [IntervalOf(spans[|spans| - 1])]
  }

  method CloneSpans(spans: seq<Span>) returns (clones: seq<Span>)
    ensures |clones| == |spans|
    ensures forall i :: 0 <= i < |spans| ==> fresh(clones[i].Objects())
    ensures forall i :: 0 <= i < |spans| ==> clones[i].Value() == spans[i].Value()
  {
    clones := [];
    for i := 0 to |spans|
      invariant |clones| == i
      invariant forall j :: 0 <= j < i ==> fresh(clones[j].Objects())
      invariant forall j :: 0 <= j < i ==> clones[j].Value() == spans[j].Value()
    {
      var clone := CloneSpan(spans[i]);
      clones := clones + [clone];
    }
  }

  class Trace {
    var traceID: text
    var spans: seq<Span>
    var start: int
    var duration: int

    constructor (traceID: text, start: int)
      ensures this.traceID == traceID && spans == [] && this.start == start && duration == 0
    {
      this.traceID, this.start := traceID, start;
      spans, duration := [], 0;
    }

    /** xs are the intervals of the spans, and the trace has their hull. */
    ghost predicate TimedBy(xs: seq<Interval>)
      reads this, spans
    {
      && Interval(start, duration) == Hull(xs)
      && |xs| == |spans|
      && forall i :: 0 <= i < |spans| ==> assert spans[i] in spans; xs[i] == IntervalOf(spans[i])
    }

    /** The trace's start and duration are those of its spans. */
    ghost predicate Timed()
      reads this, spans
    {
      exists xs :: TimedBy(xs)
    }

    method UpdateTiming()
      modifies this`start, this`duration
      ensures Timed()
    {
      var earliest, latestEnd := 0, 0;
      ghost var xs := Intervals(spans);
      for i := 0 to |spans|
        invariant earliest == Earliest(xs, i) && latestEnd == LatestEnd(xs, i)
      {
        var s := spans[i];
        if earliest == 0 || s.info.start < earliest {
          earliest := s.info.start;
        }
        var end := s.info.start + s.info.duration;
        if end > latestEnd {
          latestEnd := end;
        }
      }
      start := earliest;
      duration := latestEnd - earliest;
      assert TimedBy(xs);
    }

    /** This trace reads like the other one, down to the header maps. */
    ghost predicate LooksLike(t: Trace)
      reads this, spans, set s: Span | s in spans :: s.httpHeaders
      reads set s: Span | s in spans :: s.grpcMetadata
      reads set s: Span | s in spans :: s.connectHeaders
      reads t, t.spans, set s: Span | s in t.spans :: s.httpHeaders
      reads set s: Span | s in t.spans :: s.grpcMetadata
      reads set s: Span | s in t.spans :: s.connectHeaders
    {
      && traceID == t.traceID && start == t.start && duration == t.duration
      && |spans| == |t.spans|
      && forall i :: 0 <= i < |spans| ==>
           assert spans[i] in spans && t.spans[i] in t.spans;
           spans[i].Value() == t.spans[i].Value()
    }

    /** A deep copy: it reads like this trace and is made of new objects
        throughout. */
    method Snapshot() returns (cp: Trace)
      ensures fresh(cp) && cp.LooksLike(this)
      ensures forall i :: 0 <= i < |cp.spans| ==> fresh(cp.spans[i].Objects())
    {
      var clones := CloneSpans(spans);
      cp := new Trace(traceID, start);
      cp.spans, cp.duration := clones, duration;
    }
  }
}
