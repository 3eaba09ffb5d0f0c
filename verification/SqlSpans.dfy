/** From an observed query to the span that records it: which trace it belongs
    to, and the text it is shown with. */
module SqlSpans {
  import opened Bytes
  import opened Correlation
  import opened PgSystem
  import opened Propagation
  import opened SqlComment
  import opened Strings
  import opened Traceparent

  datatype SqlSpan = SqlSpan(
    traceID: text, spanID: text, parentID: text, name: text, query: text,
    rowCount: nat, error: text, isError: bool)

  /** Crashed is the run-time failure inside the comment parser. */
  datatype Handled = Crashed | Submitted(span: SqlSpan)

  const NAME_LENGTH := 80

  function TruncateQuery(q: text, maxLen: nat): text {
    if |q| <= maxLen then q else q[..maxLen] + "..."
  }

  /** A query is in this trace, below this span, shown with this text, and is an
      error exactly when it has an error text. */
  ghost predicate Records(span: SqlSpan, ev: Event, traceID: text, parentID: text, shown: text) {
    && span.traceID == traceID && span.parentID == parentID
    && span.query == shown && span.name == TruncateQuery(shown, NAME_LENGTH)
    && span.rowCount == ev.rowCount && span.error == ev.error
    && (span.isError <==> ev.error != [])
  }

  /** What the stack of active requests says about a query without IDs. */
  function Fallback(es: seq<Active>, ttl: int, now: int, made: Made): (text, text) {
    match Newest(es, now, ttl)
    case Some(e) => (e.traceID, e.spanID)
    case None => (made.traceID, [])
  }

  /** The trace and parent of a query: its comment's, if that can be read. */
  function Ids(comment: Comment, fallback: (text, text)): (text, text) {
    if comment.Found? then (comment.traceID, comment.parentID) else fallback
  }

  /** The text of a query: its last comment is kept only when that has no
      traceparent. */
  function Shown(comment: Comment, query: text): text {
    if comment.Absent? then query else StripSQLComment(query)
  }

  method MakeSpan(ev: Event, traceID: text, parentID: text, queryText: text, spanID: text) returns (span: SqlSpan)
    ensures Records(span, ev, traceID, parentID, queryText) && span.spanID == spanID
  {
    span := SqlSpan(traceID, spanID, parentID, TruncateQuery(queryText, NAME_LENGTH), queryText,
                    ev.rowCount, ev.error, false);
    if ev.error != [] {
      span := span.(isError := true);
    }
  }

  /** A readable comment decides; otherwise the stack of active requests does. */
  method OnQuery(ev: Event, c: Correlator, now: int, made: Made) returns (h: Handled)
    ensures h.Crashed? <==> CommentOf(ev.query).OutOfRange?
    ensures h.Submitted? ==> h.span.spanID == made.spanID
    ensures h.Submitted? ==>
      var ids := Ids(CommentOf(ev.query), Fallback(c.entries, c.ttl, now, made));
      Records(h.span, ev, ids.0, ids.1, Shown(CommentOf(ev.query), ev.query))
    ensures h.Submitted? ==> h.span.rowCount == ev.rowCount && h.span.error == ev.error
    ensures h.Submitted? ==> (h.span.isError <==> ev.error != [])
    ensures h.Submitted? ==> h.span.name == if |h.span.query| > 80 then h.span.query[..80] + "..." else h.span.query
  {
    var traceID: text, parentID: text := [], [];
    var queryText := ev.query;
    var sc := ParseSQLComment(ev.query);
    match sc {
      case Found(commentTrace, commentParent) =>
        traceID, parentID := commentTrace, commentParent;
        queryText := StripSQLComment(ev.query);
      case Invalid =>
        traceID, parentID := c.Correlate(now, made.traceID);
        queryText := StripSQLComment(ev.query);
      case Absent =>
        traceID, parentID := c.Correlate(now, made.traceID);
      case OutOfRange =>
        return Crashed;
    }
    var span := MakeSpan(ev, traceID, parentID, queryText, made.spanID);
    return Submitted(span);
  }

  /** The query an application sends below a row of proxies is recorded in the
      trace of the first, as a child of the last, and without the comment,
      whatever requests are active meanwhile. */
  lemma QueryInTrace(header: text, made: seq<Made>, hops: seq<Hop>, query: text, sent: text, fallback: (text, text))
    requires WellFormed(made) && made != [] && hops == Hops(header, made)
    requires sent == AppendTraceparent(query, Outgoing(hops[|hops| - 1]))
    ensures Ids(CommentOf(sent), fallback) == (hops[0].traceID, hops[|hops| - 1].spanID)
    ensures Shown(CommentOf(sent), sent) == TrimRight(query, BLANKS)
  {
    var tp := Outgoing(hops[|hops| - 1]);
    SqlInTrace(header, made, hops, tp, query);
    StripAppended(query, tp);
  }

  /** A query sent without a traceparent, and without a comment of its own that
      looks like one, is recorded as it is, below the request that became active
      last among those not cleared, or alone in a new trace. */
  lemma PlainQuery(query: text, ops: seq<Op>, ttl: int, now: int, made: Made)
    requires CommentOf(query).Absent? && Proper(ops) && ClockForward(ops)
    ensures var uncleared := ActiveOf(ops, |ops|, |ops|);
            Ids(CommentOf(query), Fallback(StackAfter(ops, |ops|), ttl, now, made))
            == if uncleared != [] && now - uncleared[|uncleared| - 1].seen < ttl
               then (uncleared[|uncleared| - 1].traceID, uncleared[|uncleared| - 1].spanID)
               else (made.traceID, [])
    ensures Shown(CommentOf(query), query) == query
  {
    QueryGoesToNewest(ops, now, ttl);
  }

  /** A query with a traceparent that cannot be read, for whatever reason, is
      recorded in the same place as one without, but the comment is not shown. */
  lemma UnreadableQuery(sent: text, ops: seq<Op>, ttl: int, now: int, made: Made)
    requires CommentOf(sent).Invalid? && Proper(ops) && ClockForward(ops)
    ensures var uncleared := ActiveOf(ops, |ops|, |ops|);
            Ids(CommentOf(sent), Fallback(StackAfter(ops, |ops|), ttl, now, made))
            == if uncleared != [] && now - uncleared[|uncleared| - 1].seen < ttl
               then (uncleared[|uncleared| - 1].traceID, uncleared[|uncleared| - 1].spanID)
               else (made.traceID, [])
    ensures Shown(CommentOf(sent), sent) == StripSQLComment(sent)
  {
    QueryGoesToNewest(ops, now, ttl);
  }

  /** So is a query that was sent with a traceparent that is no header. */
  lemma InvalidQuery(query: text, tp: text, sent: text, ops: seq<Op>, ttl: int, now: int, made: Made)
    requires tp != [] && ParseTraceparent(tp).Rejected? && sent == AppendTraceparent(query, tp)
    requires Proper(ops) && ClockForward(ops)
    ensures var uncleared := ActiveOf(ops, |ops|, |ops|);
            Ids(CommentOf(sent), Fallback(StackAfter(ops, |ops|), ttl, now, made))
            == if uncleared != [] && now - uncleared[|uncleared| - 1].seen < ttl
               then (uncleared[|uncleared| - 1].traceID, uncleared[|uncleared| - 1].spanID)
               else (made.traceID, [])
    ensures Shown(CommentOf(sent), sent) == TrimRight(query, BLANKS)
  {
    ReadAppended(query, tp);
    StripAppended(query, tp);
    UnreadableQuery(sent, ops, ttl, now, made);
  }
}
