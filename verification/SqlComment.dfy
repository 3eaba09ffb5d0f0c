/** The traceparent comment at the end of a SQL query: appended by the
    application, read and removed by the proxy. */
module SqlComment {
  import opened Bytes
  import opened Percent
  import opened Strings
  import opened Traceparent

  /** What the proxy finds. OutOfRange is the run-time failure of the slice
      between the comment marks when they overlap. */
  datatype Comment = Absent | Invalid | Found(traceID: text, parentID: text) | OutOfRange

  const BLANKS: text := " \t\n\r"
  const OPEN: text := "/*"
  const CLOSE: text := "*/"

  const LEAD: text := " /*traceparent='"
  const TAIL: text := "'*/"
  const KEY: text := "traceparent"
  const QUOTE: text := "'"

  function AppendTraceparent(query: text, traceparent: text): text {
    if traceparent == [] then query else query + LEAD + QueryEscape(traceparent) + TAIL
  }

  function StripSQLComment(query: text): text {
    var q := TrimRight(query, BLANKS);
    if !HasSuffix(q, CLOSE) then query
    else if LastIndex(q, OPEN) < 0 then query
    else TrimRight(q[..LastIndex(q, OPEN)], BLANKS)
  }

  // ---- What a comment says ----

  /** What one key-value pair of a comment contributes. */
  datatype Verdict = Other | Says(comment: Comment)

  function IdsOf(parsed: Parsed): Comment {
    match parsed
    case Rejected => Invalid
    case Accepted(traceID, spanID) => Found(traceID, spanID)
  }

  function ValueOf(value: text): (r: Comment)
    ensures r.Invalid? || r.Found?
  {
    match QueryUnescape(Trim(value, QUOTE))
    case Bad => Invalid
    case Good(decoded) => IdsOf(ParseTraceparent(decoded))
  }

  function VerdictOf(pair: text): (v: Verdict)
    ensures v.Says? ==> v.comment.Invalid? || v.comment.Found?
  {
    match Cut(TrimSpace(pair), '=')
    case Whole => Other
    case Parts(key, value) => if TrimSpace(key) == KEY then Says(ValueOf(TrimSpace(value))) else Other
  }

  function Verdicts(pairs: seq<text>): (vs: seq<Verdict>)
    ensures |vs| == |pairs|
  {
    if pairs == [] then [] else [VerdictOf(pairs[0])] + Verdicts(pairs[1..])
  }

  lemma {:induction false} VerdictAt(pairs: seq<text>, i: nat)
    requires i < |pairs|
    ensures Verdicts(pairs)[i] == VerdictOf(pairs[i])
  {
    if i > 0 {
      VerdictAt(pairs[1..], i - 1);
    }
  }

  lemma {:induction false} VerdictsInRange(pairs: seq<text>)
    ensures forall i :: 0 <= i < |pairs| && Verdicts(pairs)[i].Says? ==> !Verdicts(pairs)[i].comment.OutOfRange?
  {
    if pairs != [] {
      VerdictsInRange(pairs[1..]);
    }
  }

  /** What the first pair that says anything, from the i-th on, says. */
  function FirstSaid(vs: seq<Verdict>, i: nat): Comment
    requires i <= |vs|
    decreases |vs| - i
  {
    if i == |vs| then Absent else if vs[i].Says? then vs[i].comment else FirstSaid(vs, i + 1)
  }

  function CommentIn(q: text): Comment {
    var start := LastIndex(q, OPEN);
    if !HasSuffix(q, CLOSE) || start < 0 then Absent
    else if start + 2 > |q| - 2 then OutOfRange
    else BodySaid(q[start + 2..|q| - 2])
  }

  function BodySaid(body: text): (r: Comment)
    ensures !r.OutOfRange?
  {
    var vs := Verdicts(Split(body, ','));
    VerdictsInRange(Split(body, ','));
    SaidInRange(vs, 0);
    FirstSaid(vs, 0)
  }

  function CommentOf(query: text): Comment {
    CommentIn(TrimRight(query, BLANKS))
  }

  ghost predicate SilentTo(vs: seq<Verdict>, i: nat) {
    i <= |vs| && forall j :: 0 <= j < i ==> vs[j].Other?
  }

  /** The first traceparent pair decides, and later ones are not looked at; a
      comment is one without a traceparent only if no pair has that key. */
  lemma {:induction false} FirstSaidMeans(vs: seq<Verdict>, i: nat)
    requires SilentTo(vs, i)
    ensures SilentTo(vs, |vs|) ==> FirstSaid(vs, i) == Absent
    ensures forall j: nat :: j < |vs| && SilentTo(vs, j) && vs[j].Says? ==> FirstSaid(vs, i) == vs[j].comment
    decreases |vs| - i
  {
    if i < |vs| && vs[i].Other? {
      FirstSaidMeans(vs, i + 1);
    }
  }

  /** The pair's key, with white space around it ignored, is traceparent. */
  predicate IsTraceparent(pair: text) {
    match Cut(TrimSpace(pair), '=')
    case Whole => false
    case Parts(key, _) => TrimSpace(key) == KEY
  }

  function ValueIn(pair: text): text {
    match Cut(TrimSpace(pair), '=')
    case Whole => []
    case Parts(_, value) => TrimSpace(value)
  }

  /** Pair i is the first with a traceparent key. */
  ghost predicate FirstTraceparent(pairs: seq<text>, i: nat) {
    i < |pairs| && IsTraceparent(pairs[i]) && forall j :: 0 <= j < i ==> !IsTraceparent(pairs[j])
  }

  lemma {:induction false} SaidByFirst(pairs: seq<text>, i: nat)
    requires FirstTraceparent(pairs, i)
    ensures FirstSaid(Verdicts(pairs), 0) == ValueOf(ValueIn(pairs[i]))
  {
    forall j | 0 <= j <= i
      ensures Verdicts(pairs)[j] == VerdictOf(pairs[j])
    {
      VerdictAt(pairs, j);
    }
    FirstSaidMeans(Verdicts(pairs), 0);
    assert SilentTo(Verdicts(pairs), i);
  }

  lemma SaidByNone(pairs: seq<text>)
    requires forall j :: 0 <= j < |pairs| ==> !IsTraceparent(pairs[j])
    ensures FirstSaid(Verdicts(pairs), 0) == Absent
  {
    forall j | 0 <= j < |pairs|
      ensures Verdicts(pairs)[j].Other?
    {
      VerdictAt(pairs, j);
    }
    FirstSaidMeans(Verdicts(pairs), 0);
  }

  /** The comma-separated pairs of the comment at the end of a query. */
  ghost predicate CommentPairs(query: text, pairs: seq<text>) {
    var q := TrimRight(query, BLANKS);
    var start := LastIndex(q, OPEN);
    HasSuffix(q, CLOSE) && 0 <= start && start + 2 <= |q| - 2 && pairs == Split(q[start + 2..|q| - 2], ',')
  }

  /** The first pair with a traceparent key decides, later ones are not looked
      at, and only without any is no traceparent found. */
  lemma FirstDecides(query: text, pairs: seq<text>)
    requires CommentPairs(query, pairs)
    ensures forall i: nat :: FirstTraceparent(pairs, i) ==> CommentOf(query) == ValueOf(ValueIn(pairs[i]))
    ensures CommentOf(query).Absent? <==> forall j :: 0 <= j < |pairs| ==> !IsTraceparent(pairs[j])
  {
    var q := TrimRight(query, BLANKS);
    CommentBetween(q, LastIndex(q, OPEN));
    assert CommentOf(query) == FirstSaid(Verdicts(pairs), 0);
    forall i: nat | FirstTraceparent(pairs, i)
      ensures CommentOf(query) == ValueOf(ValueIn(pairs[i]))
    {
      SaidByFirst(pairs, i);
    }
    if forall j :: 0 <= j < |pairs| ==> !IsTraceparent(pairs[j]) {
      SaidByNone(pairs);
    } else {
      var i := FirstIn(pairs, |pairs|);
      SaidByFirst(pairs, i);
    }
  }

  lemma {:induction false} FirstIn(pairs: seq<text>, n: nat) returns (i: nat)
    requires n <= |pairs| && exists j :: 0 <= j < n && IsTraceparent(pairs[j])
    ensures FirstTraceparent(pairs, i)
  {
    if exists j :: 0 <= j < n - 1 && IsTraceparent(pairs[j]) {
      i := FirstIn(pairs, n - 1);
    } else {
      i := n - 1;
    }
  }

  /** One pass of the loop below: the value of the pair's traceparent key, if
      that is its key. */
  method ReadPair(pair: text) returns (v: Verdict)
    ensures v == VerdictOf(pair)
  {
    match Cut(TrimSpace(pair), '=') {
      case Whole =>
        return Other;
      case Parts(before, after) =>
        var key, val := TrimSpace(before), TrimSpace(after);
        if key != KEY {
          return Other;
        }
        match QueryUnescape(Trim(val, QUOTE)) {
          case Bad =>
            return Says(Invalid);
          case Good(decoded) =>
            match ParseTraceparent(decoded) {
              case Rejected =>
                return Says(Invalid);
              case Accepted(traceID, spanID) =>
                return Says(Found(traceID, spanID));
            }
        }
    }
  }

  lemma CommentBetween(q: text, start: int)
    requires HasSuffix(q, CLOSE) && start == LastIndex(q, OPEN) && 0 <= start && start + 2 <= |q| - 2
    ensures CommentIn(q) == BodySaid(q[start + 2..|q| - 2])
  {
  }

  method ParseSQLComment(query: text) returns (r: Comment)
    ensures r == CommentOf(query)
  {
    var q := TrimRight(query, BLANKS);
    if !HasSuffix(q, CLOSE) {
      return Absent;
    }
    var start := LastIndex(q, OPEN);
    if start < 0 {
      return Absent;
    }
    if start + 2 > |q| - 2 {
      return OutOfRange;
    }
    r := ReadBody(q[start + 2..|q| - 2]);
    CommentBetween(q, start);
  }

  method ReadBody(body: text) returns (r: Comment)
    ensures r == BodySaid(body)
  {
    var pairs := Split(body, ',');
    ghost var vs := Verdicts(pairs);
    for i := 0 to |pairs|
      invariant FirstSaid(vs, i) == FirstSaid(vs, 0)
    {
      var v := ReadPair(pairs[i]);
      VerdictAt(pairs, i);
      if v.Says? {
        return v.comment;
      }
    }
    return Absent;
  }

  lemma {:induction false} SaidInRange(vs: seq<Verdict>, i: nat)
    requires i <= |vs| && forall j :: 0 <= j < |vs| && vs[j].Says? ==> !vs[j].comment.OutOfRange?
    ensures !FirstSaid(vs, i).OutOfRange?
    decreases |vs| - i
  {
    if i < |vs| {
      SaidInRange(vs, i + 1);
    }
  }

  lemma OverlapIn(q: text)
    ensures CommentIn(q) == OutOfRange <==> EndsInOverlap(q)
  {
    var start := LastIndex(q, OPEN);
    MatchesTwo(q, CLOSE, |q| - 2);
    MatchesTwo(q, OPEN, start);
    MatchesTwo(q, OPEN, |q| - 3);
    if EndsInOverlap(q) {
      assert MatchesAt(q, OPEN, |q| - 3);
      assert start >= |q| - 3;
    }
  }

  /** Reading a comment fails at run time exactly when the query, without
      trailing blanks, ends in a comment opening whose star also closes it. */
  lemma FailsExactly(query: text)
    ensures CommentOf(query) == OutOfRange <==> EndsInOverlap(TrimRight(query, BLANKS))
  {
    OverlapIn(TrimRight(query, BLANKS));
  }

  predicate EndsInOverlap(q: text) {
    |q| >= 3 && q[|q| - 3] == '/' && q[|q| - 2] == '*' && q[|q| - 1] == '/'
  }

  /** The shortest query whose comment cannot be read. */
  lemma OverlapExample()
    ensures CommentOf("/*/") == OutOfRange
  {
    var q: text := "/*/";
    FailsExactly(q);
    assert TrimRight(q, BLANKS) == q;
  }

  // ---- Reading back what was appended ----

  function Quoted(s: text): text {
    QUOTE + s + QUOTE
  }

  /** The comment body between its marks. */
  function BodyOf(traceparent: text): text {
    KEY + ['='] + Quoted(QueryEscape(traceparent))
  }

  lemma Regroup(a: text, b: text, c: text, d: text, e: text, f: text, g: text, h: text)
    ensures a + (b + c + d + e) + f + (g + h) == (a + b) + c + (d + (e + f + g)) + h
  {
  }

  lemma AppendedIs(query: text, tp: text)
    requires tp != []
    ensures AppendTraceparent(query, tp) == query + [' '] + OPEN + BodyOf(tp) + CLOSE
  {
    var key := KEY + ['='];
    assert LEAD == [' '] + OPEN + key + QUOTE;
    assert TAIL == QUOTE + CLOSE;
    Regroup(query, [' '], OPEN, key, QUOTE, QueryEscape(tp), QUOTE, CLOSE);
  }

  /** Between marks, text without slash or star leaves the marks the last ones. */
  lemma MarksAround(pre: text, body: text)
    requires forall i :: 0 <= i < |body| ==> body[i] !in OPEN
    ensures var q := pre + OPEN + body + CLOSE;
            && q != [] && q[|q| - 1] == '/' && HasSuffix(q, CLOSE)
            && LastIndex(q, OPEN) == |pre| && q[..|pre|] == pre
            && q[|pre| + 2..|q| - 2] == body
  {
    var q := pre + OPEN + body + CLOSE;
    assert q[|pre|] == OPEN[0] && q[|pre| + 1] == OPEN[1];
    assert q[|q| - 2] == CLOSE[0] && q[|q| - 1] == CLOSE[1];
    MatchesTwo(q, OPEN, |pre|);
    MatchesTwo(q, CLOSE, |q| - 2);
    forall j | |pre| < j
      ensures !MatchesAt(q, OPEN, j)
    {
      MatchesTwo(q, OPEN, j);
      if |pre| + 2 <= j < |q| - 2 {
        assert q[j] == body[j - |pre| - 2];
      }
    }
    assert q[|pre| + 2..|q| - 2] == body;
  }

  lemma BodyBytes(tp: text)
    ensures forall i :: 0 <= i < |BodyOf(tp)| ==> BodyOf(tp)[i] !in OPEN && BodyOf(tp)[i] != ','
  {
    EscapedBytes(tp);
  }

  lemma AppendedMarks(query: text, tp: text)
    requires tp != []
    ensures var q := AppendTraceparent(query, tp);
            && TrimRight(q, BLANKS) == q && HasSuffix(q, CLOSE)
            && LastIndex(q, OPEN) == |query| + 1 && q[..|query| + 1] == query + [' ']
            && q[|query| + 3..|q| - 2] == BodyOf(tp)
  {
    AppendedIs(query, tp);
    BodyBytes(tp);
    MarksAround(query + [' '], BodyOf(tp));
  }

  lemma BodyCut(tp: text)
    ensures Cut(TrimSpace(BodyOf(tp)), '=') == Parts(KEY, Quoted(QueryEscape(tp)))
  {
    TrimSpaceNothing(BodyOf(tp));
    CutUnique(KEY, '=', Quoted(QueryEscape(tp)));
  }

  lemma BodySays(tp: text)
    requires tp != []
    ensures VerdictOf(BodyOf(tp)) == Says(IdsOf(ParseTraceparent(tp)))
  {
    BodyCut(tp);
    TrimSpaceNothing(KEY);
    TrimSpaceNothing(Quoted(QueryEscape(tp)));
    QuotesTrimmed(tp);
    UnescapeEscape(tp);
    assert ValueOf(Quoted(QueryEscape(tp))) == IdsOf(ParseTraceparent(tp));
  }

  lemma QuotesTrimmed(tp: text)
    requires tp != []
    ensures Trim(Quoted(QueryEscape(tp)), QUOTE) == QueryEscape(tp)
  {
    var escaped := QueryEscape(tp);
    EscapedBytes(tp);
    assert Quoted(escaped) == QUOTE + (escaped + QUOTE);
    TrimLeftOf(QUOTE, escaped + QUOTE, QUOTE);
    TrimRightOf(escaped, QUOTE, QUOTE);
  }

  lemma BodyRead(tp: text)
    requires tp != []
    ensures BodySaid(BodyOf(tp)) == IdsOf(ParseTraceparent(tp))
  {
    BodyBytes(tp);
    SplitFree(BodyOf(tp), ',');
    BodySays(tp);
    VerdictAt([BodyOf(tp)], 0);
  }

  /** The proxy reads an appended traceparent exactly as it would read it from
      a header, whatever the query and the traceparent; it never overlooks it. */
  lemma ReadAppended(query: text, tp: text)
    requires tp != []
    ensures CommentOf(AppendTraceparent(query, tp)) == IdsOf(ParseTraceparent(tp))
  {
    AppendedMarks(query, tp);
    BodyRead(tp);
  }

  lemma TrimBlank(query: text)
    ensures TrimRight(query + [' '], BLANKS) == TrimRight(query, BLANKS)
  {
    assert (query + [' '])[..|query|] == query;
  }

  /** Stripping what was appended gives the query back, but for blanks at its
      end. */
  lemma StripAppended(query: text, tp: text)
    requires tp != []
    ensures StripSQLComment(AppendTraceparent(query, tp)) == TrimRight(query, BLANKS)
  {
    AppendedMarks(query, tp);
    TrimBlank(query);
  }

  // ---- A comment as it is written ----

  lemma HexPlain(b: text)
    ensures forall i :: 0 <= i < |Hex(b)| ==> Unreserved(Hex(b)[i])
  {
    HexIsLower(b);
  }

  lemma PlainFour(a: text, b: text, c: text, d: text)
    requires forall i :: 0 <= i < |a| ==> Unreserved(a[i])
    requires forall i :: 0 <= i < |b| ==> Unreserved(b[i])
    requires forall i :: 0 <= i < |c| ==> Unreserved(c[i])
    requires forall i :: 0 <= i < |d| ==> Unreserved(d[i])
    ensures forall i :: 0 <= i < |a + b + c + d| ==> Unreserved((a + b + c + d)[i])
  {
  }

  /** The header of a generated span needs no escapes. */
  lemma HeaderPlain(t: text, s: text)
    ensures QueryEscape("00-" + Hex(t) + "-" + Hex(s) + "-01") == "00-" + Hex(t) + "-" + Hex(s) + "-01"
  {
    var front: text, back: text := "00-", "-01";
    HexPlain(t);
    HexPlain(s);
    PlainFour(front, Hex(t), "-", Hex(s));
    PlainFour(front + Hex(t) + "-" + Hex(s), back, [], []);
    EscapePlain("00-" + Hex(t) + "-" + Hex(s) + "-01");
  }

  lemma {:induction false} TrimRightMore(a: text, b: text, cut: text)
    requires forall i :: 0 <= i < |b| ==> b[i] in cut
    ensures TrimRight(a + b, cut) == TrimRight(a, cut)
  {
    if b == [] {
      assert a + b == a;
    } else {
      assert (a + b)[..|a + b| - 1] == a + b[..|b| - 1];
      TrimRightMore(a, b[..|b| - 1], cut);
    }
  }

  lemma TrimmedTwice(s: text, cut: text)
    ensures TrimRight(TrimRight(s, cut), cut) == TrimRight(s, cut)
  {
  }

  /** Blanks after the comment change nothing. */
  lemma BlanksAfter(q: text, blanks: text)
    requires forall i :: 0 <= i < |blanks| ==> blanks[i] in BLANKS
    requires HasSuffix(TrimRight(q, BLANKS), CLOSE) && LastIndex(TrimRight(q, BLANKS), OPEN) >= 0
    ensures CommentOf(q + blanks) == CommentOf(q) && StripSQLComment(q + blanks) == StripSQLComment(q)
  {
    TrimRightMore(q, blanks, BLANKS);
  }

  /** The comment of a generated span, character by character: whatever query it
      follows and whatever blanks follow it, its IDs are read, and it is removed
      with the blanks before it. */
  lemma WrittenComment(query: text, t: text, s: text, blanks: text)
    requires |t| == 16 && |s| == 8 && !AllZero(t) && !AllZero(s)
    requires forall i :: 0 <= i < |blanks| ==> blanks[i] in " \t\n\r"
    ensures var sent := query + " /*traceparent='00-" + Hex(t) + "-" + Hex(s) + "-01'*/" + blanks;
            CommentOf(sent) == Found(Hex(t), Hex(s)) && StripSQLComment(sent) == TrimRight(query, " \t\n\r")
  {
    var tp: text := "00-" + Hex(t) + "-" + Hex(s) + "-01";
    var sent := AppendTraceparent(query, tp);
    HeaderPlain(t, s);
    FormatGenerated(t, s);
    ReadAppended(query, tp);
    StripAppended(query, tp);
    AppendedMarks(query, tp);
    BlanksAfter(sent, blanks);
    WrittenOut(query, Hex(t), Hex(s), blanks);
  }

  lemma WrittenOut(query: text, t: text, s: text, blanks: text)
    ensures query + " /*traceparent='" + ("00-" + t + "-" + s + "-01") + "'*/" + blanks
         == query + " /*traceparent='00-" + t + "-" + s + "-01'*/" + blanks
  {
    var front: text, zero: text, back: text, end: text := " /*traceparent='", "00-", "-01", "'*/";
    var joined: text, closed: text := " /*traceparent='00-", "-01'*/";
    assert front + zero == joined && back + end == closed;
    assert query + front + (zero + t + "-" + s + back) + end + blanks
        == query + (front + zero) + t + "-" + s + (back + end) + blanks;
  }

  // ---- Other pairs before it ----

  predicate Word(s: text) {
    s != [] && forall i :: 0 <= i < |s| ==> IsAlnum(s[i])
  }

  /** One more pair, as sqlcommenter writes it. */
  function PairOf(key: text, value: text): text {
    key + ['='] + Quoted(value)
  }

  lemma WordSolid(s: text)
    requires Word(s)
    ensures Solid(s[0]) && Solid(s[|s| - 1]) && Free(s, '=') && Free(s, ',')
    ensures forall i :: 0 <= i < |s| ==> s[i] !in OPEN
  {
  }

  lemma OtherKey(key: text, value: text)
    requires Word(key) && Word(value) && key != KEY
    ensures VerdictOf(PairOf(key, value)).Other?
  {
    WordSolid(key);
    TrimSpaceNothing(PairOf(key, value));
    CutUnique(key, '=', Quoted(value));
    TrimSpaceNothing(key);
  }

  lemma PairBytes(key: text, value: text)
    requires Word(key) && Word(value)
    ensures var pair := PairOf(key, value);
            Free(pair, ',') && forall i :: 0 <= i < |pair| ==> pair[i] !in OPEN
  {
    WordSolid(key);
    WordSolid(value);
    var pair, k := PairOf(key, value), |key|;
    assert pair == key + ['='] + (QUOTE + value + QUOTE);
    forall i | 0 <= i < |pair|
      ensures pair[i] != ',' && pair[i] !in OPEN
    {
      if i < k {
        assert pair[i] == key[i];
      } else if k + 2 <= i < |pair| - 1 {
        assert pair[i] == value[i - k - 2];
      }
    }
  }

  function Both(a: text, b: text): text {
    a + [','] + b
  }

  function Commented(query: text, body: text): text {
    query + [' '] + OPEN + body + CLOSE
  }

  lemma SplitTwo(a: text, b: text)
    requires Free(a, ',') && Free(b, ',')
    ensures Split(Both(a, b), ',') == [a, b]
  {
    SplitFirst(a, ',', b);
    SplitFree(b, ',');
    assert [a] + [b] == [a, b];
  }

  lemma SecondSays(a: text, b: text, v: Comment)
    requires VerdictOf(a) == Other && VerdictOf(b) == Says(v)
    ensures FirstSaid(Verdicts([a, b]), 0) == v
  {
    VerdictAt([a, b], 0);
    VerdictAt([a, b], 1);
    assert FirstSaid(Verdicts([a, b]), 1) == v;
  }

  lemma CommentWith(query: text, body: text)
    requires forall i :: 0 <= i < |body| ==> body[i] !in OPEN
    ensures CommentOf(Commented(query, body)) == BodySaid(body)
  {
    var q := Commented(query, body);
    MarksAround(query + [' '], body);
    assert TrimRight(q, BLANKS) == q;
    CommentBetween(q, |query| + 1);
  }

  lemma BothBytes(a: text, b: text)
    requires forall i :: 0 <= i < |a| ==> a[i] !in OPEN
    requires forall i :: 0 <= i < |b| ==> b[i] !in OPEN
    ensures forall i :: 0 <= i < |Both(a, b)| ==> Both(a, b)[i] !in OPEN
  {
  }

  lemma BothSay(a: text, b: text, v: Comment)
    requires Free(a, ',') && Free(b, ',') && VerdictOf(a) == Other && VerdictOf(b) == Says(v)
    ensures BodySaid(Both(a, b)) == v
  {
    SplitTwo(a, b);
    SecondSays(a, b, v);
  }

  /** A pair with another key before the traceparent is passed over. */
  lemma AmongOthers(query: text, key: text, value: text, tp: text)
    requires Word(key) && Word(value) && key != "traceparent" && tp != []
    ensures CommentOf(Commented(query, Both(PairOf(key, value), BodyOf(tp)))) == IdsOf(ParseTraceparent(tp))
  {
    var a, b := PairOf(key, value), BodyOf(tp);
    OtherKey(key, value);
    PairBytes(key, value);
    BodyBytes(tp);
    BodySays(tp);
    BothSay(a, b, IdsOf(ParseTraceparent(tp)));
    BothBytes(a, b);
    CommentWith(query, Both(a, b));
  }
}
