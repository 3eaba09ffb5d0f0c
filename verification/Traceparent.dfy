/** The traceparent header of W3C Trace Context, section 3.2. */
module Traceparent {
  import opened Bytes
  import opened Percent
  import opened Strings

  datatype Parsed = Rejected | Accepted(traceID: text, spanID: text)

  const ZERO_TRACE: text := "00000000000000000000000000000000"
  const ZERO_SPAN: text := "0000000000000000"

  /** The text decodes as hexadecimal. */
  predicate DecodesAsHex(s: text) {
    |s| % 2 == 0 && forall i :: 0 <= i < |s| ==> IsHex(s[i])
  }

  function Lower(c: byte): byte {
    if 'A' <= c <= 'Z' then ByteOf(c as int + 32) else c
  }

  function ToLower(s: text): (r: text)
    ensures |r| == |s| && forall i :: 0 <= i < |s| ==> r[i] == Lower(s[i])
  {
    seq(|s|, i requires 0 <= i < |s| => Lower(s[i]))
  }

  predicate IsLowerHex(s: text) {
    DecodesAsHex(s) && ToLower(s) == s
  }

  predicate LowerHexDigit(c: byte) {
    '0' <= c <= '9' || 'a' <= c <= 'f'
  }

  lemma IsLowerHexMeans(s: text)
    ensures IsLowerHex(s) <==> |s| % 2 == 0 && forall i :: 0 <= i < |s| ==> LowerHexDigit(s[i])
  {
    if IsLowerHex(s) {
      forall i | 0 <= i < |s|
        ensures LowerHexDigit(s[i])
      {
        assert IsHex(s[i]) && Lower(s[i]) == ToLower(s)[i] == s[i];
      }
    }
  }

  predicate ValidIds(traceID: text, spanID: text) {
    && |traceID| == 32 && |spanID| == 16
    && IsLowerHex(traceID) && IsLowerHex(spanID)
    && traceID != ZERO_TRACE && spanID != ZERO_SPAN
  }

  function ParseTraceparent(header: text): (r: Parsed)
    ensures r.Accepted? ==> ValidIds(r.traceID, r.spanID)
  {
    var parts := Split(header, '-');
    if |parts| != 4 then Rejected
    else
      var traceID, spanID := parts[1], parts[2];
      if |traceID| != 32 || |spanID| != 16 then Rejected
      else if !IsLowerHex(traceID) || !IsLowerHex(spanID) then Rejected
      else if traceID == ZERO_TRACE || spanID == ZERO_SPAN then Rejected
      else Accepted(traceID, spanID)
  }

  function FormatTraceparent(traceID: text, spanID: text): text {
    "00-" + traceID + "-" + spanID + "-01"
  }

  /** header is four dash-free fields joined by dashes, with these IDs in the
      middle. */
  ghost predicate FieldsAre(header: text, version: text, traceID: text, spanID: text, flags: text) {
    && header == Join([version, traceID, spanID, flags], '-')
    && Free(version, '-') && Free(flags, '-')
  }

  lemma LowerHexFree(s: text)
    requires IsLowerHex(s)
    ensures Free(s, '-')
  {
    IsLowerHexMeans(s);
  }

  lemma AcceptFields(header: text, version: text, traceID: text, spanID: text, flags: text)
    requires ValidIds(traceID, spanID) && FieldsAre(header, version, traceID, spanID, flags)
    ensures ParseTraceparent(header) == Accepted(traceID, spanID)
  {
    LowerHexFree(traceID);
    LowerHexFree(spanID);
    SplitMeaning(header, '-', [version, traceID, spanID, flags]);
  }

  /** A header is accepted exactly when it has four fields and valid IDs in the
      middle two; version and flags may be anything. */
  lemma ParseMeans(header: text, traceID: text, spanID: text)
    ensures ParseTraceparent(header) == Accepted(traceID, spanID)
       <==> ValidIds(traceID, spanID) && exists version, flags :: FieldsAre(header, version, traceID, spanID, flags)
  {
    var parts := Split(header, '-');
    if ParseTraceparent(header) == Accepted(traceID, spanID) {
      SplitMeaning(header, '-', parts);
      assert parts == [parts[0], traceID, spanID, parts[3]];
      assert FieldsAre(header, parts[0], traceID, spanID, parts[3]);
    }
    if ValidIds(traceID, spanID) && exists version, flags :: FieldsAre(header, version, traceID, spanID, flags) {
      var version, flags :| FieldsAre(header, version, traceID, spanID, flags);
      AcceptFields(header, version, traceID, spanID, flags);
    }
  }

  lemma JoinFour(a: text, b: text, d: text, e: text, c: byte)
    ensures Join([a, b, d, e], c) == a + [c] + b + [c] + d + [c] + e
  {
    assert [a, b, d, e][1..] == [b, d, e];
    assert [b, d, e][1..] == [d, e];
    assert [d, e][1..] == [e];
    assert Join([d, e], c) == d + [c] + e;
    assert Join([b, d, e], c) == b + [c] + (d + [c] + e);
    assert a + [c] + (b + [c] + (d + [c] + e)) == a + [c] + b + [c] + d + [c] + e;
  }

  /** Parsing undoes formatting exactly for valid IDs. */
  lemma FormatParse(traceID: text, spanID: text)
    ensures ParseTraceparent(FormatTraceparent(traceID, spanID)) == Accepted(traceID, spanID)
       <==> ValidIds(traceID, spanID)
  {
    if ValidIds(traceID, spanID) {
      JoinFour("00", traceID, spanID, "01", '-');
      assert FormatTraceparent(traceID, spanID) == "00" + ['-'] + traceID + ['-'] + spanID + ['-'] + "01";
      AcceptFields(FormatTraceparent(traceID, spanID), "00", traceID, spanID, "01");
    }
  }

  // ---- Generated IDs ----

  const HEX_DIGITS: text := "0123456789abcdef"

  /** Two lower-case digits for every byte. */
  function Hex(b: text): (s: text)
    ensures |s| == 2 * |b|
  {
    if b == [] then []
    else
      var c := b[|b| - 1] as int;
      Hex(b[..|b| - 1]) + [HEX_DIGITS[c / 16], HEX_DIGITS[c % 16]]
  }

  predicate AllZero(b: text) {
    forall i :: 0 <= i < |b| ==> b[i] == '\0'
  }

  lemma DigitIsLower(n: int)
    requires 0 <= n < 16
    ensures LowerHexDigit(HEX_DIGITS[n]) && (HEX_DIGITS[n] == '0' <==> n == 0)
    ensures HexValue(HEX_DIGITS[n]) == n
  {
    assert HEX_DIGITS[..10] == "0123456789" && HEX_DIGITS[10..] == "abcdef";
  }

  lemma {:induction false} HexIsLower(b: text)
    ensures forall i :: 0 <= i < |Hex(b)| ==> LowerHexDigit(Hex(b)[i])
  {
    if b != [] {
      HexIsLower(b[..|b| - 1]);
      DigitIsLower(b[|b| - 1] as int / 16);
      DigitIsLower(b[|b| - 1] as int % 16);
    }
  }

  predicate AllDigitsZero(s: text) {
    forall i :: 0 <= i < |s| ==> s[i] == '0'
  }

  lemma ZerosAre()
    ensures AllDigitsZero(ZERO_TRACE) && |ZERO_TRACE| == 32
    ensures AllDigitsZero(ZERO_SPAN) && |ZERO_SPAN| == 16
  {
  }

  lemma IsAllZeros(s: text, zeros: text)
    requires |s| == |zeros| && AllDigitsZero(zeros)
    ensures s == zeros <==> AllDigitsZero(s)
  {
  }

  /** Only zero bytes give nothing but zeros. */
  lemma {:induction false} HexIsZero(b: text)
    ensures AllDigitsZero(Hex(b)) <==> AllZero(b)
  {
    if b != [] {
      var init, c := b[..|b| - 1], b[|b| - 1] as int;
      HexIsZero(init);
      DigitIsLower(c / 16);
      DigitIsLower(c % 16);
      assert Hex(b)[|Hex(b)| - 2] == HEX_DIGITS[c / 16] && Hex(b)[|Hex(b)| - 1] == HEX_DIGITS[c % 16];
      assert forall i :: 0 <= i < |Hex(init)| ==> Hex(b)[i] == Hex(init)[i];
      assert forall i :: 0 <= i < |init| ==> b[i] == init[i];
      assert c == 0 <==> b[|b| - 1] == '\0';
    }
  }

  lemma ZeroHex(b: text, zeros: text)
    requires |zeros| == 2 * |b| && AllDigitsZero(zeros)
    ensures Hex(b) == zeros <==> AllZero(b)
  {
    HexIsZero(b);
    IsAllZeros(Hex(b), zeros);
  }

  lemma HexIds(t: text, s: text)
    requires |t| == 16 && |s| == 8
    ensures ValidIds(Hex(t), Hex(s)) <==> !AllZero(t) && !AllZero(s)
  {
    HexIsLower(t);
    HexIsLower(s);
    IsLowerHexMeans(Hex(t));
    IsLowerHexMeans(Hex(s));
    ZerosAre();
    ZeroHex(t, ZERO_TRACE);
    ZeroHex(s, ZERO_SPAN);
  }

  /** Every 16 and 8 bytes in hexadecimal are accepted as the IDs of a trace and
      a span, whatever the version and the flags, unless all of them are zero. */
  lemma GeneratedAccepted(version: text, t: text, s: text, flags: text)
    requires |t| == 16 && |s| == 8 && '-' !in version && '-' !in flags
    ensures ParseTraceparent(version + "-" + Hex(t) + "-" + Hex(s) + "-" + flags)
         == if AllZero(t) || AllZero(s) then Rejected else Accepted(Hex(t), Hex(s))
  {
    var header := version + "-" + Hex(t) + "-" + Hex(s) + "-" + flags;
    HexIds(t, s);
    HexIsLower(t);
    HexIsLower(s);
    JoinFour(version, Hex(t), Hex(s), flags, '-');
    SplitMeaning(header, '-', [version, Hex(t), Hex(s), flags]);
  }

  lemma DigitOf(c: byte)
    requires LowerHexDigit(c)
    ensures HEX_DIGITS[HexValue(c)] == c
  {
    assert HEX_DIGITS[..10] == "0123456789" && HEX_DIGITS[10..] == "abcdef";
  }

  lemma HexSnoc(init: text, a: byte, b: byte)
    requires LowerHexDigit(a) && LowerHexDigit(b)
    ensures Hex(init + [ByteOf(HexValue(a) * 16 + HexValue(b))]) == Hex(init) + [a, b]
  {
    DigitOf(a);
    DigitOf(b);
    var c := ByteOf(HexValue(a) * 16 + HexValue(b));
    assert (init + [c])[..|init|] == init;
    assert c as int / 16 == HexValue(a) && c as int % 16 == HexValue(b);
  }

  lemma LastTwo(s: text)
    requires |s| >= 2
    ensures s[..|s| - 2] + [s[|s| - 2], s[|s| - 1]] == s
  {
  }

  /** Lower-case digits stand for some bytes. */
  lemma {:induction false} HexOnto(s: text) returns (b: text)
    requires |s| % 2 == 0 && forall i :: 0 <= i < |s| ==> LowerHexDigit(s[i])
    ensures Hex(b) == s && 2 * |b| == |s|
  {
    if s == [] {
      b := [];
    } else {
      var x, y := s[|s| - 2], s[|s| - 1];
      var init := HexOnto(s[..|s| - 2]);
      b := init + [ByteOf(HexValue(x) * 16 + HexValue(y))];
      HexSnoc(init, x, y);
      LastTwo(s);
    }
  }

  ghost predicate HeaderOf(header: text, version: text, t: text, s: text, flags: text) {
    && |t| == 16 && |s| == 8 && !AllZero(t) && !AllZero(s) && '-' !in version && '-' !in flags
    && header == version + "-" + Hex(t) + "-" + Hex(s) + "-" + flags
  }

  /** Nothing else is accepted. */
  lemma AcceptedOnly(header: text) returns (version: text, t: text, s: text, flags: text)
    requires ParseTraceparent(header).Accepted?
    ensures HeaderOf(header, version, t, s, flags)
    ensures ParseTraceparent(header) == Accepted(Hex(t), Hex(s))
  {
    var Accepted(traceID, spanID) := ParseTraceparent(header);
    ParseMeans(header, traceID, spanID);
    version, flags :| FieldsAre(header, version, traceID, spanID, flags);
    IsLowerHexMeans(traceID);
    IsLowerHexMeans(spanID);
    t := HexOnto(traceID);
    s := HexOnto(spanID);
    HexIds(t, s);
    JoinFour(version, traceID, spanID, flags, '-');
  }

  /** The header of a generated span, and what is read from it. */
  lemma FormatGenerated(t: text, s: text)
    requires |t| == 16 && |s| == 8 && !AllZero(t) && !AllZero(s)
    ensures FormatTraceparent(Hex(t), Hex(s)) == "00-" + Hex(t) + "-" + Hex(s) + "-01"
    ensures ParseTraceparent(FormatTraceparent(Hex(t), Hex(s))) == Accepted(Hex(t), Hex(s))
  {
    HexIds(t, s);
    FormatParse(Hex(t), Hex(s));
  }
}
