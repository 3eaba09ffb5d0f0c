/** Percent-encoding of query components, with '+' for a space. */
module Percent {
  import opened Bytes

  datatype Unescaped = Bad | Good(value: text)

  predicate IsAlnum(c: byte) {
    '0' <= c <= '9' || 'A' <= c <= 'Z' || 'a' <= c <= 'z'
  }

  predicate Unreserved(c: byte) {
    IsAlnum(c) || c in "-_.~"
  }

  predicate IsHex(c: byte) {
    '0' <= c <= '9' || 'A' <= c <= 'F' || 'a' <= c <= 'f'
  }

  function HexDigit(n: int): (c: byte)
    requires 0 <= n < 16
    ensures IsHex(c) && IsAlnum(c) && HexValue(c) == n
  {
    if n < 10 then ByteOf('0' as int + n) else ByteOf('A' as int + (n - 10))
  }

  function HexValue(c: byte): (n: int)
    requires IsHex(c)
    ensures 0 <= n < 16
  {
    if c <= '9' then c as int - '0' as int
    else if c <= 'F' then c as int - 'A' as int + 10
    else c as int - 'a' as int + 10
  }

  function EscapeByte(c: byte): text {
    if Unreserved(c) then [c]
    else if c == ' ' then "+"
    else ['%', HexDigit(c as int / 16), HexDigit(c as int % 16)]
  }

  function QueryEscape(s: text): text {
    if s == [] then [] else EscapeByte(s[0]) + QueryEscape(s[1..])
  }

  function Prepend(c: byte, rest: Unescaped): Unescaped {
    match rest
    case Bad => Bad
    case Good(value) => Good([c] + value)
  }

  function QueryUnescape(s: text): Unescaped {
    if s == [] then Good([])
    else if s[0] == '%' then
      if |s| >= 3 && IsHex(s[1]) && IsHex(s[2]) then
        Prepend(ByteOf(HexValue(s[1]) * 16 + HexValue(s[2])), QueryUnescape(s[3..]))
      else Bad
    else Prepend(if s[0] == '+' then ' ' else s[0], QueryUnescape(s[1..]))
  }

  lemma UnescapeOne(c: byte, rest: text)
    ensures QueryUnescape(EscapeByte(c) + rest) == Prepend(c, QueryUnescape(rest))
  {
    var s := EscapeByte(c) + rest;
    if Unreserved(c) || c == ' ' {
      assert s[1..] == rest;
    } else {
      assert s[0] == '%' && s[3..] == rest;
      assert HexValue(s[1]) * 16 + HexValue(s[2]) == c as int;
      assert ByteOf(c as int) == c;
    }
  }

  /** Decoding undoes encoding, for every byte string. */
  lemma {:induction false} UnescapeEscape(s: text)
    ensures QueryUnescape(QueryEscape(s)) == Good(s)
  {
    if s != [] {
      UnescapeEscape(s[1..]);
      UnescapeOne(s[0], QueryEscape(s[1..]));
      assert [s[0]] + s[1..] == s;
    }
  }

  /** A percent sign at i that two hexadecimal digits do not follow. */
  predicate BrokenAt(s: text, i: nat) {
    i < |s| && s[i] == '%' && !(i + 2 < |s| && IsHex(s[i + 1]) && IsHex(s[i + 2]))
  }

  lemma BrokenLater(s: text, k: nat)
    requires k <= |s| && forall i: nat :: i < k ==> !BrokenAt(s, i)
    ensures (exists i: nat :: BrokenAt(s, i)) <==> exists i: nat :: BrokenAt(s[k..], i)
  {
    if i: nat :| BrokenAt(s, i) {
      assert BrokenAt(s[k..], i - k);
    }
    if i: nat :| BrokenAt(s[k..], i) {
      assert BrokenAt(s, i + k);
    }
  }

  /** Decoding fails exactly when some percent sign is not the start of an
      escape. */
  lemma {:induction false} UnescapeFails(s: text)
    ensures QueryUnescape(s) == Bad <==> exists i: nat :: BrokenAt(s, i)
    decreases |s|
  {
    if s != [] {
      var k := if s[0] == '%' then 3 else 1;
      if BrokenAt(s, 0) {
        assert QueryUnescape(s) == Bad;
      } else {
        BrokenLater(s, k);
        UnescapeFails(s[k..]);
      }
    }
  }

  /** The bytes that encoded text is made of. */
  predicate EscapedByte(c: byte) {
    Unreserved(c) || c == '%' || c == '+'
  }

  lemma {:induction false} EscapedBytes(s: text)
    ensures forall i :: 0 <= i < |QueryEscape(s)| ==> EscapedByte(QueryEscape(s)[i])
    ensures s != [] ==> QueryEscape(s) != []
  {
    if s != [] {
      EscapedBytes(s[1..]);
    }
  }

  const UPPER_DIGITS: text := "0123456789ABCDEF"
  const LOWER_DIGITS: text := "0123456789abcdef"

  lemma UpperDigit(n: int)
    requires 0 <= n < 16
    ensures HexDigit(n) == UPPER_DIGITS[n]
  {
    assert UPPER_DIGITS[..10] == "0123456789" && UPPER_DIGITS[10..] == "ABCDEF";
  }

  lemma DigitValues(n: int)
    requires 0 <= n < 16
    ensures IsHex(UPPER_DIGITS[n]) && HexValue(UPPER_DIGITS[n]) == n
    ensures IsHex(LOWER_DIGITS[n]) && HexValue(LOWER_DIGITS[n]) == n
  {
    assert UPPER_DIGITS[..10] == "0123456789" && UPPER_DIGITS[10..] == "ABCDEF";
    assert LOWER_DIGITS[..10] == "0123456789" && LOWER_DIGITS[10..] == "abcdef";
  }

  lemma UnescapeDigits(c: byte, x: byte, y: byte, rest: text)
    requires IsHex(x) && IsHex(y) && HexValue(x) == c as int / 16 && HexValue(y) == c as int % 16
    ensures QueryUnescape(['%', x, y] + rest) == Prepend(c, QueryUnescape(rest))
  {
    ThreeBytes('%', x, y, rest);
    assert ByteOf(c as int) == c;
  }

  /** A byte in upper-case or lower-case digits is read as that byte, a plus sign
      as a space, and anything else but a percent sign as itself. */
  lemma UnescapeMeans(c: byte, rest: text)
    ensures QueryUnescape(['%', UPPER_DIGITS[c as int / 16], UPPER_DIGITS[c as int % 16]] + rest)
         == Prepend(c, QueryUnescape(rest))
    ensures QueryUnescape(['%', LOWER_DIGITS[c as int / 16], LOWER_DIGITS[c as int % 16]] + rest)
         == Prepend(c, QueryUnescape(rest))
    ensures c != '%' ==> QueryUnescape([c] + rest) == Prepend(if c == '+' then ' ' else c, QueryUnescape(rest))
  {
    var high, low := c as int / 16, c as int % 16;
    DigitValues(high);
    DigitValues(low);
    UnescapeDigits(c, UPPER_DIGITS[high], UPPER_DIGITS[low], rest);
    UnescapeDigits(c, LOWER_DIGITS[high], LOWER_DIGITS[low], rest);
    assert ([c] + rest)[1..] == rest;
  }

  lemma ThreeBytes(x: byte, y: byte, z: byte, rest: text)
    ensures var s := [x, y, z] + rest; s[0] == x && s[1] == y && s[2] == z && s[3..] == rest
  {
  }

  /** Unreserved bytes stay, a space becomes a plus sign, and the others a
      percent sign and two upper-case digits. */
  lemma EscapeMeans(c: byte, rest: text)
    ensures QueryEscape([c] + rest)
         == (if 'A' <= c <= 'Z' || 'a' <= c <= 'z' || '0' <= c <= '9' || c == '-' || c == '_' || c == '.' || c == '~'
             then [c]
             else if c == ' ' then "+"
             else ['%', UPPER_DIGITS[c as int / 16], UPPER_DIGITS[c as int % 16]]) + QueryEscape(rest)
  {
    UpperDigit(c as int / 16);
    UpperDigit(c as int % 16);
    assert ([c] + rest)[1..] == rest;
  }

  /** Text of unreserved bytes stays as it is. */
  lemma {:induction false} EscapePlain(s: text)
    requires forall i :: 0 <= i < |s| ==> Unreserved(s[i])
    ensures QueryEscape(s) == s
  {
    if s != [] {
      EscapePlain(s[1..]);
      assert [s[0]] + s[1..] == s;
    }
  }
}
