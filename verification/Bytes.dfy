/** Bytes and byte strings. A Go string and a Go []byte are both sequences of
    bytes; a byte is a character below 256, so that text can be written as a
    literal. */
module Bytes {

  type byte = c: char | c as int < 256 witness '0'

  type text = seq<byte>

  const NUL: byte := '\0'

  predicate Distinct(ids: seq<text>) {
    forall i, j :: 0 <= i < j < |ids| ==> ids[i] != ids[j]
  }

  function ByteOf(n: int): (b: byte)
    requires 0 <= n < 256
    ensures b as int == n
  {
    n as char
  }

  /** The big-endian unsigned 32-bit value of four bytes. */
  function U32(s: text): (n: int)
    requires |s| == 4
    ensures 0 <= n < 0x1_0000_0000
  {
    ((s[0] as int * 256 + s[1] as int) * 256 + s[2] as int) * 256 + s[3] as int
  }

  /** The four big-endian bytes of the low 32 bits of n. */
  function PutU32(n: nat): (s: text)
    ensures |s| == 4
    ensures U32(s) == n % 0x1_0000_0000
  {
    var m := n % 0x1_0000_0000;
    var m1 := m / 256;
    var m2 := m1 / 256;
    [ByteOf(m2 / 256), ByteOf(m2 % 256), ByteOf(m1 % 256), ByteOf(m % 256)]
  }

  lemma DigitUnique(high: int, low: byte, high': int, low': byte)
    requires high * 256 + low as int == high' * 256 + low' as int
    ensures high == high' && low == low'
  {
    assert low as int == low' as int;
    assert low == low as int as char;
    assert low' == low' as int as char;
  }

  /** The first byte that differs decides: numeric order is the order of the
      bytes as they stand. With the range this leaves U32 no choice. */
  lemma U32Order(s: text, t: text, k: nat)
    requires |s| == |t| == 4 && k < 4
    requires s[..k] == t[..k] && s[k] < t[k]
    ensures U32(s) < U32(t)
  {
    assert forall i :: 0 <= i < k ==> s[i] == s[..k][i] == t[..k][i] == t[i];
  }

  lemma U32Injective(s: text, t: text)
    requires |s| == |t| == 4 && U32(s) == U32(t)
    ensures s == t
  {
    var s2, t2 := s[0] as int * 256 + s[1] as int, t[0] as int * 256 + t[1] as int;
    DigitUnique(s2 * 256 + s[2] as int, s[3], t2 * 256 + t[2] as int, t[3]);
    DigitUnique(s2, s[2], t2, t[2]);
    DigitUnique(s[0] as int, s[1], t[0] as int, t[1]);
  }

  /** Writing a value that was read gives its bytes back. */
  lemma PutWhatIsRead(s: text, n: nat)
    requires |s| == 4 && n == U32(s)
    ensures PutU32(n) == s
  {
    U32Injective(PutU32(n), s);
  }
}
