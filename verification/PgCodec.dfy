/** Messages of the PostgreSQL Frontend/Backend Protocol 3.0 ("Message
    Formats"): a type byte, a 32-bit length that counts itself and the payload,
    and the payload. */
module PgCodec {
  import opened Bytes

  const MAX_MESSAGE_SIZE := 64 * 1024 * 1024

  datatype Msg = Msg(kind: byte, payload: text)

  /** What reading one message from the front of a byte stream comes to. */
  datatype Decoded =
    | Incomplete               // the stream ends inside the message
    | BadLength                // the announced length is below 4 or too large
    | Frame(msg: Msg, rest: text)

  /** Messages that readPGMessage can deliver. */
  predicate Sized(m: Msg) {
    |m.payload| + 4 <= MAX_MESSAGE_SIZE
  }

  predicate AllSized(ms: seq<Msg>) {
    forall i :: 0 <= i < |ms| ==> Sized(ms[i])
  }

  function Header(m: Msg): (h: text)
    ensures |h| == 5
  {
    [m.kind] + PutU32(|m.payload| + 4)
  }

  function Encode(m: Msg): (s: text)
    ensures |s| == 5 + |m.payload|
  {
    Header(m) + m.payload
  }

  function Decode(s: text): (d: Decoded)
    ensures d.Frame? ==> Sized(d.msg) && |d.rest| < |s|
  {
    if |s| < 5 then Incomplete else
    var length := U32(s[1..5]);
    if length < 4 || length > MAX_MESSAGE_SIZE then BadLength
    else if |s| < 1 + length then Incomplete
    else Frame(Msg(s[0], s[5..1 + length]), s[1 + length..])
  }

  function EncodeAll(ms: seq<Msg>): text {
    if ms == [] then [] else EncodeAll(ms[..|ms| - 1]) + Encode(ms[|ms| - 1])
  }

  /** The complete messages at the front of a byte stream. */
  function ParseAll(s: text): (ms: seq<Msg>)
    decreases |s|
  {
    match Decode(s)
    case Frame(m, rest) => [m] + ParseAll(rest)
    case _ => []
  }

  /** The length field in any extension of an encoded message's header. */
  lemma LengthField(m: Msg, s: text)
    requires Header(m) <= s
    requires Sized(m)
    ensures U32(s[1..5]) == |m.payload| + 4
  {
    assert s[1..5] == PutU32(|m.payload| + 4);
  }

  /** A message byte by byte: the length, most significant byte first, counts
      itself and the payload, and is at least 4 and at most 64 MiB. */
  lemma DecodeBytes(kind: byte, length: text, n: nat, tail: text)
    requires |length| == 4
    requires n == length[0] as int * 0x100_0000 + length[1] as int * 0x1_0000
                  + length[2] as int * 0x100 + length[3] as int
    ensures Decode([kind] + length + tail) ==
            if n < 4 || n > 67_108_864 then BadLength
            else if |tail| < n - 4 then Incomplete
            else Frame(Msg(kind, tail[..n - 4]), tail[n - 4..])
  {
    var s := [kind] + length + tail;
    assert s[1..5] == length;
    assert s[5..] == tail;
    if 4 <= n <= 67_108_864 && |tail| >= n - 4 {
      assert s[5..1 + n] == tail[..n - 4] && s[1 + n..] == tail[n - 4..];
    }
  }

  /** The same bytes are what is written. */
  lemma EncodeBytes(m: Msg, length: text)
    requires |length| == 4
    requires length[0] as int * 0x100_0000 + length[1] as int * 0x1_0000 + length[2] as int * 0x100 + length[3] as int
          == |m.payload| + 4
    ensures Encode(m) == [m.kind] + length + m.payload
  {
    PutWhatIsRead(length, |m.payload| + 4);
  }

  /** A query as it stands on the wire. */
  lemma QueryFrame(rest: text)
    ensures Decode(['Q', '\0', '\0', '\0', '\r'] + "SELECT 1" + ['\0'] + rest)
         == Frame(Msg('Q', "SELECT 1" + ['\0']), rest)
  {
    var tail := "SELECT 1" + ['\0'] + rest;
    DecodeBytes('Q', ['\0', '\0', '\0', '\r'], 13, tail);
    assert ['Q'] + ['\0', '\0', '\0', '\r'] + tail
        == ['Q', '\0', '\0', '\0', '\r'] + "SELECT 1" + ['\0'] + rest;
    assert tail[..9] == "SELECT 1" + ['\0'] && tail[9..] == rest;
  }

  /** What is read from a stream is what was written to it ... */
  lemma DecodeEncode(m: Msg, rest: text)
    requires Sized(m)
    ensures Decode(Encode(m) + rest) == Frame(m, rest)
  {
    var s := Encode(m) + rest;
    LengthField(m, s);
    assert s[5..5 + |m.payload|] == m.payload;
    assert s[5 + |m.payload|..] == rest;
  }

  /** ... and re-encoding what was read restores the stream byte for byte. */
  lemma EncodeDecode(s: text)
    requires Decode(s).Frame?
    ensures Encode(Decode(s).msg) + Decode(s).rest == s
  {
    var Frame(m, rest) := Decode(s);
    U32Injective(s[1..5], PutU32(|m.payload| + 4));
    assert Header(m) == s[..5];
    assert s == s[..5] + m.payload + rest;
  }

  /** A message stays readable, and stays the same, when more bytes arrive. */
  lemma DecodeExtend(s: text, more: text)
    requires Decode(s).Frame?
    ensures Decode(s + more) == Frame(Decode(s).msg, Decode(s).rest + more)
  {
    EncodeDecode(s);
    var Frame(m, rest) := Decode(s);
    assert Encode(m) + (rest + more) == s + more;
    DecodeEncode(m, rest + more);
  }

  /** A message cut short is not readable. */
  lemma DecodePartial(m: Msg, part: text)
    requires Sized(m) && part <= Encode(m) && part != Encode(m)
    ensures Decode(part) == Incomplete
  {
    if |part| >= 5 {
      assert Header(m) <= part;
      LengthField(m, part);
    }
  }

  lemma Assoc<T>(a: seq<T>, b: seq<T>, c: seq<T>)
    ensures (a + b) + c == a + (b + c)
  {
  }

  lemma EncodeAllSnoc(ms: seq<Msg>, m: Msg)
    ensures EncodeAll(ms + [m]) == EncodeAll(ms) + Encode(m)
  {
    assert (ms + [m])[..|ms|] == ms;
  }

  lemma {:induction false} EncodeAllConcat(a: seq<Msg>, b: seq<Msg>)
    ensures EncodeAll(a + b) == EncodeAll(a) + EncodeAll(b)
  {
    if b == [] {
      assert a + b == a;
    } else {
      var init, last := b[..|b| - 1], b[|b| - 1];
      assert a + b == (a + init) + [last];
      EncodeAllSnoc(a + init, last);
      EncodeAllConcat(a, init);
      Assoc(EncodeAll(a), EncodeAll(init), Encode(last));
    }
  }

  lemma ParseOne(m: Msg, tail: text)
    requires Sized(m)
    ensures ParseAll(Encode(m) + tail) == [m] + ParseAll(tail)
  {
    DecodeEncode(m, tail);
  }

  /** Parsing undoes encoding, whatever follows. */
  lemma {:induction false} ParseEncodeAll(ms: seq<Msg>, tail: text)
    requires AllSized(ms)
    ensures ParseAll(EncodeAll(ms) + tail) == ms + ParseAll(tail)
  {
    if ms == [] {
      assert EncodeAll(ms) + tail == tail;
    } else {
      var init, m := ms[..|ms| - 1], ms[|ms| - 1];
      assert ms == init + [m];
      Assoc(EncodeAll(init), Encode(m), tail);
      ParseEncodeAll(init, Encode(m) + tail);
      ParseOne(m, tail);
      Assoc(init, [m], ParseAll(tail));
    }
  }

  lemma ParsePartial(ms: seq<Msg>, m: Msg, part: text)
    requires AllSized(ms) && Sized(m) && part <= Encode(m) && part != Encode(m)
    ensures ParseAll(EncodeAll(ms) + part) == ms
  {
    ParseEncodeAll(ms, part);
    DecodePartial(m, part);
  }

  /** More bytes only add messages at the end. */
  lemma {:induction false} ParseExtend(s: text, more: text)
    ensures ParseAll(s) <= ParseAll(s + more)
    decreases |s|
  {
    if Decode(s).Frame? {
      DecodeExtend(s, more);
      ParseExtend(Decode(s).rest, more);
    }
  }

  function CountKind(ms: seq<Msg>, kind: byte): nat {
    if ms == [] then 0
    else CountKind(ms[..|ms| - 1], kind) + if ms[|ms| - 1].kind == kind then 1 else 0
  }

  lemma {:induction false} CountKindPrefix(a: seq<Msg>, b: seq<Msg>, kind: byte)
    requires a <= b
    ensures CountKind(a, kind) <= CountKind(b, kind)
    decreases |b|
  {
    if a != b {
      CountKindPrefix(a, b[..|b| - 1], kind);
    } 
  }
}
