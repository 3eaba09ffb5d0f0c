/** The operations on byte strings that the text formats are built from. */
module Strings {
  import opened Bytes

  // ---- Searching ----

  predicate MatchesAt(s: text, sub: text, i: int) {
    0 <= i && i + |sub| <= |s| && s[i..i + |sub|] == sub
  }

  lemma MatchesTwo(s: text, sub: text, i: int)
    requires |sub| == 2
    ensures MatchesAt(s, sub, i) <==> 0 <= i && i + 2 <= |s| && s[i] == sub[0] && s[i + 1] == sub[1]
  {
    if 0 <= i && i + 2 <= |s| {
      assert s[i..i + 2] == [s[i], s[i + 1]];
      assert sub == [sub[0], sub[1]];
    }
  }

  predicate HasSuffix(s: text, sub: text) {
    MatchesAt(s, sub, |s| - |sub|)
  }

  /** The last place below n where sub occurs, or -1. */
  function LastBefore(s: text, sub: text, n: nat): (i: int)
    ensures -1 <= i < n
    ensures i >= 0 ==> MatchesAt(s, sub, i)
    ensures forall j :: i < j < n ==> !MatchesAt(s, sub, j)
  {
    if n == 0 then -1 else if MatchesAt(s, sub, n - 1) then n - 1 else LastBefore(s, sub, n - 1)
  }

  function LastIndex(s: text, sub: text): (i: int)
    ensures i == -1 || MatchesAt(s, sub, i)
    ensures forall j :: i < j ==> !MatchesAt(s, sub, j)
  {
    LastBefore(s, sub, |s| + 1)
  }

  // ---- Splitting ----

  predicate Free(s: text, c: byte) {
    forall i :: 0 <= i < |s| ==> s[i] != c
  }

  ghost predicate AllFree(parts: seq<text>, c: byte) {
    forall i :: 0 <= i < |parts| ==> Free(parts[i], c)
  }

  function Split(s: text, c: byte): (parts: seq<text>)
    ensures parts != []
  {
    if s == [] then [[]]
    else if s[0] == c then [[]] + Split(s[1..], c)
    else
      var rest := Split(s[1..], c);
      [[s[0]] + rest[0]] + rest[1..]
  }

  function Join(parts: seq<text>, c: byte): text {
    if parts == [] then [] else if |parts| == 1 then parts[0] else parts[0] + [c] + Join(parts[1..], c)
  }

  lemma {:induction false} JoinSplit(s: text, c: byte)
    ensures Join(Split(s, c), c) == s && AllFree(Split(s, c), c)
  {
    if s != [] {
      var rest := Split(s[1..], c);
      JoinSplit(s[1..], c);
      if s[0] == c {
        assert ([[]] + rest)[1..] == rest;
        assert [] + [c] + s[1..] == s;
      } else {
        var parts := [[s[0]] + rest[0]] + rest[1..];
        assert parts[1..] == rest[1..];
        if |rest| > 1 {
          assert [s[0]] + rest[0] + [c] + Join(rest[1..], c) == [s[0]] + (rest[0] + [c] + Join(rest[1..], c));
        }
        assert [s[0]] + s[1..] == s;
      }
    }
  }

  lemma {:induction false} SplitFree(p: text, c: byte)
    requires Free(p, c)
    ensures Split(p, c) == [p]
  {
    if p != [] {
      SplitFree(p[1..], c);
      assert [p[0]] + p[1..] == p;
    }
  }

  lemma {:induction false} SplitFirst(p: text, c: byte, rest: text)
    requires Free(p, c)
    ensures Split(p + [c] + rest, c) == [p] + Split(rest, c)
  {
    var all := p + [c] + rest;
    if p == [] {
      assert all[1..] == rest;
    } else {
      SplitFirst(p[1..], c, rest);
      assert all[1..] == p[1..] + [c] + rest;
      assert [p[0]] + p[1..] == p;
    }
  }

  lemma {:induction false} SplitJoin(parts: seq<text>, c: byte)
    requires parts != [] && AllFree(parts, c)
    ensures Split(Join(parts, c), c) == parts
  {
    if |parts| == 1 {
      SplitFree(parts[0], c);
    } else {
      SplitJoin(parts[1..], c);
      SplitFirst(parts[0], c, Join(parts[1..], c));
      assert [parts[0]] + parts[1..] == parts;
    }
  }

  /** Splitting is the only way to write s as pieces without c joined by c. */
  lemma SplitMeaning(s: text, c: byte, parts: seq<text>)
    requires parts != []
    ensures Split(s, c) == parts <==> Join(parts, c) == s && AllFree(parts, c)
  {
    JoinSplit(s, c);
    if Join(parts, c) == s && AllFree(parts, c) {
      SplitJoin(parts, c);
    }
  }

  datatype CutResult = Whole | Parts(before: text, after: text)

  /** The text on either side of the first c. */
  function Cut(s: text, c: byte): (r: CutResult)
    ensures r.Whole? <==> Free(s, c)
    ensures r.Parts? ==> s == r.before + [c] + r.after && Free(r.before, c)
  {
    if s == [] then Whole
    else if s[0] == c then
      assert s == [] + [c] + s[1..];
      Parts([], s[1..])
    else
      match Cut(s[1..], c)
      case Whole =>
        Whole
      case Parts(before, after) =>
        assert s == [s[0]] + s[1..] == [s[0]] + before + [c] + after;
        Parts([s[0]] + before, after)
  }

  lemma {:induction false} CutUnique(before: text, c: byte, after: text)
    requires Free(before, c)
    ensures Cut(before + [c] + after, c) == Parts(before, after)
  {
    var s := before + [c] + after;
    if before == [] {
      assert s[1..] == after;
    } else {
      assert s[1..] == before[1..] + [c] + after;
      CutUnique(before[1..], c, after);
      assert [before[0]] + before[1..] == before;
    }
  }

  // ---- Trimming ----

  function TrimRight(s: text, cut: text): (r: text)
    ensures r <= s && (r != [] ==> r[|r| - 1] !in cut)
    ensures forall i :: |r| <= i < |s| ==> s[i] in cut
  {
    if s != [] && s[|s| - 1] in cut then TrimRight(s[..|s| - 1], cut) else s
  }

  function TrimLeft(s: text, cut: text): (r: text)
    ensures |r| <= |s| && r == s[|s| - |r|..] && (r != [] ==> r[0] !in cut)
    ensures forall i :: 0 <= i < |s| - |r| ==> s[i] in cut
  {
    if s != [] && s[0] in cut then TrimLeft(s[1..], cut) else s
  }

  lemma {:induction false} TrimLeftOf(a: text, b: text, cut: text)
    requires forall i :: 0 <= i < |a| ==> a[i] in cut
    requires b != [] && b[0] !in cut
    ensures TrimLeft(a + b, cut) == b
  {
    if a == [] {
      assert a + b == b;
    } else {
      assert (a + b)[1..] == a[1..] + b;
      TrimLeftOf(a[1..], b, cut);
    }
  }

  lemma {:induction false} TrimRightOf(a: text, b: text, cut: text)
    requires forall i :: 0 <= i < |b| ==> b[i] in cut
    requires a != [] && a[|a| - 1] !in cut
    ensures TrimRight(a + b, cut) == a
  {
    if b == [] {
      assert a + b == a;
    } else {
      var init := b[..|b| - 1];
      assert (a + b)[..|a + b| - 1] == a + init;
      TrimRightOf(a, init, cut);
    }
  }

  function Trim(s: text, cut: text): text {
    TrimRight(TrimLeft(s, cut), cut)
  }

  // ---- White space, as Unicode defines it, in UTF-8 ----

  predicate Space1(a: byte) {
    a == ' ' || '\t' <= a <= '\r'
  }

  predicate Space2(a: byte, b: byte) {
    a as int == 0xC2 && (b as int == 0x85 || b as int == 0xA0)
  }

  predicate Space3(a: byte, b: byte, c: byte) {
    var (x, y, z) := (a as int, b as int, c as int);
    || (x == 0xE1 && y == 0x9A && z == 0x80)
    || (x == 0xE2 && y == 0x80 && (0x80 <= z <= 0x8A || z == 0xA8 || z == 0xA9 || z == 0xAF))
    || (x == 0xE2 && y == 0x81 && z == 0x9F)
    || (x == 0xE3 && y == 0x80 && z == 0x80)
  }

  /** The length of the white-space character of s between i and j that starts
      at i, or 0. */
  function SpaceAt(s: text, i: nat, j: nat): (n: nat)
    requires i <= j <= |s|
    ensures i + n <= j
  {
    if i + 1 <= j && Space1(s[i]) then 1
    else if i + 2 <= j && Space2(s[i], s[i + 1]) then 2
    else if i + 3 <= j && Space3(s[i], s[i + 1], s[i + 2]) then 3
    else 0
  }

  /** The same for the one that ends at j. */
  function SpaceBefore(s: text, i: nat, j: nat): (n: nat)
    requires i <= j <= |s|
    ensures i + n <= j
  {
    if i + 1 <= j && Space1(s[j - 1]) then 1
    else if i + 2 <= j && Space2(s[j - 2], s[j - 1]) then 2
    else if i + 3 <= j && Space3(s[j - 3], s[j - 2], s[j - 1]) then 3
    else 0
  }

  /** Where the white space that starts at i ends. */
  function SpaceEnd(s: text, i: nat): (k: nat)
    requires i <= |s|
    ensures i <= k <= |s| && SpaceAt(s, k, |s|) == 0
    decreases |s| - i
  {
    var n := SpaceAt(s, i, |s|);
    if n == 0 then i else SpaceEnd(s, i + n)
  }

  /** Where the white space that ends at j, and does not reach before i, starts. */
  function SpaceStart(s: text, i: nat, j: nat): (k: nat)
    requires i <= j <= |s|
    ensures i <= k <= j && SpaceBefore(s, i, k) == 0
    decreases j
  {
    var n := SpaceBefore(s, i, j);
    if n == 0 then j else SpaceStart(s, i, j - n)
  }

  function TrimSpace(s: text): text {
    var i := SpaceEnd(s, 0);
    s[i..SpaceStart(s, i, |s|)]
  }

  /** s from i to j is made of white-space characters. */
  predicate AllSpace(s: text, i: nat, j: nat)
    requires i <= j <= |s|
    decreases j - i
  {
    i == j || (SpaceAt(s, i, j) > 0 && AllSpace(s, i + SpaceAt(s, i, j), j))
  }

  lemma {:induction false} AllSpaceConcat(s: text, i: nat, k: nat, j: nat)
    requires i <= k <= j <= |s| && AllSpace(s, i, k) && AllSpace(s, k, j)
    ensures AllSpace(s, i, j)
    decreases k - i
  {
    if i < k {
      AllSpaceConcat(s, i + SpaceAt(s, i, k), k, j);
    }
  }

  lemma {:induction false} EndIsSpace(s: text, i: nat)
    requires i <= |s|
    ensures AllSpace(s, i, SpaceEnd(s, i))
    decreases |s| - i
  {
    var n := SpaceAt(s, i, |s|);
    if n > 0 {
      EndIsSpace(s, i + n);
    }
  }

  lemma {:induction false} StartIsSpace(s: text, i: nat, j: nat)
    requires i <= j <= |s|
    ensures AllSpace(s, SpaceStart(s, i, j), j)
    decreases j
  {
    var n := SpaceBefore(s, i, j);
    if n > 0 {
      StartIsSpace(s, i, j - n);
      assert SpaceAt(s, j - n, j) == n;
      AllSpaceConcat(s, SpaceStart(s, i, j - n), j - n, j);
    }
  }

  /** A slice starts with white space only if the text does there, and ends with
      it exactly if the text before its end does. */
  lemma SliceSpace(s: text, i: nat, j: nat)
    requires i <= j <= |s|
    ensures SpaceAt(s, i, |s|) == 0 ==> SpaceAt(s[i..j], 0, j - i) == 0
    ensures SpaceBefore(s[i..j], 0, j - i) == SpaceBefore(s, i, j)
  {
    var t := s[i..j];
    assert forall k :: 0 <= k < |t| ==> t[k] == s[i + k];
  }

  /** What is left neither starts nor ends with white space, and only white
      space was taken off. */
  lemma TrimSpaceTrims(s: text) returns (i: nat, j: nat)
    ensures i <= j <= |s| && TrimSpace(s) == s[i..j]
    ensures SpaceAt(TrimSpace(s), 0, j - i) == 0 && SpaceBefore(TrimSpace(s), 0, j - i) == 0
    ensures AllSpace(s, 0, i) && AllSpace(s, j, |s|)
  {
    i := SpaceEnd(s, 0);
    j := SpaceStart(s, i, |s|);
    EndIsSpace(s, 0);
    StartIsSpace(s, i, |s|);
    SliceSpace(s, i, j);
  }

  /** A byte below 128 that is not white space. */
  predicate Solid(c: byte) {
    32 < c as int < 128
  }

  lemma TrimSpaceNothing(s: text)
    requires s != [] && Solid(s[0]) && Solid(s[|s| - 1])
    ensures TrimSpace(s) == s
  {
    assert SpaceAt(s, 0, |s|) == 0;
    assert SpaceBefore(s, 0, |s|) == 0;
    assert s[0..|s|] == s;
  }

  // ---- The same characters by their code points ----

  /** The code points that Unicode counts as white space. */
  predicate White(cp: int) {
    || 0x9 <= cp <= 0xD || cp == 0x20 || cp == 0x85 || cp == 0xA0 || cp == 0x1680 || 0x2000 <= cp <= 0x200A
    || cp == 0x2028 || cp == 0x2029 || cp == 0x202F || cp == 0x205F || cp == 0x3000
  }

  /** UTF-8, for code points of up to three bytes (RFC 3629, section 3). */
  function Utf8(cp: int): (s: text)
    requires 0 <= cp < 0x1_0000
    ensures 1 <= |s| <= 3
  {
    if cp < 0x80 then [ByteOf(cp)]
    else if cp < 0x800 then [ByteOf(0xC0 + cp / 64), ByteOf(0x80 + cp % 64)]
    else [ByteOf(0xE0 + cp / 4096), ByteOf(0x80 + cp / 64 % 64), ByteOf(0x80 + cp % 64)]
  }

  ghost predicate StartsWhite(s: text, cp: int) {
    0 <= cp < 0x1_0000 && White(cp) && Utf8(cp) <= s
  }

  lemma WhiteStarts(s: text, cp: int)
    requires StartsWhite(s, cp)
    ensures SpaceAt(s, 0, |s|) > 0
  {
    var u := Utf8(cp);
    assert forall i :: 0 <= i < |u| ==> s[i] == u[i];
  }

  lemma FirstByte(s: text, cp: int)
    requires s != [] && 0 <= cp < 0x80 && s[0] as int == cp
    ensures Utf8(cp) <= s
  {
    assert ByteOf(cp) == s[0];
  }

  lemma TwoBytes(s: text, cp: int)
    requires |s| >= 2 && 0x80 <= cp < 0x800 && s[0] as int == 0xC0 + cp / 64 && s[1] as int == 0x80 + cp % 64
    ensures Utf8(cp) <= s
  {
    assert ByteOf(0xC0 + cp / 64) == s[0] && ByteOf(0x80 + cp % 64) == s[1];
  }

  lemma ThreeBytes(s: text, cp: int)
    requires |s| >= 3 && 0x800 <= cp < 0x1_0000
    requires s[0] as int == 0xE0 + cp / 4096 && s[1] as int == 0x80 + cp / 64 % 64 && s[2] as int == 0x80 + cp % 64
    ensures Utf8(cp) <= s
  {
    assert ByteOf(0xE0 + cp / 4096) == s[0] && ByteOf(0x80 + cp / 64 % 64) == s[1] && ByteOf(0x80 + cp % 64) == s[2];
  }

  lemma SpaceStarts(s: text) returns (cp: int)
    requires SpaceAt(s, 0, |s|) > 0
    ensures StartsWhite(s, cp)
  {
    var x := s[0] as int;
    if Space1(s[0]) {
      cp := x;
      FirstByte(s, cp);
    } else if |s| >= 2 && Space2(s[0], s[1]) {
      cp := s[1] as int;
      TwoBytes(s, cp);
    } else {
      cp := (x - 0xE0) * 4096 + (s[1] as int - 0x80) * 64 + (s[2] as int - 0x80);
      ThreeBytes(s, cp);
    }
  }

  /** Text starts with white space exactly when it starts with the encoding of
      one of these code points. */
  lemma SpaceIsWhite(s: text)
    ensures SpaceAt(s, 0, |s|) > 0 <==> exists cp :: StartsWhite(s, cp)
  {
    if SpaceAt(s, 0, |s|) > 0 {
      var cp := SpaceStarts(s);
    }
    if cp :| StartsWhite(s, cp) {
      WhiteStarts(s, cp);
    }
  }

  ghost predicate EndsWhite(s: text, cp: int) {
    0 <= cp < 0x1_0000 && White(cp) && |Utf8(cp)| <= |s| && s[|s| - |Utf8(cp)|..] == Utf8(cp)
  }

  lemma WhiteEnds(s: text, cp: int)
    requires EndsWhite(s, cp)
    ensures SpaceBefore(s, 0, |s|) > 0
  {
    var u, k := Utf8(cp), |s| - |Utf8(cp)|;
    assert forall i :: 0 <= i < |u| ==> s[k + i] == s[k..][i] == u[i];
  }

  lemma SpaceEnds(s: text) returns (cp: int)
    requires SpaceBefore(s, 0, |s|) > 0
    ensures EndsWhite(s, cp)
  {
    var n := SpaceBefore(s, 0, |s|);
    var t := s[|s| - n..];
    assert forall k :: 0 <= k < n ==> t[k] == s[|s| - n + k];
    assert SpaceAt(t, 0, n) == n;
    cp := SpaceStarts(t);
    SpaceLength(t, cp);
  }

  /** The character that white space starts with is that space. */
  lemma SpaceLength(s: text, cp: int)
    requires StartsWhite(s, cp)
    ensures |Utf8(cp)| == SpaceAt(s, 0, |s|)
  {
    var u := Utf8(cp);
    assert forall i :: 0 <= i < |u| ==> s[i] == u[i];
  }

  /** The same at the end of text. */
  lemma SpaceBeforeIsWhite(s: text)
    ensures SpaceBefore(s, 0, |s|) > 0 <==> exists cp :: EndsWhite(s, cp)
  {
    if SpaceBefore(s, 0, |s|) > 0 {
      var cp := SpaceEnds(s);
    }
    if cp :| EndsWhite(s, cp) {
      WhiteEnds(s, cp);
    }
  }
}
