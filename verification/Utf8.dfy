/** UTF-8 as unicode/utf8 implements it (section 3 of RFC 3629): decoding one
    rune, deciding whether a prefix holds a full rune, and encoding a rune.
    Bit masks and shifts are written as `%`, `/` and `*` by powers of two. */
module Utf8 {

  type byte = b: int | 0 <= b < 0x100

  /** A Go `rune` is an int32; every value the package returns is a code point. */
  type rune = int

  const RUNE_ERROR: rune := 0xFFFD
  const RUNE_SELF: rune := 0x80
  const MAX_RUNE: rune := 0x10FFFF
  const UTF_MAX := 4

  /** The length announced by a first byte; 1 stands for ASCII and for bytes
      that start no valid sequence. */
  function FirstSize(b: byte): nat {
    if 0xC2 <= b <= 0xDF then 2
    else if 0xE0 <= b <= 0xEF then 3
    else if 0xF0 <= b <= 0xF4 then 4
    else 1
  }

  predicate IsContinuation(b: byte) {
    0x80 <= b <= 0xBF
  }

  /** The second byte is constrained further to rule out overlong forms,
      surrogates and values above MAX_RUNE. */
  predicate AcceptsSecond(first: byte, second: byte) {
    && IsContinuation(second)
    && (first == 0xE0 ==> 0xA0 <= second)
    && (first == 0xED ==> second <= 0x9F)
    && (first == 0xF0 ==> 0x90 <= second)
    && (first == 0xF4 ==> second <= 0x8F)
  }

  /** The payload bits of a byte: b masked with m - 1, for a power of two m. */
  function Low(b: byte, m: int): int
    requires 0 < m
  {
    (b as int) % m
  }

  datatype Decoded = Decoded(r: rune, size: nat)

  const INVALID := Decoded(RUNE_ERROR, 1)

  function DecodeRune(p: seq<byte>): (d: Decoded)
    ensures d.size <= |p|
    ensures p != [] ==> 1 <= d.size <= UTF_MAX
  {
    if p == [] then Decoded(RUNE_ERROR, 0)
    else
      var sz := FirstSize(p[0]);
      if sz == 1 then (if p[0] < 0x80 then Decoded(p[0], 1) else INVALID)
      else if |p| < sz then INVALID
      else if !AcceptsSecond(p[0], p[1]) then INVALID
      else if sz == 2 then Decoded(Low(p[0], 0x20) * 0x40 + Low(p[1], 0x40), 2)
      else if !IsContinuation(p[2]) then INVALID
      else if sz == 3 then Decoded(Low(p[0], 0x10) * 0x1000 + Low(p[1], 0x40) * 0x40 + Low(p[2], 0x40), 3)
      else if !IsContinuation(p[3]) then INVALID
      else Decoded(Low(p[0], 8) * 0x40000 + Low(p[1], 0x40) * 0x1000 + Low(p[2], 0x40) * 0x40 + Low(p[3], 0x40), 4)
  }

  predicate FullRune(p: seq<byte>) {
    && p != []
    && (var sz := FirstSize(p[0]);
        || sz <= |p|
        || (|p| > 1 && !AcceptsSecond(p[0], p[1]))
        || (|p| > 2 && !IsContinuation(p[2])))
  }

  function RuneLen(r: rune): (n: int)
    ensures n == -1 || 1 <= n <= UTF_MAX
  {
    if r < 0 then -1
    else if r <= 0x7F then 1
    else if r <= 0x7FF then 2
    else if 0xD800 <= r <= 0xDFFF then -1
    else if r <= 0xFFFF then 3
    else if r <= MAX_RUNE then 4
    else -1
  }

  /** The bytes EncodeRune writes; a rune that cannot be encoded, negative ones
      included, is written as RUNE_ERROR. */
  function Encode(r: rune): (e: seq<byte>)
    ensures |e| == if RuneLen(r) == -1 then 3 else RuneLen(r)
  {
    if RuneLen(r) == -1 then [0xEF, 0xBF, 0xBD]
    else if r <= 0x7F then [r]
    else if r <= 0x7FF then [0xC0 + r / 0x40, 0x80 + r % 0x40]
    else if r <= 0xFFFF then [0xE0 + r / 0x40 / 0x40, 0x80 + r / 0x40 % 0x40, 0x80 + r % 0x40]
    else [0xF0 + r / 0x40 / 0x40 / 0x40, 0x80 + r / 0x40 / 0x40 % 0x40, 0x80 + r / 0x40 % 0x40, 0x80 + r % 0x40]
  }

  lemma DecodeTwo(a: int, b: int, rest: seq<byte>)
    requires 2 <= a < 0x20 && 0 <= b < 0x40
    ensures DecodeRune([0xC0 + a, 0x80 + b] + rest) == Decoded(a * 0x40 + b, 2)
  {
    assert Low(0xC0 + a, 0x20) == a && Low(0x80 + b, 0x40) == b;
  }

  lemma DecodeThree(a: int, b: int, c: int, rest: seq<byte>)
    requires 0 <= a < 0x10 && 0 <= b < 0x40 && 0 <= c < 0x40
    requires (a == 0 ==> 0x20 <= b) && (a == 0xD ==> b < 0x20)
    ensures DecodeRune([0xE0 + a, 0x80 + b, 0x80 + c] + rest) == Decoded(a * 0x1000 + b * 0x40 + c, 3)
  {
    assert Low(0xE0 + a, 0x10) == a && Low(0x80 + b, 0x40) == b && Low(0x80 + c, 0x40) == c;
  }

  lemma DecodeFour(a: int, b: int, c: int, d: int, rest: seq<byte>)
    requires 0 <= a <= 4 && 0 <= b < 0x40 && 0 <= c < 0x40 && 0 <= d < 0x40
    requires (a == 0 ==> 0x10 <= b) && (a == 4 ==> b < 0x10)
    ensures DecodeRune([0xF0 + a, 0x80 + b, 0x80 + c, 0x80 + d] + rest)
         == Decoded(a * 0x40000 + b * 0x1000 + c * 0x40 + d, 4)
  {
    assert Low(0xF0 + a, 8) == a && Low(0x80 + b, 0x40) == b;
    assert Low(0x80 + c, 0x40) == c && Low(0x80 + d, 0x40) == d;
  }

  /** Decoding undoes encoding, whatever follows. */
  lemma DecodeEncode(r: rune, rest: seq<byte>)
    requires RuneLen(r) != -1
    ensures DecodeRune(Encode(r) + rest) == Decoded(r, |Encode(r)|)
  {
    if 0x7F < r <= 0x7FF {
      DecodeTwo(r / 0x40, r % 0x40, rest);
    } else if 0x7FF < r <= 0xFFFF {
      DecodeThree(r / 0x40 / 0x40, r / 0x40 % 0x40, r % 0x40, rest);
    } else if 0xFFFF < r {
      DecodeFour(r / 0x40 / 0x40 / 0x40, r / 0x40 / 0x40 % 0x40, r / 0x40 % 0x40, r % 0x40, rest);
    }
  }

  /** More input never changes how a full rune decodes. */
  lemma DecodeStable(p: seq<byte>, n: nat)
    requires n <= |p| && FullRune(p[..n])
    ensures DecodeRune(p[..n]) == DecodeRune(p)
    ensures FullRune(p)
  {
    assert forall k | 0 <= k < n :: p[..n][k] == p[k];
  }

  /** A rune cut short decodes as one invalid byte, and everything after that
      byte is a continuation byte. */
  lemma CutRune(p: seq<byte>)
    requires p != [] && !FullRune(p)
    ensures DecodeRune(p) == INVALID
    ensures |p| < UTF_MAX && 0xC2 <= p[0]
    ensures forall k | 1 <= k < |p| :: IsContinuation(p[k])
  {
  }

  lemma FourByteRune(p: seq<byte>)
    requires p != [] && FirstSize(p[0]) == 4
    ensures DecodeRune(p) == INVALID || 0x10000 <= DecodeRune(p).r
  {
  }

  /** The bytes of a scalar value, as the table in section 3 of RFC 3629 lays them out. */
  lemma EncodeBits(r: rune)
    requires 0 <= r <= 0xD7FF || 0xE000 <= r <= 0x10FFFF
    ensures var e := Encode(r);
      && |e| == (if r < 0x80 then 1 else if r < 0x800 then 2 else if r < 0x10000 then 3 else 4)
      && (forall k | 1 <= k < |e| :: 0x80 <= e[k] <= 0xBF)
      && (|e| == 1 ==> e[0] == r)
      && (|e| == 2 ==> r == (e[0] as int - 0xC0) * 64 + (e[1] as int - 0x80))
      && (|e| == 3 ==> r == (e[0] as int - 0xE0) * 4096 + (e[1] as int - 0x80) * 64 + (e[2] as int - 0x80))
      && (|e| == 4 ==>
            r == (e[0] as int - 0xF0) * 262144 + (e[1] as int - 0x80) * 4096 + (e[2] as int - 0x80) * 64
                 + (e[3] as int - 0x80))
  {
  }

  /** What is no scalar value is written as U+FFFD. */
  lemma EncodeOthers(r: rune)
    requires r < 0 || 0xD7FF < r < 0xE000 || 0x10FFFF < r
    ensures Encode(r) == [0xEF, 0xBF, 0xBD]
  {
  }

  /** p starts with the encoding of the scalar value r. */
  predicate StartsWith(p: seq<byte>, r: rune) {
    (0 <= r <= 0xD7FF || 0xE000 <= r <= 0x10FFFF) && Encode(r) <= p
  }

  /** Decoding finds the scalar value whose encoding comes first, and reports one invalid
      byte exactly when there is none. */
  lemma DecodeExact(p: seq<byte>)
    requires p != []
    ensures var d := DecodeRune(p);
      if exists r :: StartsWith(p, r) then StartsWith(p, d.r) && d.size == |Encode(d.r)| else d == Decoded(0xFFFD, 1)
  {
    var d := DecodeRune(p);
    if r :| StartsWith(p, r) {
      assert p == Encode(r) + p[|Encode(r)|..];
      DecodeEncode(r, p[|Encode(r)|..]);
    } else if d != INVALID {
      DecodedStarts(p);
    }
  }

  lemma DecodedStarts(p: seq<byte>)
    requires p != [] && DecodeRune(p) != INVALID
    ensures StartsWith(p, DecodeRune(p).r)
  {
    var size := FirstSize(p[0]);
    if size == 1 {
      assert Encode(p[0]) == [p[0]];
    } else if size == 2 {
      EncodeTwo(p[0] as int - 0xC0, p[1] as int - 0x80);
    } else if size == 3 {
      EncodeThree(p[0] as int - 0xE0, p[1] as int - 0x80, p[2] as int - 0x80);
    } else {
      EncodeFour(p[0] as int - 0xF0, p[1] as int - 0x80, p[2] as int - 0x80, p[3] as int - 0x80);
    }
    hide Encode;
  }

  lemma EncodeTwo(a: int, b: int)
    requires 2 <= a < 0x20 && 0 <= b < 0x40
    ensures Encode(a * 0x40 + b) == [0xC0 + a, 0x80 + b]
    ensures Low(0xC0 + a, 0x20) == a && Low(0x80 + b, 0x40) == b
  {
  }

  lemma EncodeThree(a: int, b: int, c: int)
    requires 0 <= a < 0x10 && 0 <= b < 0x40 && 0 <= c < 0x40
    requires (a == 0 ==> 0x20 <= b) && (a == 0xD ==> b < 0x20)
    ensures Encode(a * 0x1000 + b * 0x40 + c) == [0xE0 + a, 0x80 + b, 0x80 + c]
    ensures Low(0xE0 + a, 0x10) == a && Low(0x80 + b, 0x40) == b && Low(0x80 + c, 0x40) == c
  {
    Sextet(a, b);
    Sextet(a * 0x40 + b, c);
  }

  lemma Sextet(high: int, low: int)
    requires 0 <= high && 0 <= low < 0x40
    ensures (high * 0x40 + low) / 0x40 == high && (high * 0x40 + low) % 0x40 == low
  {
  }

  lemma EncodeFour(a: int, b: int, c: int, d: int)
    requires 0 <= a <= 4 && 0 <= b < 0x40 && 0 <= c < 0x40 && 0 <= d < 0x40
    requires (a == 0 ==> 0x10 <= b) && (a == 4 ==> b < 0x10)
    ensures Encode(a * 0x40000 + b * 0x1000 + c * 0x40 + d) == [0xF0 + a, 0x80 + b, 0x80 + c, 0x80 + d]
    ensures Low(0xF0 + a, 8) == a && Low(0x80 + b, 0x40) == b && Low(0x80 + c, 0x40) == c && Low(0x80 + d, 0x40) == d
  {
    Sextet(a, b);
    Sextet(a * 0x40 + b, c);
    var high := (a * 0x40 + b) * 0x40 + c;
    Sextet(high, d);
    var r := high * 0x40 + d;
    assert r / 0x40 == high && r / 0x40 / 0x40 == a * 0x40 + b && r / 0x40 / 0x40 / 0x40 == a;
  }

  /** What could turn a cut rune into a whole one. */
  function Completion(p: seq<byte>): seq<byte>
    requires p != []
  {
    var second: byte := if p[0] == 0xE0 then 0xA0 else if p[0] == 0xF0 then 0x90 else 0x80;
    if |p| == 1 then [second, 0x80, 0x80] else [0x80, 0x80]
  }

  /** A prefix holds a full rune exactly when nothing that may follow changes how it
      decodes. */
  lemma FullRuneExact(p: seq<byte>)
    requires p != []
    ensures FullRune(p) <==> forall q :: DecodeRune(p + q) == DecodeRune(p)
  {
    if FullRune(p) {
      forall q ensures DecodeRune(p + q) == DecodeRune(p) {
        assert (p + q)[..|p|] == p;
        DecodeStable(p + q, |p|);
      }
    } else {
      CutRune(p);
      assert DecodeRune(p + Completion(p)).size > 1;
    }
  }

  /** Writes the encoding of r at the start of b[dst..], as utf8.EncodeRune does. */
  method EncodeRune(b: array<byte>, dst: nat, r: rune) returns (n: nat)
    requires dst + |Encode(r)| <= b.Length
    modifies b
    ensures n == |Encode(r)|
    ensures b[..dst] == old(b[..dst]) && b[dst..dst + n] == Encode(r) && b[dst + n..] == old(b[dst + n..])
  {
    var c := if r < 0 || r > MAX_RUNE || 0xD800 <= r <= 0xDFFF then RUNE_ERROR else r;
    ghost var e := Encode(r);
    assert e == Encode(c);
    n := if c <= 0x7F then 1 else if c <= 0x7FF then 2 else if c <= 0xFFFF then 3 else 4;
    if n == 1 {
      b[dst] := c;
    } else if n == 2 {
      b[dst], b[dst + 1] := 0xC0 + c / 0x40, 0x80 + c % 0x40;
    } else if n == 3 {
      b[dst], b[dst + 1] := 0xE0 + c / 0x40 / 0x40, 0x80 + c / 0x40 % 0x40;
      b[dst + 2] := 0x80 + c % 0x40;
    } else {
      b[dst], b[dst + 1] := 0xF0 + c / 0x40 / 0x40 / 0x40, 0x80 + c / 0x40 / 0x40 % 0x40;
      b[dst + 2], b[dst + 3] := 0x80 + c / 0x40 % 0x40, 0x80 + c % 0x40;
    }
    assert forall k | 0 <= k < n :: b[dst + k] == e[k];
  }
}
