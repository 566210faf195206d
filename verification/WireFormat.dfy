/** The Protocol Buffers wire format (Encoding guide, "Base 128 Varints" and
    "Groups") as the generated codec reads and writes it: varints, tags and the
    skipper for unknown fields, with Go's 64-bit and 32-bit conversions spelt out. */
module WireFormat {
  import opened Utf8
  import opened Io
  import opened Basics

  datatype WireError =
    | IntOverflow | UnexpectedEOF | InvalidLength
    | EndGroup | IllegalTag | WrongWireType | IllegalWireType

  /** A value decoded from a buffer, and the index after it. */
  datatype Parsed<+T> = Ok(value: T, next: nat) | Err(error: WireError)

  const TWO_64 := 0x1_0000_0000_0000_0000

  function ToInt32(x: nat): int {
    var y := x % TWO_32;
    if y < TWO_32 / 2 then y else y - TWO_32
  }

  /** v << shift, before it is cut to 64 bits. */
  function Shl(v: nat, shift: nat): nat {
    v * Pow2(shift)
  }

  lemma Pow2Seven(n: nat)
    ensures Pow2(n + 7) == 0x80 * Pow2(n)
  {
    assert Pow2(n + 7) == 2 * Pow2(n + 6) == 4 * Pow2(n + 5) == 8 * Pow2(n + 4);
    assert Pow2(n + 4) == 2 * Pow2(n + 3) == 4 * Pow2(n + 2) == 8 * Pow2(n + 1);
  }

  // ---- Varints ----

  function Varint(v: nat): (e: seq<byte>)
    ensures e != []
  {
    if v < 0x80 then [v] else [0x80 + v % 0x80] + Varint(v / 0x80)
  }

  /** math/bits.Len64: the number of bits needed to write x. */
  function Len64(x: nat): nat {
    if x == 0 then 0 else 1 + Len64(x / 2)
  }

  /** sovGenesis, sovParams and sovQuery: (Len64(x|1) + 6) / 7. */
  function Sov(x: nat): nat {
    (Len64(if x % 2 == 0 then x + 1 else x) + 6) / 7
  }

  lemma {:induction false} Len64Odd(x: nat)
    requires 1 < x
    ensures Len64(if x % 2 == 0 then x + 1 else x) == Len64(x)
  {
  }

  lemma Len64Seven(x: nat)
    requires 0x80 <= x
    ensures Len64(x) == 7 + Len64(x / 0x80) && 1 <= Len64(x / 0x80)
  {
    assert Len64(x) == 1 + Len64(x / 2) == 2 + Len64(x / 2 / 2) == 3 + Len64(x / 2 / 2 / 2);
    var y := x / 8;
    assert y == x / 2 / 2 / 2;
    assert Len64(y) == 1 + Len64(y / 2) == 2 + Len64(y / 2 / 2) == 3 + Len64(y / 2 / 2 / 2);
    var z := y / 8;
    assert z == y / 2 / 2 / 2 && z / 2 == x / 0x80;
  }

  lemma Len64Small(x: nat)
    requires 0 < x < 0x80
    ensures 1 <= Len64(x) <= 7
  {
    assert Len64(x) == 1 + Len64(x / 2);
    var y := x / 2 / 2;
    assert Len64(x / 2) == if x / 2 == 0 then 0 else 1 + Len64(y);
    assert y < 0x20;
    assert Len64(y) <= 1 + Len64(y / 2) <= 2 + Len64(y / 2 / 2) <= 3 + Len64(y / 2 / 2 / 2);
    var z := y / 2 / 2 / 2;
    assert z < 4 && Len64(z) <= 2;
  }

  /** The size computed in advance is the number of bytes written. */
  lemma {:induction false} SovIsLength(v: nat)
    ensures Sov(v) == |Varint(v)|
    decreases v
  {
    if v < 0x80 {
      Len64Small(if v % 2 == 0 then v + 1 else v);
    } else {
      SovIsLength(v / 0x80);
      Len64Odd(v);
      Len64Seven(v);
      if v / 0x80 > 1 {
        Len64Odd(v / 0x80);
      }
    }
  }

  /** Writes v so that it ends just before offset; returns where it starts. */
  method EncodeVarint(dAtA: array<byte>, offset: nat, v: nat) returns (base: nat)
    requires |Varint(v)| <= offset <= dAtA.Length
    modifies dAtA
    ensures base == offset - |Varint(v)|
    ensures dAtA[base..offset] == Varint(v)
    ensures dAtA[..base] == old(dAtA[..base]) && dAtA[offset..] == old(dAtA[offset..])
  {
    hide Varint, Sov;
    SovIsLength(v);
    base := offset - Sov(v);
    var i: nat, w: nat := base, v;
    ghost var e := Varint(v);
    while w >= 0x80
      invariant base <= i < offset && e[i - base..] == Varint(w)
      invariant forall k | base <= k < i :: dAtA[k] == e[k - base]
      invariant forall k | 0 <= k < base || offset <= k < dAtA.Length :: dAtA[k] == old(dAtA[k])
      decreases w
    {
      VarintHead(w);
      dAtA[i] := 0x80 + w % 0x80;
      assert e[i - base] == Varint(w)[0];
      DropDrop(e, i - base, 1);
      w := w / 0x80;
      i := i + 1;
    }
    VarintHead(w);
    dAtA[i] := w;
    assert e[i - base] == Varint(w)[0];
  }

  lemma VarintHead(v: nat)
    ensures Varint(v) == if v < 0x80 then [v] else [0x80 + v % 0x80] + Varint(v / 0x80)
  {
  }

  /** The decoding loop, `shift` bits and `acc` in. `acc` has no bit at or above
      `shift`, so the source's `|=` adds; what is shifted past bit 63 is lost. */
  function VarintFrom(s: seq<byte>, i: nat, shift: nat, acc: nat): (r: Parsed<nat>)
    requires acc < TWO_64
    ensures r.Ok? ==> r.value < TWO_64 && i < r.next <= |s|
    decreases 64 - shift
  {
    if shift >= 64 then Err(IntOverflow)
    else if i >= |s| then Err(UnexpectedEOF)
    else
      var sum := (acc + Shl((s[i] as int) % 0x80, shift)) % TWO_64;
      if s[i] < 0x80 then Ok(sum, i + 1) else VarintFrom(s, i + 1, shift + 7, sum)
  }

  function VarintAt(s: seq<byte>, i: nat): (r: Parsed<nat>)
    ensures r.Ok? ==> r.value < TWO_64 && i < r.next <= |s|
  {
    VarintFrom(s, i, 0, 0)
  }

  /** What the loop has added up when it stops, whether it has read a varint or not. */
  function VarintLeft(s: seq<byte>, i: nat, shift: nat, acc: nat): nat
    requires acc < TWO_64
    decreases 64 - shift
  {
    if shift >= 64 || i >= |s| then acc
    else
      var sum := (acc + Shl((s[i] as int) % 0x80, shift)) % TWO_64;
      if s[i] < 0x80 then sum else VarintLeft(s, i + 1, shift + 7, sum)
  }

  method DecodeVarint(dAtA: seq<byte>, start: nat) returns (r: Parsed<nat>)
    ensures r == VarintAt(dAtA, start)
  {
    var i: nat, shift: nat, wire: nat := start, 0, 0;
    while true
      invariant wire < TWO_64
      invariant VarintFrom(dAtA, i, shift, wire) == VarintAt(dAtA, start)
      decreases 64 - shift
    {
      if shift >= 64 { return Err(IntOverflow); }
      if i >= |dAtA| { return Err(UnexpectedEOF); }
      var b := dAtA[i];
      i := i + 1;
      wire := (wire + Shl((b as int) % 0x80, shift)) % TWO_64;
      if b < 0x80 { return Ok(wire, i); }
      shift := shift + 7;
    }
  }

  /** Reading back a written varint, wherever it stands and whatever follows. */
  lemma VarintRoundTrip(a: seq<byte>, v: nat, b: seq<byte>)
    requires v < TWO_64
    ensures VarintAt(a + Varint(v) + b, |a|) == Ok(v, |a| + |Varint(v)|)
  {
    var s := a + Varint(v) + b;
    assert s[|a|..|a| + |Varint(v)|] == Varint(v);
    assert Shl(v, 0) == v;
    VarintReads(s, |a|, 0, 0, v);
  }

  lemma {:induction false} VarintReads(s: seq<byte>, i: nat, shift: nat, acc: nat, v: nat)
    requires i + |Varint(v)| <= |s| && s[i..i + |Varint(v)|] == Varint(v)
    requires acc + Shl(v, shift) < TWO_64 && shift < 64
    ensures VarintFrom(s, i, shift, acc) == Ok(acc + Shl(v, shift), i + |Varint(v)|)
    decreases v
  {
    hide Shl;
    assert s[i] == Varint(v)[0];
    LowDigit(v, shift);
    if v >= 0x80 {
      var q, sum := v / 0x80, acc + Shl(v % 0x80, shift);
      ShlBound(q, shift + 7);
      assert s[i + 1..i + 1 + |Varint(q)|] == Varint(q) by {
        assert s[i..i + |Varint(v)|][1..] == Varint(v)[1..] == Varint(q);
      }
      VarintReads(s, i + 1, shift + 7, sum, q);
    }
  }

  /** A value, shifted, is its low seven bits and the rest shifted seven further. */
  lemma LowDigit(v: nat, shift: nat)
    ensures Shl(v, shift) == Shl(v % 0x80, shift) + Shl(v / 0x80, shift + 7)
    ensures v < 0x80 ==> v % 0x80 == v && Shl(v / 0x80, shift + 7) == 0
  {
    Pow2Seven(shift);
    var q, d, p := v / 0x80, v % 0x80, Pow2(shift);
    assert v == 0x80 * q + d;
    assert (0x80 * q + d) * p == 0x80 * q * p + d * p;
    assert q * (0x80 * p) == 0x80 * q * p;
  }

  // ---- Varints, byte by byte ----

  lemma DivDiv(v: nat, a: nat, b: nat)
    requires 0 < a && 0 < b
    ensures v / a / b == v / (b * a)
  {
    var q := v / a;
    var k := q / b;
    assert q == b * k + q % b;
    assert v == a * q + v % a;
    var r := a * (q % b) + v % a;
    assert a * (b * k + q % b) == a * b * k + a * (q % b);
    assert v == k * (b * a) + r;
    RemainderFits(q % b, v % a, a, b);
    DivUnique(v, b * a, k, r);
  }

  lemma RemainderFits(x: nat, y: nat, a: nat, b: nat)
    requires x < b && y < a
    ensures a * x + y < b * a
  {
    OneMore(x, b, a);
  }

  lemma DivUnique(v: nat, m: nat, k: nat, r: nat)
    requires 0 < m && v == k * m + r && r < m
    ensures v / m == k
  {
    var q := v / m;
    if q < k { OneMore(q, k, m); } else if k < q { OneMore(k, q, m); }
  }

  /** Byte k of a varint holds bits 7k to 7k + 6 of the value; the top bit is set in all
      bytes but the last, and there is no byte too many. */
  lemma {:induction false} VarintBytes(v: nat, k: nat)
    requires k < |Varint(v)|
    ensures Varint(v)[k] == v / Pow2(7 * k) % 128 + (if k + 1 < |Varint(v)| then 128 else 0)
    ensures k == 0 || Pow2(7 * k) <= v
    ensures k + 1 == |Varint(v)| ==> v < Pow2(7 * k + 7)
    decreases v
  {
    if k == 0 {
      assert Pow2(0) == 1;
      Pow2Seven(0);
    } else {
      var q, p := v / 0x80, Pow2(7 * (k - 1));
      VarintBytes(q, k - 1);
      hide Pow2, Varint;
      Pow2Seven(7 * (k - 1));
      Pow2Seven(7 * k);
      DivDiv(v, 0x80, p);
      assert 7 * (k - 1) + 7 == 7 * k;
      VarintHead(v);
      AtLeast(v, q, p);
      if k + 1 == |Varint(v)| { Below(v, q, Pow2(7 * k)); }
    }
  }

  lemma AtLeast(v: nat, q: nat, p: nat)
    requires q == v / 0x80
    ensures (p <= q ==> 0x80 * p <= v) && (1 <= q ==> 0x80 <= v)
  {
  }

  lemma Below(v: nat, q: nat, p: nat)
    requires q == v / 0x80
    ensures q < p ==> v < 0x80 * p
  {
  }

  /** The low seven bits of the bytes from i to n, the first byte least significant. */
  function Sevens(s: seq<byte>, i: nat, n: nat): nat
    requires i <= n <= |s|
    decreases n - i
  {
    if i == n then 0 else (s[i] as int) % 128 + 128 * Sevens(s, i + 1, n)
  }

  /** The top bit is set in all bytes from i to n but the last. */
  predicate IsVarintAt(s: seq<byte>, i: nat, n: nat) {
    i < n <= |s| && (forall k | i <= k < n - 1 :: 128 <= s[k]) && s[n - 1] < 128
  }

  /** Which bytes are read as a varint, `rounds` bytes in, and as which value. */
  ghost predicate ReadsAs(s: seq<byte>, i: nat, rounds: nat, acc: nat, r: Parsed<nat>)
    requires rounds <= 10
  {
    if r.Ok? then
      && IsVarintAt(s, i, r.next) && rounds + (r.next - i) <= 10
      && r.value == (acc + Shl(Sevens(s, i, r.next), 7 * rounds)) % TWO_64
    else if r.error == UnexpectedEOF then
      rounds + (|s| - i) < 10 && forall k | i <= k < |s| :: 128 <= s[k]
    else
      r.error == IntOverflow && i + (10 - rounds) <= |s| && forall k | i <= k < i + (10 - rounds) :: 128 <= s[k]
  }

  lemma {:induction false} VarintReadsAs(s: seq<byte>, i: nat, rounds: nat, acc: nat)
    requires i <= |s| && rounds <= 10 && acc < TWO_64
    ensures ReadsAs(s, i, rounds, acc, VarintFrom(s, i, 7 * rounds, acc))
    decreases 10 - rounds
  {
    hide Shl;
    var shift := 7 * rounds;
    if shift < 64 && i < |s| {
      var low := (s[i] as int) % 0x80;
      var sum := (acc + Shl(low, shift)) % TWO_64;
      if s[i] < 0x80 {
        assert Sevens(s, i, i + 1) == low + 128 * Sevens(s, i + 1, i + 1);
      } else {
        VarintReadsAs(s, i + 1, rounds + 1, sum);
        var r := VarintFrom(s, i + 1, shift + 7, sum);
        assert shift + 7 == 7 * (rounds + 1);
        if r.Ok? { MoreBits(acc, low, Sevens(s, i + 1, r.next), shift); }
      }
    }
  }

  lemma MoreBits(acc: nat, low: nat, rest: nat, shift: nat)
    ensures ((acc + Shl(low, shift)) % TWO_64 + Shl(rest, shift + 7)) % TWO_64
         == (acc + Shl(low + 128 * rest, shift)) % TWO_64
  {
    Pow2Seven(shift);
    var p := Pow2(shift);
    assert (low + 128 * rest) * p == low * p + rest * (128 * p);
    var x, y := acc + Shl(low, shift), Shl(rest, shift + 7);
    SumMod(x, y, TWO_64);
  }

  lemma SumMod(x: nat, y: nat, m: nat)
    requires 0 < m
    ensures (x % m + y) % m == (x + y) % m
  {
    var a, b := x / m, (x % m + y) / m;
    var r := (x % m + y) % m;
    assert x + y == (a + b) * m + r;
    ModUnique(x + y, m, a + b, r);
  }

  /** Reading a varint succeeds exactly where at most ten bytes, with the top bit set in all
      but the last, start; a value of more than 64 bits loses the bits above them. It
      fails at the end of the buffer, or after ten bytes that all have the top bit set. */
  lemma VarintExact(s: seq<byte>, i: nat)
    requires i <= |s|
    ensures var r := VarintAt(s, i);
      if r.Ok? then
        && IsVarintAt(s, i, r.next) && r.next - i <= 10
        && r.value == Sevens(s, i, r.next) % 18446744073709551616
      else if r.error == UnexpectedEOF then
        |s| - i < 10 && forall k | i <= k < |s| :: 128 <= s[k]
      else
        r.error == IntOverflow && i + 10 <= |s| && forall k | i <= k < i + 10 :: 128 <= s[k]
  {
    hide VarintFrom, Sevens, Pow2, IsVarintAt;
    VarintReadsAs(s, i, 0, 0);
    var r := VarintAt(s, i);
    if r.Ok? { ShlIdentity(Sevens(s, i, r.next)); }
  }

  lemma ShlIdentity(v: nat)
    ensures Shl(v, 0) == v
  {
  }

  /** A varint cut off after k bytes leaves the low 7k bits of its value. */
  lemma {:induction false} CutVarintLeaves(s: seq<byte>, i: nat, shift: nat, acc: nat, v: nat, k: nat)
    requires k < |Varint(v)| && i + k == |s| && s[i..] == Varint(v)[..k]
    requires acc + Shl(v, shift) < TWO_64 && shift < 64
    ensures VarintLeft(s, i, shift, acc) == acc + Shl(v % Pow2(7 * k), shift)
    ensures VarintFrom(s, i, shift, acc) == Err(UnexpectedEOF)
    decreases k
  {
    hide Shl, Pow2, Varint, VarintFrom, VarintLeft;
    if k == 0 {
      ShlZero(shift);
      NothingLeft(s, i, shift, acc);
    } else {
      var q, low := v / 0x80, v % 0x80;
      CutTail(s, i, v, k);
      LowDigit(v, shift);
      ShlBound(q, shift + 7);
      LeftStep(s, i, shift, acc, low);
      CutVarintLeaves(s, i + 1, shift + 7, acc + Shl(low, shift), q, k - 1);
      LowBits(v, k);
      LowDigit(v % Pow2(7 * k), shift);
    }
  }

  lemma NothingLeft(s: seq<byte>, i: nat, shift: nat, acc: nat)
    requires acc < TWO_64 && |s| <= i && shift < 64
    ensures VarintLeft(s, i, shift, acc) == acc && VarintFrom(s, i, shift, acc) == Err(UnexpectedEOF)
  {
  }

  lemma LeftStep(s: seq<byte>, i: nat, shift: nat, acc: nat, low: nat)
    requires i < |s| && shift < 64 && low < 0x80 && s[i] == 0x80 + low && acc + Shl(low, shift) < TWO_64
    ensures VarintLeft(s, i, shift, acc) == VarintLeft(s, i + 1, shift + 7, acc + Shl(low, shift))
    ensures VarintFrom(s, i, shift, acc) == VarintFrom(s, i + 1, shift + 7, acc + Shl(low, shift))
  {
    hide Shl;
  }

  lemma CutTail(s: seq<byte>, i: nat, v: nat, k: nat)
    requires 0 < k < |Varint(v)| && i + k == |s| && s[i..] == Varint(v)[..k]
    ensures v >= 0x80 && s[i] == 0x80 + v % 0x80
    ensures k - 1 < |Varint(v / 0x80)| && s[i + 1..] == Varint(v / 0x80)[..k - 1]
  {
    assert s[i] == s[i..][0] == Varint(v)[0];
    assert s[i + 1..] == s[i..][1..] == Varint(v)[1..k];
  }

  lemma ShlZero(shift: nat)
    ensures Shl(0, shift) == 0 && Pow2(0) == 1
  {
  }

  /** The low 7k bits of v, seven at a time. */
  lemma LowBits(v: nat, k: nat)
    requires 0 < k
    ensures (v % Pow2(7 * k)) % 0x80 == v % 0x80 && (v % Pow2(7 * k)) / 0x80 == (v / 0x80) % Pow2(7 * (k - 1))
  {
    hide Pow2;
    Pow2Seven(7 * (k - 1));
    var q, low, p := v / 0x80, v % 0x80, Pow2(7 * (k - 1));
    LowBitsOf(v, q, low, p);
    Digits(q % p, low);
  }

  lemma Digits(b: nat, low: nat)
    requires low < 0x80
    ensures (0x80 * b + low) % 0x80 == low && (0x80 * b + low) / 0x80 == b
  {
  }

  lemma LowBitsOf(v: nat, q: nat, low: nat, p: nat)
    requires 0 < p && v == 0x80 * q + low && low < 0x80
    ensures v % (0x80 * p) == 0x80 * (q % p) + low
  {
    var a, b := q / p, q % p;
    Regroup7(a, p, b);
    ModUnique(v, 0x80 * p, a, 0x80 * b + low);
  }

  lemma Regroup7(a: nat, p: nat, b: nat)
    ensures 0x80 * (a * p + b) == a * (0x80 * p) + 0x80 * b
  {
  }

  lemma ModUnique(v: nat, m: nat, a: nat, r: nat)
    requires 0 < m && v == a * m + r && r < m
    ensures v % m == r
  {
    var q := v / m;
    if q < a { OneMore(q, a, m); } else if a < q { OneMore(a, q, m); }
  }

  lemma OneMore(q: nat, a: nat, m: nat)
    requires q < a
    ensures q * m + m <= a * m
  {
    var d := a - q - 1;
    assert a * m == q * m + m + d * m;
  }

  lemma AtMostTen(v: nat)
    requires v < TWO_64
    ensures |Varint(v)| <= 10
  {
    hide Varint, VarintFrom;
    VarintRoundTrip([], v, []);
    assert [] + Varint(v) + [] == Varint(v);
    VarintExact(Varint(v), 0);
  }

  lemma Pow2Word()
    ensures Pow2(63) == TWO_64 / 2 && Pow2(64) == TWO_64
  {
    Pow2Seven(0); Pow2Seven(7); Pow2Seven(14); Pow2Seven(21); Pow2Seven(28);
    Pow2Seven(35); Pow2Seven(42); Pow2Seven(49); Pow2Seven(56);
  }

  /** What 31, 32, 63 and 64 bits hold. */
  lemma WordSizes()
    ensures TWO_32 == Pow2(32) == 4294967296 && TWO_64 == Pow2(64) == 18446744073709551616
    ensures MAX_INT == Pow2(63) - 1 == 9223372036854775807
  {
    Pow2Word();
    Pow2Seven(0);
    Pow2Seven(7);
    Pow2Seven(14);
    Pow2Seven(21);
    assert Pow2(32) == 2 * Pow2(31) == 4 * Pow2(30) == 8 * Pow2(29) == 16 * Pow2(28);
  }

  /** The int32 with the same low 32 bits. */
  lemma ToInt32Wraps(x: nat)
    ensures var r := ToInt32(x);
      -2147483648 <= r <= 2147483647 && (x - r) % 4294967296 == 0
  {
    var y := x % TWO_32;
    WholeWords(x / TWO_32);
    if y < TWO_32 / 2 { WholeWords(x / TWO_32); } else { WholeWords(x / TWO_32 + 1); }
  }

  lemma WholeWords(k: int)
    ensures (k * 4294967296) % 4294967296 == 0
  {
  }

  lemma MulGrows(q: nat, p: nat)
    requires 1 <= q
    ensures p <= q * p
  {
  }

  /** A shift that still leaves a 64-bit value is less than 64. */
  lemma ShlBound(q: nat, n: nat)
    requires 1 <= q && Shl(q, n) < TWO_64
    ensures n < 64
  {
    if 64 <= n {
      Pow2Word();
      Pow2Monotone(64, n);
      MulGrows(q, Pow2(n));
    }
  }

  lemma {:induction false} Pow2Monotone(m: nat, n: nat)
    requires m <= n
    ensures Pow2(m) <= Pow2(n)
  {
    if m < n { Pow2Monotone(m, n - 1); }
  }
}
