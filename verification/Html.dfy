/** html.UnescapeString and html.EscapeString. The rewriting is first described on
    byte strings; the in-place algorithm is then shown to compute it. */
module Html {
  import opened Utf8
  import opened Io
  import opened Basics

  const AMP: byte := 0x26
  const HASH: byte := 0x23
  const SEMICOLON: byte := 0x3B

  const LONGEST_ENTITY_WITHOUT_SEMICOLON := 6

  /** The entity tables: names, without the leading '&', and the one or two code
      points they stand for. A missing name reads as zero. */
  datatype Tables = Tables(entity: map<seq<byte>, rune>, entity2: map<seq<byte>, (rune, rune)>) {

    function One(name: seq<byte>): rune {
      if name in entity then entity[name] else 0
    }

    function Two(name: seq<byte>): (rune, rune) {
      if name in entity2 then entity2[name] else (0, 0)
    }

    /** No value is longer, encoded, than its name and the '&'; and the three named
        entities EscapeString writes are there. */
    ghost predicate Valid() {
      && (forall k | k in entity :: |Encode(entity[k])| <= 1 + |k|)
      && (forall k | k in entity2 :: |Encode(entity2[k].0)| + |Encode(entity2[k].1)| <= 1 + |k|)
      && One(AMP_NAME) == 0x26 && One(LT_NAME) == 0x3C && One(GT_NAME) == 0x3E
    }
  }

  const AMP_NAME: seq<byte> := [0x61, 0x6D, 0x70, SEMICOLON]
  const LT_NAME: seq<byte> := [0x6C, 0x74, SEMICOLON]
  const GT_NAME: seq<byte> := [0x67, 0x74, SEMICOLON]

  /** What 0x80 to 0x9F stood for in Windows-1252. */
  const REPLACEMENTS: seq<rune> := [
    0x20AC, 0x0081, 0x201A, 0x0192, 0x201E, 0x2026, 0x2020, 0x2021,
    0x02C6, 0x2030, 0x0160, 0x2039, 0x0152, 0x008D, 0x017D, 0x008F,
    0x0090, 0x2018, 0x2019, 0x201C, 0x201D, 0x2022, 0x2013, 0x2014,
    0x02DC, 0x2122, 0x0161, 0x203A, 0x0153, 0x009D, 0x017E, 0x0178]

  // ---- The rewriting, on strings ----

  /** The bytes a reference is replaced by, and how many bytes it takes up. */
  datatype Reference = Reference(out: seq<byte>, consumed: nat)

  /** The int32 that x wraps around to. */
  function Wrap32(x: int): rune {
    (x + TWO_32 / 2) % TWO_32 - TWO_32 / 2
  }

  function DigitValue(c: byte, hex: bool): Option<nat> {
    if 0x30 <= c <= 0x39 then Some(c - 0x30)
    else if hex && 0x61 <= c <= 0x66 then Some(c - 0x61 + 10)
    else if hex && 0x41 <= c <= 0x46 then Some(c - 0x41 + 10)
    else None
  }

  function Base(hex: bool): nat {
    if hex then 16 else 10
  }

  function IsAlnum(c: byte): bool {
    0x61 <= c <= 0x7A || 0x41 <= c <= 0x5A || 0x30 <= c <= 0x39
  }

  /** Where the digits that start at i end. */
  function DigitsEnd(s: seq<byte>, i: nat, hex: bool): (j: nat)
    requires i <= |s|
    ensures i <= j <= |s|
    decreases |s| - i
  {
    if i < |s| && DigitValue(s[i], hex).Some? then DigitsEnd(s, i + 1, hex) else i
  }

  /** The number written by the digits of s from i to j, read after x. */
  function Number(s: seq<byte>, i: nat, j: nat, hex: bool, x: nat): nat
    requires i <= j <= |s|
    decreases j - i
  {
    if i == j then x
    else
      var d := DigitValue(s[i], hex);
      Number(s, i + 1, j, hex, Base(hex) * x + (if d.Some? then d.value else 0))
  }

  function NameEnd(s: seq<byte>, i: nat): (j: nat)
    requires i <= |s|
    ensures i <= j <= |s|
    decreases |s| - i
  {
    if i < |s| && IsAlnum(s[i]) then NameEnd(s, i + 1) else i
  }

  function PastSemicolon(s: seq<byte>, i: nat): (j: nat)
    requires i <= |s|
    ensures i <= j <= |s|
  {
    if i < |s| && s[i] == SEMICOLON then i + 1 else i
  }

  function Windows1252(x: rune): rune
    requires 0x80 <= x <= 0x9F
  {
    REPLACEMENTS[x - 0x80]
  }

  /** The code point a numeric reference with (wrapped) value x stands for. */
  function NumericRune(x: rune): rune {
    if 0x80 <= x <= 0x9F then Windows1252(x)
    else if x == 0 || 0xD800 <= x <= 0xDFFF || x > MAX_RUNE then RUNE_ERROR
    else x
  }

  const LITERAL := Reference([AMP], 1)

  /** "&#x" or "&#X" announces hexadecimal digits. */
  predicate IsHex(s: seq<byte>) {
    2 < |s| && (s[2] == 0x78 || s[2] == 0x58)
  }

  function NumericReference(s: seq<byte>): Reference
    requires 2 <= |s|
  {
    if |s| <= 3 then LITERAL
    else
      var hex := IsHex(s);
      var start := if hex then 3 else 2;
      var digits := DigitsEnd(s, start, hex);
      var end := PastSemicolon(s, digits);
      if end <= 3 then LITERAL
      else Reference(Encode(NumericRune(Wrap32(Number(s, start, digits, hex, 0)))), end)
  }

  /** The longest prefix of name, of 2 to j bytes, that is an entity by itself. */
  function PrefixEntity(t: Tables, name: seq<byte>, j: int): (k: nat)
    requires j <= |name|
    ensures k == 0 || (2 <= k <= j && t.One(name[..k]) != 0)
    ensures forall m | 2 <= m <= j && k < m :: t.One(name[..m]) == 0
    decreases j
  {
    if j <= 1 then 0
    else if t.One(name[..j]) != 0 then j
    else PrefixEntity(t, name, j - 1)
  }

  function NamedReference(t: Tables, s: seq<byte>): Reference
    requires 2 <= |s|
  {
    var end := PastSemicolon(s, NameEnd(s, 1));
    var name := s[1..end];
    if name == [] then Reference(s[..end], end)
    else if t.One(name) != 0 then Reference(Encode(t.One(name)), end)
    else if t.Two(name).0 != 0 then Reference(Encode(t.Two(name).0) + Encode(t.Two(name).1), end)
    else
      var j := PrefixEntity(t, name, Min(|name| - 1, LONGEST_ENTITY_WITHOUT_SEMICOLON));
      if j != 0 then Reference(Encode(t.One(name[..j])), j + 1) else Reference(s[..end], end)
  }

  /** What the '&' at the start of s stands for. */
  function ReferenceAt(t: Tables, s: seq<byte>): Reference
    requires s != []
  {
    if |s| <= 1 then LITERAL
    else if s[1] == HASH then NumericReference(s)
    else NamedReference(t, s)
  }

  /** A reference shrinks: what is written never outgrows what is read. */
  lemma ReferenceShrinks(t: Tables, s: seq<byte>)
    requires t.Valid() && s != []
    ensures var r := ReferenceAt(t, s); |r.out| <= r.consumed <= |s| && 1 <= r.consumed
  {
  }

  /** The text with every reference replaced, from left to right. */
  ghost function Unescape(t: Tables, s: seq<byte>): seq<byte>
    requires t.Valid()
    decreases |s|
  {
    if s == [] then []
    else if s[0] != AMP then [s[0]] + Unescape(t, s[1..])
    else
      ReferenceShrinks(t, s);
      var r := ReferenceAt(t, s);
      r.out + Unescape(t, s[r.consumed..])
  }

  // ---- The algorithm, in place ----

  /** One more digit read. */
  lemma DigitRead(s: seq<byte>, i: nat, j: nat, hex: bool, x: nat)
    requires i < j <= |s| && DigitValue(s[i], hex).Some?
    ensures DigitsEnd(s, i, hex) == DigitsEnd(s, i + 1, hex)
    ensures Number(s, i, j, hex, x) == Number(s, i + 1, j, hex, Base(hex) * x + DigitValue(s[i], hex).value)
  {
  }

  lemma DigitsDone(s: seq<byte>, i: nat, hex: bool, x: nat)
    requires i <= |s| && (i < |s| ==> DigitValue(s[i], hex) == None)
    ensures DigitsEnd(s, i, hex) == i && Number(s, i, i, hex, x) == x
  {
  }

  /** Reads the digits of s from `start` on; the accumulator is an int32. */
  method ReadDigits(s: seq<byte>, start: nat, hex: bool) returns (x: rune, i: nat)
    requires start <= |s|
    ensures i == PastSemicolon(s, DigitsEnd(s, start, hex))
    ensures x == Wrap32(Number(s, start, DigitsEnd(s, start, hex), hex, 0))
  {
    hide Number, DigitsEnd, DigitValue, Wrap32, Base;
    ZeroWraps();
    x, i := 0, start;
    ghost var exact: nat, digits := 0, DigitsEnd(s, start, hex);
    while i < |s|
      invariant start <= i <= |s| && DigitsEnd(s, i, hex) == digits
      invariant x == Wrap32(exact)
      invariant Number(s, i, digits, hex, exact) == Number(s, start, digits, hex, 0)
    {
      var d := DigitValue(s[i], hex);
      if d.None? {
        DigitsDone(s, i, hex, exact);
        i := i + 1;
        if s[i - 1] != SEMICOLON { i := i - 1; }
        return;
      }
      DigitRead(s, i, i + 1, hex, exact);
      DigitRead(s, i, digits, hex, exact);
      WrapStep(exact, Base(hex), d.value);
      x := Wrap32(Base(hex) * x + d.value);
      exact := Base(hex) * exact + d.value;
      i := i + 1;
    }
    DigitsDone(s, i, hex, exact);
  }

  lemma ZeroWraps()
    ensures Wrap32(0) == 0
  {
  }

  lemma WrapStep(x: int, base: nat, d: nat)
    ensures Wrap32(base * Wrap32(x) + d) == Wrap32(base * x + d)
  {
    var k := (x + TWO_32 / 2) / TWO_32;
    assert x == Wrap32(x) + k * TWO_32;
    assert base * x + d == base * Wrap32(x) + d + base * k * TWO_32;
    WrapMultiple(base * Wrap32(x) + d, base * k);
  }

  lemma WrapMultiple(x: int, k: int)
    ensures Wrap32(x + k * TWO_32) == Wrap32(x)
  {
    var y := x + TWO_32 / 2;
    var q, r := y / TWO_32, y % TWO_32;
    assert y + k * TWO_32 == (q + k) * TWO_32 + r;
  }

  /** The longest name at s[1..], and the semicolon if there is one. */
  method ReadName(s: seq<byte>) returns (i: nat)
    requires 1 <= |s|
    ensures i == PastSemicolon(s, NameEnd(s, 1))
  {
    i := 1;
    while i < |s|
      invariant 1 <= i <= |s| && NameEnd(s, i) == NameEnd(s, 1)
    {
      var c := s[i];
      i := i + 1;
      if IsAlnum(c) { continue; }
      if c != SEMICOLON { i := i - 1; }
      break;
    }
  }

  /** The state of the buffer while it is rewritten: out in front, then garbage, then
      the untouched tail of the input, which the output never overtakes. */
  ghost predicate Rewriting(b: array<byte>, out: seq<byte>, src: nat, tail: seq<byte>)
    reads b
  {
    |out| <= src <= b.Length && b[..|out|] == out && b[src..] == tail
  }

  /** Writes r at b[dst..], as long as it stays in front of the tail. */
  method WriteRune(b: array<byte>, dst: nat, r: rune, src: nat, ghost out: seq<byte>, ghost tail: seq<byte>)
    returns (n: nat)
    requires |out| == dst && dst + |Encode(r)| <= src && Rewriting(b, out, src, tail)
    modifies b
    ensures n == |Encode(r)| && Rewriting(b, out + Encode(r), src, tail)
  {
    hide Encode;
    n := EncodeRune(b, dst, r);
    assert b[..dst + n] == b[..dst] + b[dst..dst + n];
    assert b[src..] == b[dst + n..][src - dst - n..];
  }

  method WriteTwo(b: array<byte>, dst: nat, x: (rune, rune), src: nat, ghost out: seq<byte>, ghost tail: seq<byte>)
    returns (n: nat)
    requires |out| == dst && dst + |Encode(x.0)| + |Encode(x.1)| <= src && Rewriting(b, out, src, tail)
    modifies b
    ensures n == |Encode(x.0) + Encode(x.1)| && Rewriting(b, out + (Encode(x.0) + Encode(x.1)), src, tail)
  {
    hide Encode;
    n := WriteRune(b, dst, x.0, src, out, tail);
    var n1 := WriteRune(b, dst + n, x.1, src, out + Encode(x.0), tail);
    n := n + n1;
    assert out + Encode(x.0) + Encode(x.1) == out + (Encode(x.0) + Encode(x.1));
  }

  /** Copies consumed input bytes down to b[dst..]. */
  method CopyDown(b: array<byte>, dst: nat, bytes: seq<byte>, src: nat, ghost out: seq<byte>, ghost tail: seq<byte>)
    requires |out| == dst && dst + |bytes| <= src && Rewriting(b, out, src, tail)
    modifies b
    ensures Rewriting(b, out + bytes, src, tail)
  {
    forall k | 0 <= k < |bytes| { b[dst + k] := bytes[k]; }
    assert forall k | 0 <= k < dst :: b[k] == out[k];
    assert forall k | 0 <= k < |tail| :: b[src + k] == tail[k];
  }

  /** Writes the code point x in place of a numeric reference i bytes long. */
  method UnescapeNumeric(b: array<byte>, dst: nat, src: nat, s: seq<byte>, ghost out: seq<byte>)
    returns (dst1: nat, src1: nat)
    requires src < b.Length && s == b[src..] && 2 <= |s| && s[0] == AMP
    requires |out| == dst && Rewriting(b, out, src, s)
    modifies b
    ensures var r := NumericReference(s);
      dst1 == dst + |r.out| && src1 == src + r.consumed && Rewriting(b, out + r.out, src1, s[r.consumed..])
  {
    hide Encode, DigitsEnd, Number, Windows1252, Wrap32;
    if |s| <= 3 {
      CopyDown(b, dst, [AMP], src + 1, out, s[1..]);
      return dst + 1, src + 1;
    }
    var c := s[2];
    var hex := c == 0x78 || c == 0x58;
    var x, i := ReadDigits(s, if hex then 3 else 2, hex);
    if i <= 3 {
      CopyDown(b, dst, [AMP], src + 1, out, s[1..]);
      return dst + 1, src + 1;
    }
    if 0x80 <= x <= 0x9F {
      x := Windows1252(x);
    } else if x == 0 || 0xD800 <= x <= 0xDFFF || x > MAX_RUNE {
      x := RUNE_ERROR;
    }
    EncodeFits(x);
    RewritingDrop(b, out, src, s, i);
    var n := WriteRune(b, dst, x, src + i, out, s[i..]);
    return dst + n, src + i;
  }

  lemma EncodeFits(x: rune)
    ensures |Encode(x)| <= UTF_MAX
  {
  }

  method FindPrefixEntity(t: Tables, name: seq<byte>) returns (j: nat)
    requires name != []
    ensures j == PrefixEntity(t, name, Min(|name| - 1, LONGEST_ENTITY_WITHOUT_SEMICOLON))
    ensures j == 0 || (2 <= j < |name| && j <= LONGEST_ENTITY_WITHOUT_SEMICOLON && t.One(name[..j]) != 0)
    ensures forall m | 2 <= m < |name| && j < m <= LONGEST_ENTITY_WITHOUT_SEMICOLON :: t.One(name[..m]) == 0
  {
    var maxLen := |name| - 1;
    if maxLen > LONGEST_ENTITY_WITHOUT_SEMICOLON { maxLen := LONGEST_ENTITY_WITHOUT_SEMICOLON; }
    j := maxLen;
    while j > 1
      invariant j <= maxLen && PrefixEntity(t, name, j) == PrefixEntity(t, name, maxLen)
    {
      if t.One(name[..j]) != 0 { return; }
      j := j - 1;
    }
    j := 0;
  }

  method UnescapeNamed(t: Tables, b: array<byte>, dst: nat, src: nat, s: seq<byte>, ghost out: seq<byte>)
    returns (dst1: nat, src1: nat)
    requires t.Valid() && src < b.Length && s == b[src..] && 2 <= |s|
    requires |out| == dst && Rewriting(b, out, src, s)
    modifies b
    ensures var r := NamedReference(t, s);
      dst1 == dst + |r.out| && src1 == src + r.consumed && Rewriting(b, out + r.out, src1, s[r.consumed..])
  {
    hide Encode, NameEnd, PrefixEntity, PastSemicolon, Rewriting;
    var i := ReadName(s);
    var name := s[1..i];
    RewritingDrop(b, out, src, s, i);
    if |name| != 0 {
      var one, two := t.One(name), t.Two(name);
      if one != 0 {
        var n := WriteRune(b, dst, one, src + i, out, s[i..]);
        return dst + n, src + i;
      }
      if two.0 != 0 {
        var n := WriteTwo(b, dst, two, src + i, out, s[i..]);
        return dst + n, src + i;
      }
      var j := FindPrefixEntity(t, name);
      if j != 0 {
        var x := t.One(name[..j]);
        RewritingDrop(b, out, src, s, j + 1);
        var n := WriteRune(b, dst, x, src + (j + 1), out, s[j + 1..]);
        return dst + n, src + (j + 1);
      }
    }
    CopyDown(b, dst, s[..i], src + i, out, s[i..]);
    return dst + i, src + i;
  }

  method UnescapeEntity(t: Tables, b: array<byte>, dst: nat, src: nat, ghost out: seq<byte>)
    returns (dst1: nat, src1: nat)
    requires t.Valid() && src < b.Length && b[src] == AMP
    requires |out| == dst && Rewriting(b, out, src, b[src..])
    modifies b
    ensures var s := old(b[src..]); var r := ReferenceAt(t, s);
      && r.consumed <= |s| && dst1 == dst + |r.out| && src1 == src + r.consumed
      && Rewriting(b, out + r.out, src1, s[r.consumed..])
  {
    hide NumericReference, NamedReference;
    var s := b[src..];
    ReferenceShrinks(t, s);
    if |s| <= 1 {
      CopyDown(b, dst, [AMP], src + 1, out, s[1..]);
      return dst + 1, src + 1;
    }
    if s[1] == HASH {
      dst1, src1 := UnescapeNumeric(b, dst, src, s, out);
    } else {
      dst1, src1 := UnescapeNamed(t, b, dst, src, s, out);
    }
  }

  lemma IndexAmp(t: Tables, s: seq<byte>)
    requires t.Valid()
    ensures var i := IndexByte(s, AMP); var k := if i < 0 then |s| else i;
      Unescape(t, s) == s[..k] + Unescape(t, s[k..])
  {
    hide Unescape, IndexByte;
    var i := IndexByte(s, AMP);
    PlainRun(t, s, if i < 0 then |s| else i);
  }

  lemma {:induction false} PlainRun(t: Tables, s: seq<byte>, k: nat)
    requires t.Valid() && k <= |s| && forall j | 0 <= j < k :: s[j] != AMP
    ensures Unescape(t, s) == s[..k] + Unescape(t, s[k..])
    decreases k
  {
    hide Unescape;
    if k == 0 {
      assert s[0..] == s;
    } else {
      PlainStep(t, s);
      PlainRun(t, s[1..], k - 1);
      DropDrop(s, 1, k - 1);
      Associate([s[0]], s[1..k], Unescape(t, s[k..]));
      assert s[..k] == [s[0]] + s[1..k];
    }
  }

  lemma PlainStep(t: Tables, s: seq<byte>)
    requires t.Valid() && s != [] && s[0] != AMP
    ensures Unescape(t, s) == [s[0]] + Unescape(t, s[1..])
  {
  }

  lemma ReferenceStep(t: Tables, s: seq<byte>)
    requires t.Valid() && s != [] && s[0] == AMP
    ensures var r := ReferenceAt(t, s);
      1 <= r.consumed <= |s| && Unescape(t, s) == r.out + Unescape(t, s[r.consumed..])
  {
    ReferenceShrinks(t, s);
  }

  /** Copies i plain bytes and rewrites the reference behind them. */
  method CopyAndUnescape(t: Tables, b: array<byte>, s: seq<byte>, dst: nat, src: nat, i: nat, ghost out: seq<byte>)
    returns (dst1: nat, src1: nat, ghost out1: seq<byte>)
    requires t.Valid() && b.Length == |s| && src + i < |s| && s[src + i] == AMP
    requires |out| == dst && Rewriting(b, out, src, s[src..])
    requires Unescape(t, s[src..]) == s[src..src + i] + Unescape(t, s[src + i..])
    modifies b
    ensures src < src1 <= |s| && |out1| == dst1 && Rewriting(b, out1, src1, s[src1..])
    ensures out1 + Unescape(t, s[src1..]) == out + Unescape(t, s[src..])
  {
    hide ReferenceAt, Unescape, Rewriting;
    ghost var tail, plain := s[src + i..], s[src..src + i];
    AfterReference(t, s, src, i, out);
    RewritingDrop(b, out, src, s[src..], i);
    DropDrop(s, src, i);
    CopyDown(b, dst, s[src..src + i], src + i, out, tail);
    RewritingTail(b, out + plain, src + i, tail);
    dst1, src1 := UnescapeEntity(t, b, dst + i, src + i, out + plain);
    out1 := out + plain + ReferenceAt(t, tail).out;
  }

  lemma RewritingTail(b: array<byte>, out: seq<byte>, src: nat, tail: seq<byte>)
    requires Rewriting(b, out, src, tail) && tail != []
    ensures src < b.Length && b[src..] == tail && b[src] == tail[0]
  {
    assert b[src] == b[src..][0];
  }

  lemma RewritingDrop(b: array<byte>, out: seq<byte>, src: nat, tail: seq<byte>, i: nat)
    requires Rewriting(b, out, src, tail) && i <= |tail|
    ensures Rewriting(b, out, src + i, tail[i..])
    ensures |out| <= src && src + |tail| == b.Length
  {
    assert b[src + i..] == b[src..][i..];
  }

  /** What a copied stretch and the reference behind it contribute. */
  lemma AfterReference(t: Tables, s: seq<byte>, src: nat, i: nat, out: seq<byte>)
    requires t.Valid() && src + i < |s| && s[src + i] == AMP
    requires Unescape(t, s[src..]) == s[src..src + i] + Unescape(t, s[src + i..])
    ensures var r := ReferenceAt(t, s[src + i..]);
      && 1 <= r.consumed <= |s| - src - i
      && s[src + i..][r.consumed..] == s[src + i + r.consumed..]
      && out + s[src..src + i] + r.out + Unescape(t, s[src + i + r.consumed..]) == out + Unescape(t, s[src..])
  {
    hide ReferenceAt, Unescape;
    ReferenceStep(t, s[src + i..]);
    var r := ReferenceAt(t, s[src + i..]);
    DropDrop(s, src + i, r.consumed);
    Regroup(out, s[src..src + i], r.out, Unescape(t, s[src + i + r.consumed..]));
  }

  lemma Finished(t: Tables, out: seq<byte>, s: seq<byte>, whole: seq<byte>)
    requires t.Valid() && out + Unescape(t, s) == whole
    ensures s == [] ==> out == whole
    ensures Unescape(t, s) == s ==> out + s == whole
  {
  }

  method UnescapeString(t: Tables, s: seq<byte>) returns (r: seq<byte>)
    requires t.Valid()
    ensures r == Unescape(t, s) && |r| <= |s|
  {
    hide ReferenceAt, Unescape, IndexByte;
    var i := IndexByte(s, AMP);
    PlainText(t, s);
    if i < 0 { return s; }
    IndexAmp(t, s);
    assert s[0..] == s;
    var b := new byte[|s|](k requires 0 <= k < |s| => s[k]);
    assert b[..] == s && b[0..] == b[..];
    var dst, src, out := CopyAndUnescape(t, b, s, 0, 0, i, []);
    while |s[src..]| > 0
      invariant src <= |s| == b.Length && |out| == dst && Rewriting(b, out, src, s[src..])
      invariant out + Unescape(t, s[src..]) == Unescape(t, s)
      decreases |s| - src
    {
      var rest := s[src..];
      IndexAmp(t, rest);
      i := if s[src] == AMP then 0 else IndexByte(rest, AMP);
      Finished(t, out, rest, Unescape(t, s));
      if i < 0 {
        PlainText(t, rest);
        CopyTail(b, dst, rest, src, out);
        return b[..dst + |rest|];
      }
      DropDrop(s, src, i);
      dst, src, out := CopyAndUnescape(t, b, s, dst, src, i, out);
    }
    Finished(t, out, s[src..], Unescape(t, s));
    return b[..dst];
  }

  /** The last stretch of plain text. */
  method CopyTail(b: array<byte>, dst: nat, rest: seq<byte>, src: nat, ghost out: seq<byte>)
    requires |out| == dst && src + |rest| == b.Length && Rewriting(b, out, src, rest)
    modifies b
    ensures dst + |rest| <= b.Length && b[..dst + |rest|] == out + rest
  {
    CopyDown(b, dst, rest, b.Length, out, b[b.Length..]);
  }

  /** Text without '&' stays as it is. */
  lemma PlainText(t: Tables, s: seq<byte>)
    requires t.Valid()
    ensures IndexByte(s, AMP) < 0 ==> Unescape(t, s) == s
  {
    hide ReferenceAt, IndexByte;
    IndexAmp(t, s);
    assert s[|s|..] == [] && s[..|s|] == s;
  }

  // ---- Escaping, and the way back ----

  function EscapeByte(c: byte): seq<byte> {
    if c == AMP then [AMP] + AMP_NAME
    else if c == 0x27 then [AMP, HASH, 0x33, 0x39, SEMICOLON]
    else if c == 0x3C then [AMP] + LT_NAME
    else if c == 0x3E then [AMP] + GT_NAME
    else if c == 0x22 then [AMP, HASH, 0x33, 0x34, SEMICOLON]
    else [c]
  }

  /** EscapeString: one pass over the bytes, five of which are replaced. */
  function Escape(s: seq<byte>): seq<byte> {
    if s == [] then [] else EscapeByte(s[0]) + Escape(s[1..])
  }

  /** A name of letters closed by a semicolon is read as a whole. */
  lemma {:induction false} NameRead(s: seq<byte>, i: nat, j: nat)
    requires i <= j < |s| && (forall k | i <= k < j :: IsAlnum(s[k])) && s[j] == SEMICOLON
    ensures NameEnd(s, i) == j
    decreases j - i
  {
    if i < j { NameRead(s, i + 1, j); }
  }

  /** Each of the three named entities reads back, whatever follows it. */
  lemma NamedReads(t: Tables, name: seq<byte>, rest: seq<byte>, c: byte)
    requires t.Valid() && (name, c) in {(AMP_NAME, 0x26), (LT_NAME, 0x3C), (GT_NAME, 0x3E)}
    ensures ReferenceAt(t, [AMP] + name + rest) == Reference([c], 1 + |name|)
  {
    hide NumericReference;
    var s := [AMP] + name + rest;
    NameRead(s, 1, |name|);
    assert s[1..1 + |name|] == name;
  }

  /** So do the two numeric ones. */
  lemma NumericReads(t: Tables, s: seq<byte>, digit: byte)
    requires digit == 0x39 || digit == 0x34
    requires 5 <= |s| && s[1] == HASH && s[2] == 0x33 && s[3] == digit && s[4] == SEMICOLON
    ensures ReferenceAt(t, s) == Reference([if digit == 0x39 then 0x27 else 0x22], 5)
  {
    var value := 30 + digit as int - 0x30;
    DigitRead(s, 2, 4, false, 0);
    DigitRead(s, 3, 4, false, 3);
    DigitsDone(s, 4, false, value);
    SmallValue(value);
    hide NamedReference, NumericRune, Encode, Wrap32, DigitsEnd, Number;
  }

  lemma SmallValue(value: nat)
    requires 0 < value < 0x80
    ensures Encode(NumericRune(Wrap32(value))) == [value]
  {
    WrapSmall(value);
    hide Wrap32, Windows1252;
  }

  lemma WrapSmall(x: int)
    requires 0 <= x < TWO_32 / 2
    ensures Wrap32(x) == x
  {
  }

  lemma EscapeByteReads(t: Tables, c: byte, rest: seq<byte>)
    requires t.Valid()
    ensures Unescape(t, EscapeByte(c) + rest) == [c] + Unescape(t, rest)
  {
    hide ReferenceAt;
    var e := EscapeByte(c);
    var s := e + rest;
    assert s[|e|..] == rest;
    if c == AMP {
      NamedReads(t, AMP_NAME, rest, c);
    } else if c == 0x3C {
      NamedReads(t, LT_NAME, rest, c);
    } else if c == 0x3E {
      NamedReads(t, GT_NAME, rest, c);
    } else if c == 0x27 {
      NumericReads(t, s, 0x39);
    } else if c == 0x22 {
      NumericReads(t, s, 0x34);
    }
  }

  /** Unescaping undoes escaping, for every string. */
  lemma {:induction false} UnescapeEscape(t: Tables, s: seq<byte>)
    requires t.Valid()
    ensures Unescape(t, Escape(s)) == s
  {
    hide EscapeByte, Unescape;
    if s == [] {
      PlainText(t, []);
    } else {
      EscapeByteReads(t, s[0], Escape(s[1..]));
      UnescapeEscape(t, s[1..]);
    }
  }

  // ---- Numeric references and the HTML standard ----

  /** The table of section 13.2.5.80 of the HTML standard; other values stay as they are. */
  function StandardControl(value: nat): rune {
    match value
    case 0x80 => 0x20AC case 0x82 => 0x201A case 0x83 => 0x0192 case 0x84 => 0x201E case 0x85 => 0x2026
    case 0x86 => 0x2020 case 0x87 => 0x2021 case 0x88 => 0x02C6 case 0x89 => 0x2030 case 0x8A => 0x0160
    case 0x8B => 0x2039 case 0x8C => 0x0152 case 0x8E => 0x017D case 0x91 => 0x2018 case 0x92 => 0x2019
    case 0x93 => 0x201C case 0x94 => 0x201D case 0x95 => 0x2022 case 0x96 => 0x2013 case 0x97 => 0x2014
    case 0x98 => 0x02DC case 0x99 => 0x2122 case 0x9A => 0x0161 case 0x9B => 0x203A case 0x9C => 0x0153
    case 0x9E => 0x017E case 0x9F => 0x0178
    case _ => value
  }

  /** The numeric character reference end state of the same section, for the exact value
      of the digits. */
  function StandardRune(value: nat): rune {
    if value == 0 || value > 0x10FFFF || 0xD800 <= value <= 0xDFFF then 0xFFFD
    else StandardControl(value)
  }

  /** The replacements are those of the standard. */
  lemma ReplacementsAgree(x: rune)
    requires 0x80 <= x <= 0x9F
    ensures Windows1252(x) == StandardControl(x)
  {
  }

  /** The value fits in 32 bits, or what wrapping leaves of it is written as U+FFFD. */
  predicate SurvivesWrapping(value: nat) {
    value < TWO_32 || RuneLen(value % TWO_32) == -1 || value % TWO_32 in {0, RUNE_ERROR}
  }

  /** Because the accumulator is an int32, the standard is met exactly then. */
  lemma NumericStandard(value: nat)
    ensures Encode(NumericRune(Wrap32(value))) == Encode(StandardRune(value)) <==> SurvivesWrapping(value)
  {
    hide NumericRune, Encode, Wrap32, StandardRune;
    if value < TWO_32 { NumericSmall(value); } else { NumericLarge(value); }
  }

  lemma NumericSmall(value: nat)
    requires value < TWO_32
    ensures Encode(NumericRune(Wrap32(value))) == Encode(StandardRune(value))
  {
    hide Encode, Windows1252, StandardControl;
    if 0x80 <= value <= 0x9F { ReplacementsAgree(value); } else { NoControl(value); }
    ErrorEncoding(NumericRune(Wrap32(value)));
  }

  lemma NoControl(value: nat)
    requires !(0x80 <= value <= 0x9F)
    ensures StandardControl(value) == value
  {
  }

  lemma NumericLarge(value: nat)
    requires TWO_32 <= value
    ensures Encode(NumericRune(Wrap32(value))) == Encode(StandardRune(value))
        <==> RuneLen(value % TWO_32) == -1 || value % TWO_32 in {0, RUNE_ERROR}
  {
    hide Encode, Windows1252;
    var w := value % TWO_32;
    var r := NumericRune(Wrap32(value));
    assert StandardRune(value) == RUNE_ERROR;
    ErrorEncoding(r);
    if 0x80 <= w <= 0x9F { Windows1252Encodes(w); }
    if RuneLen(w) != -1 && w != 0 { EncodeInjective(r, RUNE_ERROR); }
  }

  lemma Windows1252Encodes(x: rune)
    requires 0x80 <= x <= 0x9F
    ensures RuneLen(Windows1252(x)) != -1 && Windows1252(x) != RUNE_ERROR
  {
  }

  /** What cannot be encoded is written as U+FFFD. */
  lemma ErrorEncoding(r: rune)
    ensures RuneLen(r) == -1 ==> Encode(r) == Encode(RUNE_ERROR)
  {
  }

  lemma EncodeInjective(r: rune, q: rune)
    requires RuneLen(r) != -1 && RuneLen(q) != -1
    ensures Encode(r) == Encode(q) ==> r == q
  {
    DecodeEncode(r, []);
    DecodeEncode(q, []);
  }

  /** A numeric reference as the standard has it: left alone without a digit, else
      replaced by what its exact value stands for. */
  function StandardReference(s: seq<byte>): Reference
    requires 2 <= |s|
  {
    var hex := IsHex(s);
    var start := if hex then 3 else 2;
    var digits := DigitsEnd(s, start, hex);
    if digits == start then LITERAL
    else Reference(Encode(StandardRune(Number(s, start, digits, hex, 0))), PastSemicolon(s, digits))
  }

  /** The standard leaves a numeric reference as text exactly when it has no digits. The
      code does the same unless the reference is a single decimal digit without a
      semicolon, which it leaves alone, or "&#x;", which it replaces. */
  lemma NumericLeftAlone(s: seq<byte>)
    requires 2 <= |s|
    ensures var hex := IsHex(s);
      var start := if hex then 3 else 2;
      var digits := DigitsEnd(s, start, hex);
      var semicolon := digits < |s| && s[digits] == SEMICOLON;
      (NumericReference(s) == LITERAL <==> digits == start) <==> !(digits == 3 && hex == semicolon)
  {
  }

  /** The code reads a numeric reference as the standard does if and only if
      - it is neither a single decimal digit without a semicolon, which the code leaves
        alone, nor "&#x;", which it replaces; and
      - if it has digits, their value fits in 32 bits, or what wrapping leaves of it is
        zero, U+FFFD or no code point. */
  lemma NumericMeetsStandard(s: seq<byte>)
    requires 2 <= |s|
    ensures var hex := IsHex(s);
      var start := if hex then 3 else 2;
      var digits := DigitsEnd(s, start, hex);
      var semicolon := digits < |s| && s[digits] == SEMICOLON;
      var value := Number(s, start, digits, hex, 0);
      var met := NumericReference(s) == StandardReference(s);
      met <==> !(digits == 3 && hex == semicolon) && (digits == start || SurvivesWrapping(value))
  {
    hide NumericRune, Encode, Wrap32, StandardRune, SurvivesWrapping, Number;
    var hex := IsHex(s);
    var start := if hex then 3 else 2;
    NumericStandard(Number(s, start, DigitsEnd(s, start, hex), hex, 0));
  }

  /** "&#4294967334;" */
  const WRAPPING: seq<byte> :=
    [AMP, HASH, 0x34, 0x32, 0x39, 0x34, 0x39, 0x36, 0x37, 0x33, 0x33, 0x34, SEMICOLON]

  lemma WrappingHead()
    ensures DigitsEnd(WRAPPING, 2, false) == DigitsEnd(WRAPPING, 7, false)
    ensures Number(WRAPPING, 2, 12, false, 0) == Number(WRAPPING, 7, 12, false, 42949)
  {
    hide Number, DigitsEnd;
    DigitRead(WRAPPING, 2, 12, false, 0);
    DigitRead(WRAPPING, 3, 12, false, 4);
    DigitRead(WRAPPING, 4, 12, false, 42);
    DigitRead(WRAPPING, 5, 12, false, 429);
    DigitRead(WRAPPING, 6, 12, false, 4294);
  }

  lemma WrappingValue()
    ensures DigitsEnd(WRAPPING, 2, false) == 12 && Number(WRAPPING, 2, 12, false, 0) == 4294967334
  {
    hide Number, DigitsEnd;
    WrappingHead();
    DigitRead(WRAPPING, 7, 12, false, 42949);
    DigitRead(WRAPPING, 8, 12, false, 429496);
    DigitRead(WRAPPING, 9, 12, false, 4294967);
    DigitRead(WRAPPING, 10, 12, false, 42949673);
    DigitRead(WRAPPING, 11, 12, false, 429496733);
    DigitsDone(WRAPPING, 12, false, 4294967334);
  }

  lemma WrappedValue()
    ensures Wrap32(4294967334) == AMP as int
  {
  }

  /** It unescapes to '&', where the standard has U+FFFD. */
  lemma WrapsToAmpersand(t: Tables)
    requires t.Valid()
    ensures Unescape(t, WRAPPING) == [AMP]
    ensures StandardReference(WRAPPING) == Reference([0xEF, 0xBF, 0xBD], |WRAPPING|)
  {
    hide Number, DigitsEnd, Unescape, Wrap32, Windows1252, NamedReference;
    WrappingValue();
    WrappedValue();
    assert ReferenceAt(t, WRAPPING) == Reference([AMP], 13);
    hide NumericReference;
    ReferenceStep(t, WRAPPING);
    PlainText(t, []);
    assert WRAPPING[13..] == [];
  }
}
