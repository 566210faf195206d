/** What escaping and unescaping come to on text, written out in bytes. */
module HtmlLaws {
  import opened Utf8
  import opened Io
  import opened Basics
  import opened Html

  // ---- Escaping ----

  lemma {:induction false} EscapeConcat(a: seq<byte>, b: seq<byte>)
    ensures Escape(a + b) == Escape(a) + Escape(b)
  {
    hide EscapeByte;
    if a == [] {
      assert a + b == b;
    } else {
      assert (a + b)[1..] == a[1..] + b;
      EscapeConcat(a[1..], b);
    }
  }

  /** Five bytes are replaced, by these texts. */
  lemma EscapeOne(c: byte)
    ensures Escape([c]) ==
            if c == 0x26 then [0x26, 0x61, 0x6D, 0x70, 0x3B]        // "&amp;"
            else if c == 0x3C then [0x26, 0x6C, 0x74, 0x3B]         // "&lt;"
            else if c == 0x3E then [0x26, 0x67, 0x74, 0x3B]         // "&gt;"
            else if c == 0x22 then [0x26, 0x23, 0x33, 0x34, 0x3B]   // "&#34;"
            else if c == 0x27 then [0x26, 0x23, 0x33, 0x39, 0x3B]   // "&#39;"
            else [c]
  {
    assert Escape([]) == [];
  }

  /** One of the five texts starts at k. */
  predicate ReplacementAt(s: seq<byte>, k: nat)
    requires k <= |s|
  {
    || [0x26, 0x61, 0x6D, 0x70, 0x3B] <= s[k..] || [0x26, 0x6C, 0x74, 0x3B] <= s[k..]
    || [0x26, 0x67, 0x74, 0x3B] <= s[k..] || [0x26, 0x23, 0x33, 0x34, 0x3B] <= s[k..]
    || [0x26, 0x23, 0x33, 0x39, 0x3B] <= s[k..]
  }

  lemma EscapedByte(c: byte, rest: seq<byte>, k: nat)
    requires k < |Escape([c])|
    ensures var s := Escape([c]) + rest;
      s[k] !in {0x22, 0x27, 0x3C, 0x3E} && (s[k] == 0x26 ==> ReplacementAt(s, k))
  {
    EscapeOne(c);
    hide Escape;
    var s := Escape([c]) + rest;
    assert s[0..] == s;
  }

  /** In an escaped text there is no '<', no '>' and no quote, and every '&' starts one of
      the five texts. */
  lemma {:induction false} EscapedIsSafe(s: seq<byte>, k: nat)
    requires k < |Escape(s)|
    ensures Escape(s)[k] !in {0x22, 0x27, 0x3C, 0x3E}
    ensures Escape(s)[k] == 0x26 ==> ReplacementAt(Escape(s), k)
  {
    hide EscapeByte, ReplacementAt;
    var head, tail := Escape([s[0]]), Escape(s[1..]);
    assert s == [s[0]] + s[1..];
    EscapeConcat([s[0]], s[1..]);
    if k < |head| {
      EscapedByte(s[0], tail, k);
    } else {
      EscapedIsSafe(s[1..], k - |head|);
      if tail[k - |head|] == 0x26 { ReplacementShifts(head, tail, k - |head|); }
    }
  }

  lemma ReplacementShifts(a: seq<byte>, b: seq<byte>, k: nat)
    requires k <= |b| && ReplacementAt(b, k)
    ensures ReplacementAt(a + b, |a| + k)
  {
    assert (a + b)[|a| + k..] == b[k..];
  }

  // ---- Numerals ----

  const LOWER_DIGITS: seq<byte> :=
    [0x30, 0x31, 0x32, 0x33, 0x34, 0x35, 0x36, 0x37, 0x38, 0x39, 0x61, 0x62, 0x63, 0x64, 0x65, 0x66]

  const UPPER_DIGITS: seq<byte> :=
    [0x30, 0x31, 0x32, 0x33, 0x34, 0x35, 0x36, 0x37, 0x38, 0x39, 0x41, 0x42, 0x43, 0x44, 0x45, 0x46]

  predicate IsDigit(c: byte, d: nat)
    requires d < 16
  {
    c == LOWER_DIGITS[d] || c == UPPER_DIGITS[d]
  }

  /** The digits write the number n to that base, leading zeros permitted. */
  predicate Spells(digits: seq<byte>, n: nat, base: nat)
    requires base == 10 || base == 16
  {
    if digits == [] then n == 0
    else
      var k := |digits| - 1;
      IsDigit(digits[k], n % base) && Spells(digits[..k], n / base, base)
  }

  lemma DigitIsDigit(c: byte, d: nat, hex: bool)
    requires d < Base(hex) && IsDigit(c, d)
    ensures DigitValue(c, hex) == Some(d)
  {
  }

  lemma {:induction false} NumberSnoc(s: seq<byte>, i: nat, j: nat, hex: bool, x: nat)
    requires i <= j < |s| && DigitValue(s[j], hex).Some?
    ensures Number(s, i, j + 1, hex, x) == Base(hex) * Number(s, i, j, hex, x) + DigitValue(s[j], hex).value
    decreases j - i
  {
    hide DigitValue, Base;
    if i < j {
      var d := DigitValue(s[i], hex);
      NumberSnoc(s, i + 1, j, hex, Base(hex) * x + (if d.Some? then d.value else 0));
    }
  }

  lemma {:induction false} NumberOfDigits(s: seq<byte>, i: nat, digits: seq<byte>, hex: bool, n: nat)
    requires i + |digits| <= |s| && s[i..i + |digits|] == digits && Spells(digits, n, Base(hex))
    ensures Number(s, i, i + |digits|, hex, 0) == n
    ensures forall k | i <= k < i + |digits| :: DigitValue(s[k], hex).Some?
    decreases |digits|
  {
    hide DigitValue, IsDigit;
    if digits != [] {
      var k, base := |digits| - 1, Base(hex);
      assert s[i + k] == s[i..i + |digits|][k] == digits[k];
      assert s[i..i + k] == s[i..i + |digits|][..k];
      NumberOfDigits(s, i, digits[..k], hex, n / base);
      DigitIsDigit(digits[k], n % base, hex);
      NumberSnoc(s, i, i + k, hex, 0);
    }
  }

  lemma {:induction false} DigitsEndAt(s: seq<byte>, i: nat, j: nat, hex: bool)
    requires i <= j <= |s| && (forall k | i <= k < j :: DigitValue(s[k], hex).Some?)
    requires j < |s| ==> DigitValue(s[j], hex) == None
    ensures DigitsEnd(s, i, hex) == j
    decreases j - i
  {
    hide DigitValue;
    if i < j { DigitsEndAt(s, i + 1, j, hex); }
  }

  /** The text goes on with a digit, or with a semicolon. */
  predicate GoesOn(rest: seq<byte>, base: nat)
    requires base == 10 || base == 16
  {
    rest != [] && (rest[0] == 0x3B || exists d: nat | d < base :: IsDigit(rest[0], d))
  }

  /** "&#", "&#x" or "&#X", the digits, and perhaps a semicolon. */
  function NumericText(x: seq<byte>, digits: seq<byte>, semicolon: bool): seq<byte> {
    [0x26, 0x23] + x + digits + (if semicolon then [0x3B] else [])
  }

  lemma NoDigit(c: byte, hex: bool)
    requires c == 0x3B || forall d: nat | d < Base(hex) :: !IsDigit(c, d)
    ensures DigitValue(c, hex) == None
  {
    var v := DigitValue(c, hex);
    if v.Some? { assert v.value < Base(hex) && IsDigit(c, v.value); }
  }

  /** Where the parts of a numeric reference are. */
  lemma NumericParts(x: seq<byte>, digits: seq<byte>, semicolon: bool, rest: seq<byte>)
    requires x in {[], [0x78], [0x58]} && digits != []
    ensures var s, start := NumericText(x, digits, semicolon) + rest, 2 + |x|;
      var end := start + |digits|;
      && end <= |s| && s[0] == 0x26 && s[1] == 0x23 && s[start..end] == digits && s[start] == digits[0]
      && s[end..] == (if semicolon then [0x3B] else []) + rest
      && (x != [] ==> s[2] == x[0])
      && (semicolon ==> s[end] == 0x3B && s[end + 1..] == rest)
      && (!semicolon ==> s[end..] == rest && (rest != [] ==> s[end] == rest[0]))
  {
  }

  /** A numeral is read to its end, and for what it says. */
  lemma NumeralReads(x: seq<byte>, digits: seq<byte>, n: nat, semicolon: bool, rest: seq<byte>)
    requires x in {[], [0x78], [0x58]} && digits != [] && Spells(digits, n, if x == [] then 10 else 16)
    requires !semicolon ==> (x != [] || 2 <= |digits|) && !GoesOn(rest, if x == [] then 10 else 16)
    ensures var text := NumericText(x, digits, semicolon);
      NumericReference(text + rest) == Reference(Encode(NumericRune(Wrap32(n))), |text|)
  {
    hide Spells, IsDigit, Encode, NumericRune, Wrap32, DigitValue;
    var s, hex := NumericText(x, digits, semicolon) + rest, x != [];
    var start := 2 + |x|;
    var end := start + |digits|;
    NumericParts(x, digits, semicolon, rest);
    NumberOfDigits(s, start, digits, hex, n);
    if end < |s| { NoDigit(s[end], hex); }
    DigitsEndAt(s, start, end, hex);
    DecimalIsNotHex(s[start]);
    hide Number, DigitsEnd;
  }

  lemma DecimalIsNotHex(c: byte)
    ensures DigitValue(c, false).Some? ==> c != 0x78 && c != 0x58
  {
  }

  /** A numeral below 2^32, in hexadecimal or decimal digits, upper or lower case, with or
      without a semicolon, stands for its code point. Zero, surrogates and what is beyond
      the last code point stand for U+FFFD, and the C1 controls for what the table says. */
  lemma NumeralUnescapes(t: Tables, x: seq<byte>, digits: seq<byte>, n: nat, semicolon: bool, rest: seq<byte>)
    requires t.Valid() && n < 0x1_0000_0000
    requires x in {[], [0x78], [0x58]} && digits != [] && Spells(digits, n, if x == [] then 10 else 16)
    requires !semicolon ==> (x != [] || 2 <= |digits|) && !GoesOn(rest, if x == [] then 10 else 16)
    ensures Unescape(t, NumericText(x, digits, semicolon) + rest)
         == (if n == 0 || 0xD800 <= n <= 0xDFFF || 0x10FFFF < n then [0xEF, 0xBF, 0xBD]
             else if 0x80 <= n <= 0x9F then Encode(StandardControl(n))
             else Encode(n)) + Unescape(t, rest)
  {
    hide Spells, GoesOn, NumericReference, NamedReference, NumericRune, Unescape;
    var text := NumericText(x, digits, semicolon);
    NumeralReads(x, digits, n, semicolon, rest);
    NumericSmall(n);
    NoControl(if 0x80 <= n <= 0x9F then 0 else n);
    NumericParts(x, digits, semicolon, rest);
    ReferenceStep(t, text + rest);
    assert (text + rest)[|text|..] == rest;
  }

  // ---- Names ----

  predicate LetterOrDigit(c: byte) {
    0x30 <= c <= 0x39 || 0x41 <= c <= 0x5A || 0x61 <= c <= 0x7A
  }

  /** The longest name, with its semicolon, decides: one code point, else two, else those
      of its longest proper prefix of two to six bytes that is a name (k bytes; 0 if
      there is none), else it stays as it is. */
  lemma NameUnescapes(t: Tables, name: seq<byte>, semicolon: bool, rest: seq<byte>, k: nat)
    requires t.Valid() && name != [] && forall c | c in name :: LetterOrDigit(c)
    requires !semicolon ==> rest == [] || (!LetterOrDigit(rest[0]) && rest[0] != 0x3B)
    requires var full := name + (if semicolon then [0x3B] else []);
      && (k == 0 || (2 <= k <= 6 && k < |full| && IsName(t, full[..k])))
      && forall m | k < m <= 6 && 2 <= m < |full| :: !IsName(t, full[..m])
    ensures var full := name + (if semicolon then [0x3B] else []);
      Unescape(t, [0x26] + full + rest)
      == if IsName(t, full) then Encode(t.entity[full]) + Unescape(t, rest)
         else if full in t.entity2 && t.entity2[full].0 != 0 then
           Encode(t.entity2[full].0) + Encode(t.entity2[full].1) + Unescape(t, rest)
         else if k != 0 then Encode(t.entity[full[..k]]) + Unescape(t, full[k..] + rest)
         else [0x26] + full + Unescape(t, rest)
  {
    hide Unescape, NumericReference, Encode, NamedReference;
    var full := name + (if semicolon then [0x3B] else []);
    var s := [0x26] + full + rest;
    NameEndsThere(name, semicolon, rest);
    NameParts(full, rest, k);
    NameReads(t, s, full, k);
    ReferenceStep(t, s);
  }

  lemma NameParts(full: seq<byte>, rest: seq<byte>, k: nat)
    requires full != [] && k <= |full|
    ensures var s := [0x26] + full + rest;
      && s[1..1 + |full|] == full && s[..1 + |full|] == [0x26] + full
      && s[1 + |full|..] == rest && s[1 + k..] == full[k..] + rest
  {
    var s := [0x26] + full + rest;
    assert s[1 + k..] == (full + rest)[k..];
  }

  /** What the name read at the start of s stands for, and how much of s it takes up. */
  lemma NameReads(t: Tables, s: seq<byte>, full: seq<byte>, k: nat)
    requires full != [] && 1 + |full| <= |s| && s[1..1 + |full|] == full && s[..1 + |full|] == [0x26] + full
    requires PastSemicolon(s, NameEnd(s, 1)) == 1 + |full|
    requires k == 0 || (2 <= k <= 6 && k < |full| && IsName(t, full[..k]))
    requires forall m | k < m <= 6 && 2 <= m < |full| :: !IsName(t, full[..m])
    ensures NamedReference(t, s)
         == if IsName(t, full) then Reference(Encode(t.entity[full]), 1 + |full|)
            else if full in t.entity2 && t.entity2[full].0 != 0 then
              Reference(Encode(t.entity2[full].0) + Encode(t.entity2[full].1), 1 + |full|)
            else if k != 0 then Reference(Encode(t.entity[full[..k]]), 1 + k)
            else Reference([0x26] + full, 1 + |full|)
  {
    hide Encode, NameEnd, PastSemicolon;
    assert forall m | 0 <= m <= |full| :: t.One(full[..m]) != 0 <==> IsName(t, full[..m]);
    assert full[..|full|] == full;
  }

  /** The table has a code point, other than zero, for that name. */
  predicate IsName(t: Tables, name: seq<byte>) {
    name in t.entity && t.entity[name] != 0
  }

  lemma {:induction false} NameRun(s: seq<byte>, i: nat, j: nat)
    requires i <= j <= |s| && (forall m | i <= m < j :: LetterOrDigit(s[m])) && (j < |s| ==> !LetterOrDigit(s[j]))
    ensures NameEnd(s, i) == j
    decreases j - i
  {
    if i < j { NameRun(s, i + 1, j); }
  }

  lemma NameEndsThere(name: seq<byte>, semicolon: bool, rest: seq<byte>)
    requires forall c | c in name :: LetterOrDigit(c)
    requires !semicolon ==> rest == [] || (!LetterOrDigit(rest[0]) && rest[0] != 0x3B)
    ensures var full := name + (if semicolon then [0x3B] else []);
      var s := [0x26] + full + rest;
      PastSemicolon(s, NameEnd(s, 1)) == 1 + |full|
  {
    var s := [0x26] + (name + (if semicolon then [0x3B] else [])) + rest;
    assert forall m | 1 <= m < 1 + |name| :: s[m] == name[m - 1];
    NameRun(s, 1, 1 + |name|);
  }
}
