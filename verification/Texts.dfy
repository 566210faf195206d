/** What the byte algorithms come to on the runes of a text: splitting into runes, words
    and fields, for any bytes, with each byte that starts no rune standing for itself. */
module Texts {
  import opened Utf8
  import opened Io
  import opened Basics
  import opened SplitFunc
  import opened Splits
  import opened ByteSplit
  import opened ByteFields

  /** The runes of s as decoding finds them. */
  function RunesOf(s: seq<byte>): seq<rune>
    decreases |s|
  {
    if s == [] then [] else [DecodeRune(s).r] + RunesOf(s[DecodeRune(s).size..])
  }

  function Text(rs: seq<rune>): seq<byte> {
    if rs == [] then [] else Encode(rs[0]) + Text(rs[1..])
  }

  predicate Scalars(rs: seq<rune>) {
    forall r | r in rs :: 0 <= r <= 0xD7FF || 0xE000 <= r <= 0x10FFFF
  }

  /** Of any sequence of scalar values, written one after the other, decoding finds
      exactly these. */
  lemma {:induction false} TextRoundTrip(rs: seq<rune>)
    requires Scalars(rs)
    ensures RunesOf(Text(rs)) == rs
  {
    hide Encode, DecodeRune;
    if rs != [] {
      var head, tail := Encode(rs[0]), Text(rs[1..]);
      assert rs[0] in rs && RuneLen(rs[0]) != -1;
      DecodeEncode(rs[0], tail);
      assert (head + tail)[|head|..] == tail;
      assert rs == [rs[0]] + rs[1..] && forall r | r in rs[1..] :: r in rs;
      TextRoundTrip(rs[1..]);
    }
  }

  lemma {:induction false} RunesCounts(s: seq<byte>)
    ensures Runes(s) == |RunesOf(s)|
    decreases |s|
  {
    hide DecodeRune;
    if s != [] { RunesCounts(s[DecodeRune(s).size..]); }
  }

  function Encoded(rs: seq<rune>): (e: seq<seq<byte>>)
    ensures |e| == |rs| && forall k | 0 <= k < |e| :: e[k] == Encode(rs[k])
  {
    if rs == [] then [] else [Encode(rs[0])] + Encoded(rs[1..])
  }

  /** Scanning by runes yields the encoding of each rune, U+FFFD for each invalid byte. */
  lemma {:induction false} RuneTokens(s: seq<byte>)
    requires Lawful(ScanRunes)
    ensures Tokens(ScanRunes, s) == Encoded(RunesOf(s))
    decreases |s|
  {
    if s != [] {
      RuneToken(s);
      hide DecodeRune, ScanRunes, Encode;
      assert LawfulAt(ScanRunes, s, 0);
      RuneTokens(s[DecodeRune(s).size..]);
    }
  }

  lemma RuneToken(s: seq<byte>)
    requires s != []
    ensures ScanRunes(s, true) == Split(DecodeRune(s).size, Some(Encode(DecodeRune(s).r)), None)
  {
    var d := DecodeRune(s);
    if d != INVALID {
      DecodedStarts(s);
      assert s == Encode(d.r) + s[|Encode(d.r)|..];
      DecodeEncode(d.r, s[|Encode(d.r)|..]);
      hide Encode;
    }
  }

  /** Scanning by bytes yields each byte. */
  lemma {:induction false} ByteTokens(s: seq<byte>)
    requires Lawful(ScanBytes)
    ensures |Tokens(ScanBytes, s)| == |s|
    ensures forall k | 0 <= k < |s| :: Tokens(ScanBytes, s)[k] == [s[k]]
    decreases |s|
  {
    if s != [] {
      assert LawfulAt(ScanBytes, s, 0);
      ByteTokens(s[1..]);
    }
  }

  // ---- Fields ----

  /** s cut into the bytes of its runes. */
  function Glyphs(s: seq<byte>): seq<seq<byte>>
    decreases |s|
  {
    if s == [] then [] else [s[..DecodeRune(s).size]] + Glyphs(s[DecodeRune(s).size..])
  }

  /** Exploding without a limit that matters cuts s into these. */
  lemma {:induction false} ExplodedGlyphs(s: seq<byte>, n: nat)
    requires |Glyphs(s)| <= n
    ensures Exploded(s, n) == Glyphs(s) && |Glyphs(s)| == |RunesOf(s)|
    decreases |s|
  {
    hide DecodeRune;
    if s != [] {
      var w := DecodeRune(s).size;
      ExplodedGlyphs(s[w..], n - 1);
      if n == 1 { assert s[w..] == [] && s[..w] == s; }
    }
  }

  predicate Satisfies(glyph: seq<byte>, f: rune -> bool) {
    f(DecodeRune(glyph).r)
  }

  /** The stretches between the glyphs that satisfy f; always at least one. */
  function Stretches(glyphs: seq<seq<byte>>, f: rune -> bool): (stretches: seq<seq<seq<byte>>>)
    ensures stretches != []
  {
    if glyphs == [] then [[]]
    else
      var rest := Stretches(glyphs[1..], f);
      if Satisfies(glyphs[0], f) then [[]] + rest else [[glyphs[0]] + rest[0]] + rest[1..]
  }

  /** The bytes of each stretch that is not empty. */
  function Words(stretches: seq<seq<seq<byte>>>): seq<seq<byte>> {
    if stretches == [] then []
    else (if stretches[0] == [] then [] else [Joined(stretches[0], [])]) + Words(stretches[1..])
  }

  /** A rune decodes the same by itself. */
  lemma GlyphAlone(s: seq<byte>)
    requires s != []
    ensures DecodeRune(s[..DecodeRune(s).size]) == DecodeRune(s)
  {
  }

  lemma JoinedHead(glyph: seq<byte>, glyphs: seq<seq<byte>>)
    ensures Joined([glyph] + glyphs, []) == glyph + Joined(glyphs, [])
  {
    if glyphs != [] { JoinedCons(glyph, glyphs, []); }
  }

  lemma SeparatorAhead(rest: seq<seq<seq<byte>>>)
    ensures var parts := [[]] + rest;
      Words(parts) == Words(rest) && parts[1..] == rest && parts[0] == [] && Joined([], []) == []
  {
    var parts: seq<seq<seq<byte>>> := [[]] + rest;
    assert parts[1..] == rest && [] + Words(rest) == Words(rest);
  }

  lemma GlyphAhead(glyph: seq<byte>, rest: seq<seq<seq<byte>>>)
    requires rest != []
    ensures var parts := [[glyph] + rest[0]] + rest[1..];
      && Words(parts) == [glyph + Joined(rest[0], [])] + Words(rest[1..])
      && parts[1..] == rest[1..] && Joined(parts[0], []) == glyph + Joined(rest[0], [])
  {
    hide Joined;
    JoinedHead(glyph, rest[0]);
    var parts := [[glyph] + rest[0]] + rest[1..];
    assert parts[1..] == rest[1..];
  }

  /** What is left to find at i, when a field began at start or none is open. */
  lemma {:induction false} RemainingWords(s: seq<byte>, f: rune -> bool, start: int, i: nat)
    requires -1 <= start <= i <= |s|
    ensures var parts := Stretches(Glyphs(s[i..]), f);
      Remaining(s, f, start, i)
      == if start < 0 then Words(parts) else [s[start..i] + Joined(parts[0], [])] + Words(parts[1..])
    decreases |s| - i
  {
    hide DecodeRune, Remaining, Joined, Satisfies, Words;
    if i == |s| {
      FieldsEnd(s, f, start);
      assert s[i..] == [];
      NoWords(f);
      if start >= 0 { Unchanged(s[start..i]); }
    } else {
      var w := DecodeRune(s[i..]).size;
      var glyph := s[i..][..w];
      SpanStep(s, f, start, i);
      DropDrop(s, i, w);
      GlyphSatisfies(s[i..], f);
      var rest := Stretches(Glyphs(s[i + w..]), f);
      if f(DecodeRune(s[i..]).r) {
        RemainingWords(s, f, -1, i + w);
        SeparatorAhead(rest);
        if start >= 0 { Unchanged(s[start..i]); } else { NothingBefore(Words(rest)); }
      } else {
        RemainingWords(s, f, if start < 0 then i else start, i + w);
        GlyphAhead(glyph, rest);
        if start >= 0 { Longer(s, start, i, w, Joined(rest[0], [])); }
      }
    }
  }

  lemma NoWords(f: rune -> bool)
    ensures var parts := Stretches(Glyphs([]), f);
      Words(parts) == [] && Joined(parts[0], []) == [] && Words(parts[1..]) == []
  {
    SeparatorAhead([]);
    assert Stretches(Glyphs([]), f) == [[]] + [];
  }

  lemma Unchanged(p: seq<byte>)
    ensures p + [] == p && [p] + [] == [p]
  {
  }

  lemma Longer(s: seq<byte>, start: nat, i: nat, w: nat, tail: seq<byte>)
    requires start <= i && i + w <= |s|
    ensures s[start..i + w] + tail == s[start..i] + (s[i..i + w] + tail)
  {
    assert s[start..i + w] == s[start..i] + s[i..i + w];
  }

  /** The fields of any bytes are the stretches between the runes that satisfy f. */
  lemma FieldsAreWords(s: seq<byte>, f: rune -> bool)
    ensures Fields(s, f) == Words(Stretches(Glyphs(s), f))
  {
    assert s[0..] == s;
    RemainingClosed(s, f, 0);
    RemainingWords(s, f, -1, 0);
  }

  lemma GlyphSatisfies(s: seq<byte>, f: rune -> bool)
    requires s != []
    ensures Satisfies(s[..DecodeRune(s).size], f) == f(DecodeRune(s).r)
  {
    GlyphAlone(s);
    hide DecodeRune;
  }
}
