/** bytes.FieldsFunc for any predicate, and bytes.Fields with its two-pass ASCII
    fast path, against one definition of the fields of a text. */
module ByteFields {
  import opened Utf8
  import opened Basics
  import opened Splits

  datatype Span = Span(start: nat, end: nat)

  /** The slices of s that a list of spans stands for. */
  function Slices(s: seq<byte>, spans: seq<Span>): (a: seq<seq<byte>>)
    requires forall k | 0 <= k < |spans| :: spans[k].start <= spans[k].end <= |s|
    ensures |a| == |spans| && forall k | 0 <= k < |a| :: a[k] == s[spans[k].start..spans[k].end]
  {
    seq(|spans|, k requires 0 <= k < |spans| => s[spans[k].start..spans[k].end])
  }

  /** The fields still to come at i, when the current one began at `start`, or when
      none is open (start < 0). */
  function Remaining(s: seq<byte>, f: rune -> bool, start: int, i: nat): seq<seq<byte>>
    requires start <= i <= |s|
  {
    if start < 0 then Fields(s[i..], f)
    else
      var end := i + Run(s[i..], f, false);
      [s[start..end]] + Fields(s[end..], f)
  }

  /** Leading spaces do not matter. */
  lemma FieldsAfterSpace(s: seq<byte>, i: nat, f: rune -> bool)
    requires i < |s| && f(DecodeRune(s[i..]).r)
    ensures Fields(s[i..], f) == Fields(s[i + DecodeRune(s[i..]).size..], f)
  {
    hide DecodeRune, Fields;
    var w := DecodeRune(s[i..]).size;
    FieldsSkip(s[i..], w, f);
    DropDrop(s, i, w);
  }

  /** A field begins at the first rune that is no space. */
  lemma FieldsAtWord(s: seq<byte>, i: nat, f: rune -> bool)
    requires i < |s| && !f(DecodeRune(s[i..]).r)
    ensures Fields(s[i..], f) == Remaining(s, f, i, i)
  {
    hide DecodeRune;
    var p := s[i..];
    RunUnfold(p, f, true);
    hide Run;
    var len := Run(p, f, false);
    DropDrop(s, i, len);
    assert WordStart(p, f) == 0 && WordEnd(p, f) == len;
    hide WordStart, WordEnd;
    assert p[0..len] == s[i..i + len];
  }

  /** One rune further inside a field: it goes on, or this space ends it. */
  lemma FieldStep(s: seq<byte>, f: rune -> bool, start: nat, i: nat)
    requires start <= i < |s|
    ensures var d := DecodeRune(s[i..]);
      Remaining(s, f, start, i)
        == if f(d.r) then [s[start..i]] + Fields(s[i + d.size..], f) else Remaining(s, f, start, i + d.size)
  {
    hide DecodeRune, Fields;
    var d := DecodeRune(s[i..]);
    RunUnfold(s[i..], f, false);
    DropDrop(s, i, d.size);
    hide Run;
    if f(d.r) { FieldsAfterSpace(s, i, f); }
  }

  lemma FieldsEnd(s: seq<byte>, f: rune -> bool, start: int)
    requires start <= |s|
    ensures Remaining(s, f, start, |s|) == if start < 0 then [] else [s[start..|s|]]
  {
    assert s[|s|..] == [];
  }

  lemma SlicesSnoc(s: seq<byte>, spans: seq<Span>, start: nat, end: nat)
    requires forall k | 0 <= k < |spans| :: spans[k].start <= spans[k].end <= |s|
    requires start <= end <= |s|
    ensures forall k | 0 <= k <= |spans| :: var sp := (spans + [Span(start, end)])[k]; sp.start <= sp.end <= |s|
    ensures Slices(s, spans + [Span(start, end)]) == Slices(s, spans) + [s[start..end]]
  {
  }

  /** What one rune does to the span being collected: a space closes it, anything
      else opens it. */
  lemma SpanStep(s: seq<byte>, f: rune -> bool, start: int, i: nat)
    requires -1 <= start <= i < |s|
    ensures var d := DecodeRune(s[i..]);
      Remaining(s, f, start, i)
        == if f(d.r) then (if start >= 0 then [s[start..i]] else []) + Remaining(s, f, -1, i + d.size)
           else Remaining(s, f, if start < 0 then i else start, i + d.size)
  {
    hide DecodeRune, Fields, Remaining;
    var d := DecodeRune(s[i..]);
    RemainingClosed(s, f, i);
    RemainingClosed(s, f, i + d.size);
    if f(d.r) {
      if start >= 0 {
        FieldStep(s, f, start, i);
      } else {
        FieldsAfterSpace(s, i, f);
        NothingBefore(Remaining(s, f, -1, i + d.size));
      }
    } else {
      if start < 0 { FieldsAtWord(s, i, f); }
      FieldStep(s, f, if start < 0 then i else start, i);
    }
  }

  method FieldsFunc(s: seq<byte>, f: rune -> bool) returns (a: seq<seq<byte>>)
    ensures a == Fields(s, f)
  {
    hide Fields, Remaining, Slices;
    var spans: seq<Span> := [];
    var start, i := -1, 0;
    RemainingClosed(s, f, 0);
    assert s[0..] == s;
    NoSlices(s);
    while i < |s|
      invariant 0 <= i <= |s| && -1 <= start <= i
      invariant forall k | 0 <= k < |spans| :: spans[k].start <= spans[k].end <= |s|
      invariant Slices(s, spans) + Remaining(s, f, start, i) == Fields(s, f)
    {
      var size, r := 1, s[i] as rune;
      if r >= RUNE_SELF {
        var d := DecodeRune(s[i..]);
        r, size := d.r, d.size;
      }
      RuneAt(s, i);
      SpanStep(s, f, start, i);
      hide DecodeRune;
      if f(r) {
        if start >= 0 {
          SlicesSnoc(s, spans, start, i);
          Snoc(Slices(s, spans), s[start..i], Remaining(s, f, -1, i + size));
          spans := spans + [Span(start, i)];
          start := -1;
        } else {
          NothingBefore(Remaining(s, f, -1, i + size));
        }
      } else {
        if start < 0 { start := i; }
      }
      i := i + size;
    }
    FieldsEnd(s, f, start);
    if start >= 0 {
      SlicesSnoc(s, spans, start, |s|);
      spans := spans + [Span(start, |s|)];
    }
    return Slices(s, spans);
  }

  lemma NoSlices(s: seq<byte>)
    ensures Slices(s, []) == []
  {
  }

  lemma RemainingClosed(s: seq<byte>, f: rune -> bool, i: nat)
    requires i <= |s|
    ensures Remaining(s, f, -1, i) == Fields(s[i..], f)
  {
  }

  /** The shortcut for ASCII bytes decodes what DecodeRune would. */
  lemma RuneAt(s: seq<byte>, i: nat)
    requires i < |s|
    ensures s[i] < RUNE_SELF ==> DecodeRune(s[i..]) == Decoded(s[i], 1)
  {
  }

  // ---- The ASCII fast path ----

  predicate AsciiSpace(b: byte) {
    b in {0x09, 0x0A, 0x0B, 0x0C, 0x0D, 0x20}
  }

  function Bit(b: bool): nat {
    if b then 1 else 0
  }

  /** Bitwise or of two bytes. */
  function Or(a: nat, b: nat): nat {
    if a == 0 && b == 0 then 0 else 2 * Or(a / 2, b / 2) + (if a % 2 == 1 || b % 2 == 1 then 1 else 0)
  }

  /** The top bit of an or is set when it is set on either side. */
  lemma {:induction false} OrBelow(a: nat, b: nat, k: nat)
    ensures Or(a, b) < Pow2(k) <==> a < Pow2(k) && b < Pow2(k)
  {
    if k == 0 {
      assert Or(a, b) == 0 <==> a == 0 && b == 0 by {
        if a == 0 && b == 0 { } else { OrPositive(a, b); }
      }
    } else {
      OrBelow(a / 2, b / 2, k - 1);
    }
  }

  lemma {:induction false} OrPositive(a: nat, b: nat)
    requires a > 0 || b > 0
    ensures Or(a, b) > 0
  {
    if a % 2 == 0 && b % 2 == 0 { OrPositive(a / 2, b / 2); }
  }

  predicate IsAscii(s: seq<byte>) {
    forall k | 0 <= k < |s| :: s[k] < RUNE_SELF
  }

  /** The words of ASCII text: one starts wherever a byte that is no space follows a
      space or the beginning. */
  function Starts(s: seq<byte>, wasSpace: bool): nat {
    if s == [] then 0
    else Bit(wasSpace && !AsciiSpace(s[0])) + Starts(s[1..], AsciiSpace(s[0]))
  }

  lemma AsciiRune(p: seq<byte>)
    requires p != [] && p[0] < RUNE_SELF
    ensures DecodeRune(p) == Decoded(p[0], 1)
    ensures IsSpace(p[0]) == AsciiSpace(p[0])
  {
  }

  /** A space in front of an ASCII text changes none of its fields. */
  lemma SpaceFirst(s: seq<byte>)
    requires s != [] && s[0] < RUNE_SELF && AsciiSpace(s[0])
    ensures Run(s, IsSpace, false) == 0 && Fields(s, IsSpace) == Fields(s[1..], IsSpace)
  {
    AsciiRune(s);
    hide DecodeRune, IsSpace, AsciiSpace, Fields;
    RunUnfold(s, IsSpace, false);
    FieldsSkip(s, 1, IsSpace);
  }

  /** Any other byte starts a field or goes on with the one that follows it. */
  lemma WordFirst(s: seq<byte>)
    requires s != [] && s[0] < RUNE_SELF && !AsciiSpace(s[0])
    ensures var k := Run(s[1..], IsSpace, false);
      Run(s, IsSpace, false) == 1 + k && Fields(s, IsSpace) == [s[..1 + k]] + Fields(s[1..][k..], IsSpace)
  {
    AsciiRune(s);
    hide DecodeRune, IsSpace, AsciiSpace, Fields;
    RunUnfold(s, IsSpace, false);
    hide Run;
    assert s[0..] == s;
    FieldsAtWord(s, 0, IsSpace);
    DropDrop(s, 1, Run(s[1..], IsSpace, false));
  }

  /** The count of the first pass is the number of fields. */
  lemma {:induction false} StartsIsFieldCount(s: seq<byte>, wasSpace: bool)
    requires IsAscii(s)
    ensures wasSpace ==> Starts(s, true) == |Fields(s, IsSpace)|
    ensures !wasSpace ==> Starts(s, false) == |Fields(s[Run(s, IsSpace, false)..], IsSpace)|
  {
    if s == [] {
      assert s[0..] == [];
    } else {
      hide Run, Fields, IsSpace, AsciiSpace;
      var t := s[1..];
      StartsIsFieldCount(t, AsciiSpace(s[0]));
      if AsciiSpace(s[0]) { SpaceFirst(s); } else { WordFirst(s); }
      var k := Run(t, IsSpace, false);
      DropDrop(s, 1, k);
      assert s[0..] == s;
    }
  }

  /** The first pass: how many words would begin if s were ASCII, and whether it is. */
  method Survey(s: seq<byte>) returns (n: nat, ascii: bool)
    ensures n == Starts(s, true) && ascii == IsAscii(s)
  {
    n := 0;
    var wasSpace, setBits: nat := true, 0;
    assert s[0..] == s;
    for i := 0 to |s|
      invariant n + Starts(s[i..], wasSpace) == Starts(s, true)
      invariant setBits < Pow2(7) <==> IsAscii(s[..i])
    {
      OrBelow(setBits, s[i], 7);
      assert s[i..][1..] == s[i + 1..];
      AsciiSnoc(s, i);
      setBits := Or(setBits, s[i]);
      var isSpace := AsciiSpace(s[i]);
      n := n + Bit(wasSpace) * (1 - Bit(isSpace));
      wasSpace := isSpace;
    }
    assert s[..|s|] == s;
    assert Pow2(7) == RUNE_SELF by { assert Pow2(7) == 8 * Pow2(4); }
    ascii := setBits < RUNE_SELF;
  }

  lemma AsciiSnoc(s: seq<byte>, i: nat)
    requires i < |s|
    ensures IsAscii(s[..i + 1]) <==> IsAscii(s[..i]) && s[i] < Pow2(7)
  {
    assert Pow2(7) == 8 * Pow2(4) == 64 * Pow2(1);
    assert forall k | 0 <= k < i :: s[..i + 1][k] == s[..i][k];
    assert s[..i + 1][i] == s[i];
  }

  /** Skips the spaces at i; the fields that remain are the same. */
  method SkipSpaces(s: seq<byte>, start: nat) returns (i: nat)
    requires start <= |s| && IsAscii(s)
    ensures start <= i <= |s| && (i < |s| ==> !AsciiSpace(s[i]))
    ensures Fields(s[start..], IsSpace) == Fields(s[i..], IsSpace)
  {
    hide DecodeRune, IsSpace, Fields;
    i := start;
    while i < |s| && AsciiSpace(s[i])
      invariant start <= i <= |s|
      invariant Fields(s[start..], IsSpace) == Fields(s[i..], IsSpace)
    {
      AsciiRune(s[i..]);
      FieldsAfterSpace(s, i, IsSpace);
      i := i + 1;
    }
  }

  method FieldsOf(s: seq<byte>) returns (a: seq<seq<byte>>)
    ensures a == Fields(s, IsSpace)
  {
    var n, ascii := Survey(s);
    if !ascii {
      a := FieldsFunc(s, IsSpace);
      return;
    }
    StartsIsFieldCount(s, true);
    a := AsciiFields(s, n);
  }

  /** The second pass: every slot of the n is filled, once. */
  method AsciiFields(s: seq<byte>, n: nat) returns (fields: seq<seq<byte>>)
    requires IsAscii(s) && n == |Fields(s, IsSpace)|
    ensures fields == Fields(s, IsSpace)
  {
    hide DecodeRune, IsSpace, Fields, Remaining, AsciiSpace, Open;
    var a := new seq<byte>[n];
    var na: nat := 0;
    ghost var done: seq<seq<byte>>, whole := [], Fields(s, IsSpace);
    assert s[0..] == s;
    var i := SkipSpaces(s, 0);
    var fieldStart := i;
    AsciiFieldsAt(s, i);
    while i < |s|
      invariant fieldStart <= i <= |s| && na <= n && a[..na] == done
      invariant fieldStart < |s| ==> fieldStart < i || !AsciiSpace(s[i])
      invariant done + Open(s, fieldStart, i) == whole
    {
      AsciiRune(s[i..]);
      AsciiStep(s, fieldStart, i);
      if !AsciiSpace(s[i]) {
        i := i + 1;
        continue;
      }
      var field := s[fieldStart..i];
      Snoc(done, field, Fields(s[i + 1..], IsSpace));
      done := done + [field];
      a[na] := field;
      na := na + 1;
      i := i + 1;
      i := SkipSpaces(s, i);
      fieldStart := i;
      AsciiFieldsAt(s, i);
    }
    OpenEnd(s, fieldStart);
    if fieldStart < |s| {
      a[na] := s[fieldStart..|s|];
    }
    return a[..];
  }

  /** The fields to come, a field being open from fieldStart on unless s is used up. */
  function Open(s: seq<byte>, fieldStart: nat, i: nat): seq<seq<byte>>
    requires fieldStart <= i <= |s|
  {
    if fieldStart == |s| then [] else Remaining(s, IsSpace, fieldStart, i)
  }

  lemma OpenEnd(s: seq<byte>, fieldStart: nat)
    requires fieldStart <= |s|
    ensures Open(s, fieldStart, |s|) == if fieldStart == |s| then [] else [s[fieldStart..|s|]]
  {
    hide Fields;
    FieldsEnd(s, IsSpace, fieldStart);
  }

  lemma AsciiFieldsAt(s: seq<byte>, i: nat)
    requires IsAscii(s) && i <= |s| && (i < |s| ==> !AsciiSpace(s[i]))
    ensures Fields(s[i..], IsSpace) == Open(s, i, i)
  {
    if i < |s| {
      AsciiRune(s[i..]);
      FieldsAtWord(s, i, IsSpace);
    } else {
      FieldsEnd(s, IsSpace, -1);
      RemainingClosed(s, IsSpace, |s|);
    }
  }

  lemma AsciiStep(s: seq<byte>, fieldStart: nat, i: nat)
    requires IsAscii(s) && fieldStart <= i < |s|
    ensures Open(s, fieldStart, i)
         == if AsciiSpace(s[i]) then [s[fieldStart..i]] + Fields(s[i + 1..], IsSpace) else Open(s, fieldStart, i + 1)
  {
    hide DecodeRune, IsSpace, Fields, Remaining, AsciiSpace;
    AsciiRune(s[i..]);
    FieldStep(s, IsSpace, fieldStart, i);
  }
}
