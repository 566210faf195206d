/** The split functions of bufio, and the proof that each obeys the law that makes
    a Scanner independent of how its reader cuts up the input. */
module Splits {
  import opened Utf8
  import opened Io
  import opened SplitFunc

  const NL: byte := 10
  const CR: byte := 13

  const MORE := Split(0, None, None)

  function DropCR(data: seq<byte>): seq<byte> {
    if data != [] && data[|data| - 1] == CR then data[..|data| - 1] else data
  }

  function ScanLines(data: seq<byte>, atEOF: bool): Split {
    if atEOF && data == [] then MORE
    else
      var i := IndexByte(data, NL);
      if i >= 0 then Split(i + 1, Some(DropCR(data[..i])), None)
      else if atEOF then Split(|data|, Some(DropCR(data)), None)
      else MORE
  }

  function ScanBytes(data: seq<byte>, atEOF: bool): Split {
    if data == [] then MORE else Split(1, Some(data[..1]), None)
  }

  function ScanRunes(data: seq<byte>, atEOF: bool): Split {
    if data == [] then MORE
    else if data[0] < RUNE_SELF then Split(1, Some(data[..1]), None)
    else
      var width := DecodeRune(data).size;
      if width > 1 then Split(width, Some(data[..width]), None)
      else if !atEOF && !FullRune(data) then MORE
      else Split(1, Some(Encode(RUNE_ERROR)), None)
  }

  lemma IndexBytePrefix(p: seq<byte>, n: nat, c: byte)
    requires n <= |p| && c in p[..n]
    ensures IndexByte(p, c) == IndexByte(p[..n], c)
  {
    hide IndexByte;
    var i, j := IndexByte(p, c), IndexByte(p[..n], c);
    assert p[j] == p[..n][j];
    assert i < n ==> p[..n][i] == p[i];
  }

  lemma LinesLawful()
    ensures Lawful(ScanLines)
  {
    forall p: seq<byte>, n: nat
      ensures LawfulAt(ScanLines, p, n)
    {
      if n <= |p| && NL in p[..n] {
        IndexBytePrefix(p, n, NL);
        var i := IndexByte(p, NL);
        assert p[..n][..i] == p[..i];
      } else if n <= |p| {
        assert p[0..] == p;
      }
    }
  }

  lemma BytesLawful()
    ensures Lawful(ScanBytes)
  {
    forall p: seq<byte>, n: nat
      ensures LawfulAt(ScanBytes, p, n)
    {
      if 0 < n <= |p| { assert p[..n][..1] == p[..1]; }
    }
  }

  lemma RunesLawful()
    ensures Lawful(ScanRunes)
  {
    forall p: seq<byte>, n: nat
      ensures LawfulAt(ScanRunes, p, n)
    {
      if 0 < n <= |p| {
        if FullRune(p[..n]) {
          DecodeStable(p, n);
          var w := DecodeRune(p).size;
          assert p[..n][..w] == p[..w];
        } else {
          CutRune(p[..n]);
          assert p[0..] == p;
        }
      }
    }
  }

  // ---- Lines ----

  /** Every line of s leaves room for its terminator: no stretch of s without a
      newline is `limit` bytes long. */
  ghost predicate LinesFit(s: seq<byte>, limit: int) {
    forall i, j :: 0 <= i <= j <= |s| && NL !in s[i..j] ==> j - i < limit
  }

  /** The lines of s, straight from the definition: cut at every newline, strip one
      carriage return from each piece, and ignore an empty last piece. */
  function Lines(s: seq<byte>): seq<seq<byte>> {
    StripAll(DropEmptyLast(CutAt(s, NL)))
  }

  /** The pieces between the occurrences of c; always at least one. */
  function CutAt(s: seq<byte>, c: byte): (pieces: seq<seq<byte>>)
    ensures pieces != []
  {
    if s == [] then [[]]
    else
      var rest := CutAt(s[1..], c);
      if s[0] == c then [[]] + rest else [[s[0]] + rest[0]] + rest[1..]
  }

  function StripAll(pieces: seq<seq<byte>>): (lines: seq<seq<byte>>)
    ensures |lines| == |pieces|
    ensures forall k | 0 <= k < |lines| :: lines[k] == DropCR(pieces[k])
  {
    if pieces == [] then [] else [DropCR(pieces[0])] + StripAll(pieces[1..])
  }

  lemma {:induction false} CutAtFirst(s: seq<byte>, c: byte)
    ensures var i := IndexByte(s, c);
      CutAt(s, c) == if i < 0 then [s] else [s[..i]] + CutAt(s[i + 1..], c)
  {
    if s != [] {
      var rest := s[1..];
      CutAtFirst(rest, c);
      var j := IndexByte(rest, c);
      assert [s[0]] + rest == s;
      if s[0] != c && j >= 0 {
        assert rest[j + 1..] == s[j + 2..];
        assert [s[0]] + rest[..j] == s[..j + 1];
      }
    }
  }

  function DropEmptyLast(pieces: seq<seq<byte>>): seq<seq<byte>>
    requires pieces != []
  {
    if pieces[|pieces| - 1] == [] then pieces[..|pieces| - 1] else pieces
  }

  lemma StripCons(piece: seq<byte>, rest: seq<seq<byte>>)
    requires rest != []
    ensures StripAll(DropEmptyLast([piece] + rest)) == [DropCR(piece)] + StripAll(DropEmptyLast(rest))
  {
    var kept := DropEmptyLast(rest);
    assert DropEmptyLast([piece] + rest) == [piece] + kept;
    assert ([piece] + kept)[1..] == kept;
  }

  lemma LinesStep(s: seq<byte>)
    ensures var i := IndexByte(s, NL);
      Lines(s) == if i >= 0 then [DropCR(s[..i])] + Lines(s[i + 1..])
                  else if s == [] then [] else [DropCR(s)]
  {
    CutAtFirst(s, NL);
    hide CutAt, DropCR;
    var i := IndexByte(s, NL);
    if i >= 0 {
      hide StripAll, DropEmptyLast;
      StripCons(s[..i], CutAt(s[i + 1..], NL));
    }
  }

  /** In bytes: a line ends at a newline, and loses the one carriage return in front of it;
      the rest makes the other lines. */
  lemma LineEnds(line: seq<byte>, rest: seq<byte>)
    requires 0x0A !in line
    ensures var stripped := if line != [] && line[|line| - 1] == 0x0D then line[..|line| - 1] else line;
      && Lines(line + [0x0A] + rest) == [stripped] + Lines(rest)
      && Lines(line) == if line == [] then [] else [stripped]
  {
    hide Lines, IndexByte;
    var s := line + [0x0A] + rest;
    LinesStep(s);
    LinesStep(line);
    var i := IndexByte(s, NL);
    assert s[|line|] == NL && forall k | 0 <= k < |line| :: s[k] == line[k];
    assert s[..i] == line && s[i + 1..] == rest;
  }

  /** Scanning by lines yields exactly the lines. */
  lemma {:induction false} LineTokens(s: seq<byte>)
    requires Lawful(ScanLines)
    ensures Tokens(ScanLines, s) == Lines(s)
    decreases |s|
  {
    hide Lines;
    LinesStep(s);
    var i := IndexByte(s, NL);
    if i >= 0 {
      LineTokens(s[i + 1..]);
    } else if s != [] {
      assert s[|s|..] == [];
      LineTokens([]);
    }
  }

  lemma LinesNotBlocked(s: seq<byte>, limit: int)
    requires Blocked(ScanLines, s, limit)
    ensures !LinesFit(s, limit)
  {
    var n: nat :| limit <= n <= |s| && Stuck(ScanLines, s[..n]);
    assert NL !in s[0..n];
  }

  lemma LinesFitSuffix(s: seq<byte>, k: nat, limit: int)
    requires k <= |s| && LinesFit(s, limit)
    ensures LinesFit(s[k..], limit)
  {
    forall i, j | 0 <= i <= j <= |s[k..]| && NL !in s[k..][i..j]
      ensures j - i < limit
    {
      assert s[k..][i..j] == s[k + i..k + j];
    }
  }

  // ---- Words ----

  predicate IsSpace(r: rune) {
    || r in {0x20, 0x09, 0x0A, 0x0B, 0x0C, 0x0D, 0x85, 0xA0}
    || 0x2000 <= r <= 0x200A
    || r in {0x1680, 0x2028, 0x2029, 0x202F, 0x205F, 0x3000}
  }

  /** The 25 code points with the White_Space property of Unicode. */
  lemma SpacesAre(r: rune)
    ensures IsSpace(r) <==>
            r in {0x0009, 0x000A, 0x000B, 0x000C, 0x000D, 0x0020, 0x0085, 0x00A0, 0x1680,
                  0x2000, 0x2001, 0x2002, 0x2003, 0x2004, 0x2005, 0x2006, 0x2007, 0x2008, 0x2009, 0x200A,
                  0x2028, 0x2029, 0x202F, 0x205F, 0x3000}
  {
  }

  /** The length of the longest prefix of p on whose runes f says `want`. */
  function Run(p: seq<byte>, f: rune -> bool, want: bool): (k: nat)
    ensures k <= |p|
  {
    if p == [] then 0
    else
      var d := DecodeRune(p);
      if f(d.r) == want then d.size + Run(p[d.size..], f, want) else 0
  }

  /** Where the first field of p starts and ends, f being the space predicate. */
  function WordStart(p: seq<byte>, f: rune -> bool): (k: nat)
    ensures k <= |p|
  {
    Run(p, f, true)
  }

  function WordEnd(p: seq<byte>, f: rune -> bool): (k: nat)
    ensures WordStart(p, f) <= k <= |p|
    ensures WordStart(p, f) < |p| ==> WordStart(p, f) < k
  {
    var start := WordStart(p, f);
    if start < |p| then RunStops(p, f, true); start + Run(p[start..], f, false)
    else start
  }

  /** What ScanWords returns: the first word and everything up to and including the
      space rune that ends it; or else how much leading space to drop. */
  function WordSplit(data: seq<byte>, atEOF: bool): Split {
    var start, end := WordStart(data, IsSpace), WordEnd(data, IsSpace);
    if end < |data| then Split(end + DecodeRune(data[end..]).size, Some(data[start..end]), None)
    else if atEOF && start < |data| then Split(|data|, Some(data[start..]), None)
    else Split(start, None, None)
  }

  lemma RunAt(p: seq<byte>, i: nat, want: bool)
    requires i < |p|
    ensures var d := DecodeRune(p[i..]);
      Run(p[i..], IsSpace, want)
        == if IsSpace(d.r) == want then d.size + Run(p[i + d.size..], IsSpace, want) else 0
  {
    var d := DecodeRune(p[i..]);
    assert p[i..][d.size..] == p[i + d.size..];
  }

  lemma RunAtEnd(p: seq<byte>, want: bool)
    ensures Run(p[|p|..], IsSpace, want) == 0
  {
  }

  method ScanWords(data: seq<byte>, atEOF: bool) returns (s: Split)
    ensures s == WordSplit(data, atEOF)
  {
    hide DecodeRune, IsSpace, Run;
    var start := 0;
    assert data[0..] == data;
    while start < |data|
      invariant start <= |data|
      invariant start + Run(data[start..], IsSpace, true) == Run(data, IsSpace, true)
    {
      RunAt(data, start, true);
      var d := DecodeRune(data[start..]);
      if !IsSpace(d.r) { break; }
      start := start + d.size;
    }
    RunAtEnd(data, true);
    assert start == WordStart(data, IsSpace);
    var i := start;
    while i < |data|
      invariant start <= i <= |data|
      invariant i + Run(data[i..], IsSpace, false) == start + Run(data[start..], IsSpace, false)
    {
      RunAt(data, i, false);
      var d := DecodeRune(data[i..]);
      if IsSpace(d.r) {
        return Split(i + d.size, Some(data[start..i]), None);
      }
      i := i + d.size;
    }
    RunAtEnd(data, false);
    if atEOF && |data| > start {
      return Split(|data|, Some(data[start..]), None);
    }
    return Split(start, None, None);
  }

  // How runs in a prefix p[..n] relate to runs in p.

  lemma {:induction false} ContinuationRun(p: seq<byte>)
    requires forall k | 0 <= k < |p| :: IsContinuation(p[k])
    ensures Run(p, IsSpace, false) == |p|
  {
    if p != [] { ContinuationRun(p[1..]); }
  }

  /** A rune cut short has no space in it. */
  lemma CutRuneIsWord(p: seq<byte>)
    requires p != [] && !FullRune(p)
    ensures Run(p, IsSpace, false) == |p| && Run(p, IsSpace, true) == 0
  {
    CutRune(p);
    ContinuationRun(p[1..]);
  }

  lemma RunUnfold(p: seq<byte>, f: rune -> bool, want: bool)
    requires p != []
    ensures var d := DecodeRune(p);
      Run(p, f, want) == if f(d.r) == want then d.size + Run(p[d.size..], f, want) else 0
  {
  }

  lemma {:induction false} RunStops(p: seq<byte>, f: rune -> bool, want: bool)
    requires Run(p, f, want) < |p|
    ensures var rest := p[Run(p, f, want)..];
      f(DecodeRune(rest).r) != want && 0 < Run(rest, f, !want)
    decreases |p|
  {
    hide DecodeRune;
    var d := DecodeRune(p);
    if f(d.r) == want {
      RunStops(p[d.size..], f, want);
      var k := Run(p[d.size..], f, want);
      assert p[d.size..][k..] == p[d.size + k..];
    } else {
      assert p[0..] == p;
    }
  }

  /** Both runs at once, one full rune in: the prefix p[..n] and p itself start with
      the same rune w bytes wide, and what follows is a shorter instance. */
  lemma RunBoth(p: seq<byte>, n: nat, want: bool)
    requires 0 < n <= |p| && FullRune(p[..n])
    ensures var d := DecodeRune(p);
      && d == DecodeRune(p[..n])
      && Run(p, IsSpace, want) == (if IsSpace(d.r) == want then d.size + Run(p[d.size..], IsSpace, want) else 0)
      && Run(p[..n], IsSpace, want)
           == (if IsSpace(d.r) == want then d.size + Run(p[d.size..][..n - d.size], IsSpace, want) else 0)
  {
    hide DecodeRune, FullRune, IsSpace, Run;
    DecodeStable(p, n);
    var w := DecodeRune(p).size;
    assert p[..n][w..] == p[w..][..n - w];
    RunUnfold(p, IsSpace, want);
    RunUnfold(p[..n], IsSpace, want);
  }

  lemma {:induction false} SpacePrefix(p: seq<byte>, n: nat)
    requires n <= |p|
    ensures var k := Run(p[..n], IsSpace, true); Run(p, IsSpace, true) == k + Run(p[k..], IsSpace, true)
    ensures var k := Run(p[..n], IsSpace, true); k < n && FullRune(p[k..n]) ==> Run(p, IsSpace, true) == k
    decreases n
  {
    hide DecodeRune, FullRune, IsSpace, Run;
    assert p[0..] == p && p[0..n] == p[..n];
    if 0 < n {
      if FullRune(p[..n]) {
        RunBoth(p, n, true);
        var d := DecodeRune(p);
        if IsSpace(d.r) {
          var w := d.size;
          SpacePrefix(p[w..], n - w);
          var k := Run(p[w..][..n - w], IsSpace, true);
          assert p[w..][k..] == p[w + k..];
          assert p[w..][k..n - w] == p[w + k..n];
        }
      } else {
        CutRuneIsWord(p[..n]);
      }
    } else {
      EmptyRun(true);
    }
  }

  lemma EmptyRun(want: bool)
    ensures Run([], IsSpace, want) == 0
  {
  }

  /** A space found in a prefix is found in the whole, at the same place. */
  lemma {:induction false} WordPrefix(p: seq<byte>, n: nat)
    requires n <= |p|
    ensures var k := Run(p[..n], IsSpace, false);
      k < n ==> Run(p, IsSpace, false) == k && DecodeRune(p[k..]) == DecodeRune(p[k..n])
    decreases n
  {
    hide DecodeRune, FullRune, IsSpace, Run;
    assert p[0..] == p && p[0..n] == p[..n];
    if 0 < n {
      if FullRune(p[..n]) {
        RunBoth(p, n, false);
        var d := DecodeRune(p);
        if !IsSpace(d.r) {
          var w := d.size;
          WordPrefix(p[w..], n - w);
          var k := Run(p[w..][..n - w], IsSpace, false);
          assert p[w..][k..] == p[w + k..];
          assert p[w..][k..n - w] == p[w + k..n];
        }
      } else {
        CutRuneIsWord(p[..n]);
      }
    }
  }

  /** A prefix without a space holds all of the first word except, at most, that the
      space ending the word was cut. */
  lemma {:induction false} WordCut(p: seq<byte>, n: nat)
    requires n <= |p| && Run(p[..n], IsSpace, false) == n
    ensures n < Run(p, IsSpace, false) + 3
    decreases n
  {
    hide DecodeRune, FullRune, IsSpace, Run;
    if n == 0 {
    } else if FullRune(p[..n]) {
      RunBoth(p, n, false);
      var w := DecodeRune(p).size;
      WordCut(p[w..], n - w);
    } else {
      CutRune(p[..n]);
      if n == 3 {
        CutRuneAtStart(p, n);
        RunUnfold(p, IsSpace, true);
        RunUnfold(p, IsSpace, false);
      }
    }
  }

  lemma WordsLawful()
    ensures Lawful(WordSplit)
  {
    forall p: seq<byte>, n: nat
      ensures LawfulAt(WordSplit, p, n)
    {
      if n <= |p| { WordsLawfulAt(p, n); }
    }
  }

  lemma WordsLawfulAt(p: seq<byte>, n: nat)
    requires n <= |p|
    ensures LawfulAt(WordSplit, p, n)
  {
    hide WordStart, WordEnd, DecodeRune, IsSpace;
    var start, end := WordStart(p[..n], IsSpace), WordEnd(p[..n], IsSpace);
    WordOfPrefix(p, n);
    if end < n {
      assert p[..n][end..] == p[end..n];
      assert p[..n][start..end] == p[start..end];
    } else {
      SameWord(p, start);
    }
  }

  lemma WordOfPrefix(p: seq<byte>, n: nat)
    requires n <= |p|
    ensures var start, end := WordStart(p[..n], IsSpace), WordEnd(p[..n], IsSpace);
      if end < n then
        WordStart(p, IsSpace) == start && WordEnd(p, IsSpace) == end && DecodeRune(p[end..]) == DecodeRune(p[end..n])
      else WordStart(p, IsSpace) == start + WordStart(p[start..], IsSpace)
  {
    hide DecodeRune, FullRune, IsSpace, Run;
    var start, end := WordStart(p[..n], IsSpace), WordEnd(p[..n], IsSpace);
    SpacePrefix(p, n);
    if end < n { WordEndOfPrefix(p, n, start); }
  }

  lemma WordEndOfPrefix(p: seq<byte>, n: nat, start: nat)
    requires start <= n <= |p| && start == WordStart(p[..n], IsSpace) && WordEnd(p[..n], IsSpace) < n
    requires FullRune(p[start..n]) ==> Run(p, IsSpace, true) == start
    ensures var end := WordEnd(p[..n], IsSpace);
      WordStart(p, IsSpace) == start && WordEnd(p, IsSpace) == end && DecodeRune(p[end..]) == DecodeRune(p[end..n])
  {
    hide DecodeRune, FullRune, IsSpace, Run;
    var data, rest, k := p[start..n], p[start..], WordEnd(p[..n], IsSpace) - start;
    assert p[..n][start..] == data == rest[..n - start];
    WordPrefix(rest, n - start);
    if !FullRune(data) { CutRuneIsWord(data); }
    assert rest[k..] == p[start + k..] && rest[k..n - start] == p[start + k..n];
  }

  lemma WordOfRest(p: seq<byte>, k: nat, f: rune -> bool)
    requires k <= |p| && WordStart(p, f) == k + WordStart(p[k..], f)
    ensures WordEnd(p, f) == k + WordEnd(p[k..], f)
  {
    hide Run;
    var start := WordStart(p[k..], f);
    assert p[k..][start..] == p[k + start..];
  }

  /** Dropping leading space leaves the first word as it is. */
  lemma SameWord(p: seq<byte>, k: nat)
    requires k <= |p| && WordStart(p, IsSpace) == k + WordStart(p[k..], IsSpace)
    ensures SameFirst(WordSplit, p, k)
  {
    hide WordStart, WordEnd, DecodeRune;
    WordOfRest(p, k, IsSpace);
    var start, end := WordStart(p[k..], IsSpace), WordEnd(p[k..], IsSpace);
    assert p[k..][end..] == p[k + end..];
    assert p[k..][start..] == p[k + start..];
    assert p[k..][start..end] == p[k + start..k + end];
  }

  // ---- Fields ----

  /** The maximal runs of p on which f is false: bytes.FieldsFunc. */
  function Fields(p: seq<byte>, f: rune -> bool): seq<seq<byte>>
    decreases |p|
  {
    var start, end := WordStart(p, f), WordEnd(p, f);
    if start == |p| then [] else [p[start..end]] + Fields(p[end..], f)
  }

  /** Every word of p is short enough to be seen whole, with the space after it, in
      a buffer of `limit` bytes. */
  ghost predicate WordsFit(p: seq<byte>, limit: int) {
    3 <= limit && forall w | w in Fields(p, IsSpace) :: |w| + 3 <= limit
  }

  /** The space that ends a word adds nothing to the fields of what follows. */
  lemma FieldsSkip(p: seq<byte>, w: nat, f: rune -> bool)
    requires p != [] && f(DecodeRune(p).r) && w == DecodeRune(p).size
    ensures Fields(p[w..], f) == Fields(p, f)
  {
    hide DecodeRune;
    RunUnfold(p, f, true);
    WordOfRest(p, w, f);
    FieldsOfRest(p, w, f);
  }

  lemma FieldsOfRest(p: seq<byte>, w: nat, f: rune -> bool)
    requires w <= |p| && WordStart(p, f) == w + WordStart(p[w..], f)
    requires WordEnd(p, f) == w + WordEnd(p[w..], f)
    ensures Fields(p[w..], f) == Fields(p, f)
  {
    hide WordStart, WordEnd;
    var start, end := WordStart(p[w..], f), WordEnd(p[w..], f);
    assert p[w..][end..] == p[w + end..];
    assert p[w..][start..end] == p[w + start..w + end];
  }

  lemma WordEnds(p: seq<byte>)
    requires WordEnd(p, IsSpace) < |p|
    ensures WordStart(p, IsSpace) < WordEnd(p, IsSpace)
    ensures IsSpace(DecodeRune(p[WordEnd(p, IsSpace)..]).r)
  {
    hide DecodeRune, IsSpace, Run;
    var start := WordStart(p, IsSpace);
    RunStops(p, IsSpace, true);
    RunStops(p[start..], IsSpace, false);
    var k := Run(p[start..], IsSpace, false);
    assert p[start..][k..] == p[start + k..];
  }

  /** Scanning by words yields exactly the fields. */
  lemma {:induction false} WordTokens(p: seq<byte>)
    requires Lawful(WordSplit)
    ensures Tokens(WordSplit, p) == Fields(p, IsSpace)
    decreases |p|
  {
    hide WordStart, WordEnd, DecodeRune, IsSpace;
    var start, end := WordStart(p, IsSpace), WordEnd(p, IsSpace);
    if end < |p| {
      var w := DecodeRune(p[end..]).size;
      WordEnds(p);
      FieldsSkip(p[end..], w, IsSpace);
      assert p[end..][w..] == p[end + w..];
      WordTokens(p[end + w..]);
    } else {
      assert p[|p|..] == [];
      assert p[start..] == p[start..end];
    }
  }

  /** Only a word that is too long can block a buffer of at least three bytes. */
  lemma WordsNotBlocked(p: seq<byte>, limit: int)
    requires 3 <= limit && Blocked(WordSplit, p, limit)
    ensures !WordsFit(p, limit)
  {
    hide DecodeRune, FullRune, IsSpace, Run;
    var n: nat :| limit <= n <= |p| && Stuck(WordSplit, p[..n]);
    StuckWord(p, n);
    var word := p[WordStart(p, IsSpace)..WordEnd(p, IsSpace)];
    assert word in Fields(p, IsSpace);
  }

  lemma StuckWord(p: seq<byte>, n: nat)
    requires 3 <= n <= |p| && Stuck(WordSplit, p[..n])
    ensures WordStart(p, IsSpace) == 0 && n < WordEnd(p, IsSpace) + 3
  {
    hide DecodeRune, FullRune, IsSpace, Run;
    assert p[..n][0..] == p[..n] && p[0..n] == p[..n] && p[0..] == p;
    WordCut(p, n);
    SpacePrefix(p, n);
    if !FullRune(p[..n]) { CutRuneAtStart(p, n); }
  }

  /** Three bytes that are no full rune are no space either. */
  lemma CutRuneAtStart(p: seq<byte>, n: nat)
    requires 3 <= n <= |p| && !FullRune(p[..n])
    ensures Run(p, IsSpace, true) == 0
  {
    CutRune(p[..n]);
    FourByteRune(p);
    hide DecodeRune;
  }
}
