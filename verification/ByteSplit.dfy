/** bytes.Count, SplitN, SplitAfterN, Join and Replace, and how they fit together. */
module ByteSplit {
  import opened Utf8
  import opened Io
  import opened Basics
  import opened ByteSearch

  // ---- On values ----

  /** The first occurrence of sep in s, or -1. */
  function First(s: seq<byte>, sep: seq<byte>): (r: int)
    ensures IsFirst(s, sep, r)
  {
    FirstFrom(s, sep, 0)
  }

  function FirstFrom(s: seq<byte>, sep: seq<byte>, i: nat): (r: int)
    ensures (r == -1 || (i <= r && At(s, sep, r)))
    ensures forall k | i <= k < if r == -1 then |s| + 1 else r :: !At(s, sep, k)
    decreases |s| + 1 - i
  {
    if i > |s| then -1
    else if At(s, sep, i) then i
    else FirstFrom(s, sep, i + 1)
  }

  lemma FirstIsUnique(s: seq<byte>, sep: seq<byte>, r: int, q: int)
    requires IsFirst(s, sep, r) && IsFirst(s, sep, q)
    ensures r == q
  {
  }

  /** The non-overlapping occurrences of sep, counted from the left. */
  function Occurrences(s: seq<byte>, sep: seq<byte>): nat
    requires sep != []
    decreases |s|
  {
    var m := First(s, sep);
    if m < 0 then 0 else 1 + Occurrences(s[m + |sep|..], sep)
  }

  /** At most n pieces of s, cut behind the first `save` bytes of each sep. */
  function Pieces(s: seq<byte>, sep: seq<byte>, save: nat, n: nat): (pieces: seq<seq<byte>>)
    requires sep != [] && save <= |sep| && 0 < n
    ensures 0 < |pieces| <= n
    decreases n
  {
    var m := First(s, sep);
    if n == 1 || m < 0 then [s]
    else [s[..m + save]] + Pieces(s[m + |sep|..], sep, save, n - 1)
  }

  function Joined(pieces: seq<seq<byte>>, sep: seq<byte>): seq<byte> {
    if pieces == [] then []
    else if |pieces| == 1 then pieces[0]
    else pieces[0] + sep + Joined(pieces[1..], sep)
  }

  function Runes(s: seq<byte>): nat
    decreases |s|
  {
    if s == [] then 0 else 1 + Runes(s[DecodeRune(s).size..])
  }

  /** One piece for each rune, at most n; the last takes what is left. */
  function Exploded(s: seq<byte>, n: nat): (pieces: seq<seq<byte>>)
    requires s != [] ==> 0 < n
    ensures |pieces| <= n
    decreases |s|
  {
    if s == [] then []
    else if n == 1 then [s]
    else
      var w := DecodeRune(s).size;
      [s[..w]] + (if s[w..] == [] then [] else Exploded(s[w..], n - 1))
  }

  /** new_ put in front of s and behind each of its first n - 1 runes. */
  function Interleaved(s: seq<byte>, new_: seq<byte>, n: nat): seq<byte>
    decreases n
  {
    if n == 0 then s
    else if n == 1 then new_ + s
    else
      var w := DecodeRune(s).size;
      new_ + s[..w] + Interleaved(s[w..], new_, n - 1)
  }

  // ---- Laws ----

  /** Joining what was split gives the original back; with `save` bytes of each
      separator kept in the pieces, the rest of it goes between them. */
  lemma {:induction false} JoinSplit(s: seq<byte>, sep: seq<byte>, save: nat, n: nat)
    requires sep != [] && save <= |sep| && 0 < n
    ensures Joined(Pieces(s, sep, save, n), sep[save..]) == s
    decreases n
  {
    hide First;
    var m := First(s, sep);
    if n > 1 && m >= 0 {
      var rest := s[m + |sep|..];
      JoinSplit(rest, sep, save, n - 1);
      var tail := Pieces(rest, sep, save, n - 1);
      JoinedCons(s[..m + save], tail, sep[save..]);
      assert s[..m + save] + sep[save..] + rest == s by {
        assert s[m..m + |sep|] == sep;
        assert s[m + save..m + |sep|] == sep[save..];
      }
    }
  }

  lemma JoinedCons(piece: seq<byte>, pieces: seq<seq<byte>>, sep: seq<byte>)
    requires pieces != []
    ensures Joined([piece] + pieces, sep) == piece + sep + Joined(pieces, sep)
  {
    assert ([piece] + pieces)[1..] == pieces;
  }

  lemma {:induction false} JoinExploded(s: seq<byte>, n: nat)
    requires s != [] ==> 0 < n
    ensures Joined(Exploded(s, n), []) == s
    decreases |s|
  {
    hide DecodeRune;
    if s != [] && n != 1 {
      var w := DecodeRune(s).size;
      if s[w..] == [] {
        assert s[..w] == s;
      } else {
        JoinExploded(s[w..], n - 1);
        JoinedCons(s[..w], Exploded(s[w..], n - 1), []);
      }
    }
  }

  lemma AtPrefix(s: seq<byte>, sep: seq<byte>, m: nat, i: int)
    requires m <= |s| && sep != []
    ensures At(s[..m], sep, i) ==> i < m && At(s, sep, i)
  {
    if At(s[..m], sep, i) { assert s[..m][i..i + |sep|] == s[i..i + |sep|]; }
  }

  /** Splitting without a limit leaves no separator in any piece. */
  lemma {:induction false} NoPieceContains(s: seq<byte>, sep: seq<byte>, n: nat, k: nat)
    requires sep != [] && Occurrences(s, sep) < n && k < |Pieces(s, sep, 0, n)|
    ensures First(Pieces(s, sep, 0, n)[k], sep) == -1
    decreases n
  {
    hide First;
    var m := First(s, sep);
    if m >= 0 {
      if k == 0 {
        forall i: int ensures At(s[..m], sep, i) ==> i < m && At(s, sep, i) { AtPrefix(s, sep, m, i); }
      } else {
        NoPieceContains(s[m + |sep|..], sep, n - 1, k - 1);
      }
    }
  }

  /** Each piece but the last ends where the separator first occurs. */
  lemma {:induction false} CutsLeftmost(s: seq<byte>, sep: seq<byte>, n: nat, k: nat)
    requires sep != [] && 0 < n && k + 1 < |Pieces(s, sep, 0, n)|
    ensures var piece := Pieces(s, sep, 0, n)[k]; IsFirst(piece + sep, sep, |piece|)
    decreases n
  {
    hide First;
    var m := First(s, sep);
    if k == 0 {
      assert s[..m] + sep == s[..m + |sep|] by { assert s[m..m + |sep|] == sep; }
      assert (s[..m] + sep)[m..] == sep;
      forall i: int | 0 <= i < m ensures !At(s[..m] + sep, sep, i) { AtPrefix(s, sep, m + |sep|, i); }
    } else {
      CutsLeftmost(s[m + |sep|..], sep, n - 1, k - 1);
    }
  }

  /** The number of pieces: one more than the separators cut at. */
  lemma {:induction false} PieceCount(s: seq<byte>, sep: seq<byte>, save: nat, n: nat)
    requires sep != [] && save <= |sep| && 0 < n
    ensures |Pieces(s, sep, save, n)| == Min(n, Occurrences(s, sep) + 1)
    decreases n
  {
    hide First;
    var m := First(s, sep);
    if n > 1 && m >= 0 { PieceCount(s[m + |sep|..], sep, save, n - 1); }
  }

  /** Replacing is splitting at the old text and joining with the new. */
  function Replaced(s: seq<byte>, old_: seq<byte>, new_: seq<byte>, n: nat): seq<byte>
    requires old_ != []
  {
    Joined(Pieces(s, old_, 0, n + 1), new_)
  }

  /** The runes of s one by one, n - 1 of them at most, and what is left. */
  function Parts(s: seq<byte>, n: nat): seq<seq<byte>>
    requires 0 < n <= Runes(s) + 1
  {
    if n <= Runes(s) then Exploded(s, n) else Exploded(s, Runes(s)) + [[]]
  }

  lemma PartsStep(s: seq<byte>, n: nat)
    requires 0 < n <= Runes(s) + 1
    ensures var w := DecodeRune(s).size;
      Parts(s, n) == if n == 1 then [s] else [s[..w]] + Parts(s[w..], n - 1)
  {
    hide DecodeRune;
    if s == [] {
      assert Exploded(s, 0) + [[]] == [s];
    } else {
      RunesStep(s);
      ExplodedStep(s, n);
      if n == Runes(s) + 1 { ExplodedStep(s, Runes(s)); }
      if Runes(s) == 1 { WholeRune(s); }
    }
  }

  lemma WholeRune(s: seq<byte>)
    requires s != [] && Runes(s) == 1
    ensures s[..DecodeRune(s).size] == s && s[DecodeRune(s).size..] == []
  {
    hide DecodeRune;
    RunesStep(s);
    var rest := s[DecodeRune(s).size..];
    if rest != [] { RunesStep(rest); }
  }

  lemma InterleavedHead(s: seq<byte>, new_: seq<byte>, n: nat)
    requires 0 < n
    ensures var w := DecodeRune(s).size;
      Interleaved(s, new_, n) == if n == 1 then new_ + s else new_ + s[..w] + Interleaved(s[w..], new_, n - 1)
  {
    hide DecodeRune;
  }

  lemma JoinedLeading(parts: seq<seq<byte>>, new_: seq<byte>)
    requires parts != []
    ensures Joined([[]] + parts, new_) == new_ + Joined(parts, new_)
  {
    JoinedCons([], parts, new_);
    NothingBefore(new_);
  }

  /** Putting new_ in n places is putting it in front of each of these parts. */
  lemma {:induction false} InterleavedIsJoined(s: seq<byte>, new_: seq<byte>, n: nat)
    requires 0 < n <= Runes(s) + 1
    ensures Interleaved(s, new_, n) == Joined([[]] + Parts(s, n), new_)
    decreases n
  {
    hide DecodeRune, Parts, Joined, Interleaved;
    PartsStep(s, n);
    InterleavedHead(s, new_, n);
    JoinedLeading(Parts(s, n), new_);
    if n == 1 {
      JoinedOne(s, new_);
    } else {
      var w := DecodeRune(s).size;
      var rest := s[w..];
      RunesStep(s);
      hide Runes;
      InterleavedIsJoined(rest, new_, n - 1);
      PartsStep(rest, n - 1);
      var parts := Parts(rest, n - 1);
      JoinedLeading(parts, new_);
      JoinedCons(s[..w], parts, new_);
      Associate(new_, s[..w], new_ + Joined(parts, new_));
      Associate(s[..w], new_, Joined(parts, new_));
    }
  }

  // ---- The algorithms ----

  method RuneCount(s: seq<byte>) returns (n: nat)
    ensures n == Runes(s)
  {
    hide DecodeRune;
    n := 0;
    var i := 0;
    assert s[0..] == s;
    while i < |s|
      invariant i <= |s| && n + Runes(s[i..]) == Runes(s)
    {
      var w := RuneWidth(s, i);
      assert s[i..][w..] == s[i + w..];
      n := n + 1;
      i := i + w;
    }
  }

  /** The width RuneCount finds from the tables, without decoding anything. */
  method RuneWidth(p: seq<byte>, i: nat) returns (size: nat)
    requires i < |p|
    ensures size == DecodeRune(p[i..]).size
  {
    var c := p[i];
    if c < RUNE_SELF { return 1; }
    size := FirstSize(c);
    if size == 1 { return 1; }          // invalid
    if i + size > |p| { return 1; }     // short or invalid
    if !AcceptsSecond(c, p[i + 1]) { return 1; }
    if size == 2 { return; }
    if !IsContinuation(p[i + 2]) { return 1; }
    if size == 3 { return; }
    if !IsContinuation(p[i + 3]) { return 1; }
  }

  method CountByte(b: seq<byte>, c: byte) returns (n: nat)
    ensures n == Occurrences(b, [c])
  {
    n := 0;
    assert b[0..] == b;
    for i := 0 to |b|
      invariant n + Occurrences(b[i..], [c]) == Occurrences(b, [c])
    {
      OccurrencesHead(b, i, c);
      if b[i] == c { n := n + 1; }
    }
  }

  lemma OccurrencesHead(b: seq<byte>, i: nat, c: byte)
    requires i < |b|
    ensures Occurrences(b[i..], [c]) == (if b[i] == c then 1 else 0) + Occurrences(b[i + 1..], [c])
  {
    hide First;
    var s, t := b[i..], b[i + 1..];
    assert s[1..] == t && s[0] == b[i] && s[0..1] == [s[0]];
    var m, k := First(s, [c]), First(t, [c]);
    if s[0] == c {
      FirstIsUnique(s, [c], m, 0);
    } else {
      AtShift(s, [c], 1, k);
      FirstInRest(s, [c], 1, k);
      FirstIsUnique(s, [c], m, if k < 0 then -1 else 1 + k);
      if k >= 0 { assert s[m + 1..] == t[k + 1..]; }
    }
  }

  method Count(s: seq<byte>, sep: seq<byte>, tuning: Tuning) returns (n: nat)
    ensures n == if sep == [] then Runes(s) + 1 else Occurrences(s, sep)
  {
    if |sep| == 0 {
      n := RuneCount(s);
      return n + 1;
    }
    if |sep| == 1 {
      assert sep == [sep[0]];
      n := CountByte(s, sep[0]);
      return;
    }
    n := 0;
    var rest := s;
    while true
      invariant n + Occurrences(rest, sep) == Occurrences(s, sep)
      decreases |rest|
    {
      var i := Index(rest, sep, tuning);
      FirstIsUnique(rest, sep, i, First(rest, sep));
      if i == -1 { return; }
      n := n + 1;
      rest := rest[i + |sep|..];
    }
  }

  method Explode(s: seq<byte>, n: int) returns (pieces: seq<seq<byte>>)
    ensures pieces == Exploded(s, if n <= 0 then |s| else n)
  {
    hide DecodeRune, Exploded;
    var limit := if n <= 0 then |s| else n;
    var a := new seq<byte>[limit];
    var rest, na := s, 0;
    while |rest| > 0
      invariant 0 <= na <= limit && (|rest| > 0 ==> na < limit) && (n <= 0 ==> |rest| <= limit - na)
      invariant a[..na] + Exploded(rest, limit - na) == Exploded(s, limit)
      decreases |rest|
    {
      ExplodedStep(rest, limit - na);
      if na + 1 >= limit {
        a[na] := rest;
        return a[..na + 1];
      }
      var size := DecodeRune(rest).size;
      a[na] := rest[..size];
      rest := rest[size..];
      na := na + 1;
    }
    ExplodedNone(limit - na);
    return a[..na];
  }

  lemma ExplodedStep(s: seq<byte>, n: nat)
    requires s != [] && 0 < n
    ensures var w := DecodeRune(s).size;
      Exploded(s, n) == if n == 1 then [s] else [s[..w]] + Exploded(s[w..], n - 1)
  {
    hide DecodeRune;
  }

  lemma ExplodedNone(n: nat)
    ensures Exploded([], n) == []
  {
  }

  method GenSplit(s: seq<byte>, sep: seq<byte>, sepSave: nat, n: int, tuning: Tuning) returns (pieces: seq<seq<byte>>)
    requires sepSave <= |sep|
    ensures n == 0 ==> pieces == []
    ensures n != 0 && sep == [] ==> pieces == Exploded(s, if n < 0 then |s| else n)
    ensures n != 0 && sep != [] ==> pieces == Pieces(s, sep, sepSave, if n < 0 then Occurrences(s, sep) + 1 else n)
  {
    hide Pieces, Occurrences, First, At, IsFirst;
    if n == 0 { return []; }
    if |sep| == 0 {
      pieces := Explode(s, n);
      return;
    }
    var limit := n;
    if n < 0 {
      limit := Count(s, sep, tuning);
      limit := limit + 1;
    }
    var a := new seq<byte>[limit];
    var rest, i := s, 0;
    ghost var done: seq<seq<byte>>, whole := [], Pieces(s, sep, sepSave, limit);
    while i < limit - 1
      invariant 0 <= i < limit && a[..i] == done
      invariant done + Pieces(rest, sep, sepSave, limit - i) == whole
    {
      var m := NextPiece(rest, sep, sepSave, limit - i, tuning);
      if m < 0 { break; }
      var piece := rest[..m + sepSave];
      rest := rest[m + |sep|..];
      a[i] := piece;
      i := i + 1;
      Snoc(done, piece, Pieces(rest, sep, sepSave, limit - i));
      done := done + [piece];
    }
    PiecesStep(rest, sep, sepSave, limit - i);
    a[i] := rest;
    return a[..i + 1];
  }

  /** Where the next of at least two pieces ends, if there is a separator. */
  method NextPiece(s: seq<byte>, sep: seq<byte>, ghost save: nat, ghost n: nat, tuning: Tuning) returns (m: int)
    requires sep != [] && save <= |sep| && 1 < n
    ensures m < 0 || m + |sep| <= |s|
    ensures m >= 0 ==> Pieces(s, sep, save, n) == [s[..m + save]] + Pieces(s[m + |sep|..], sep, save, n - 1)
    ensures m < 0 ==> Pieces(s, sep, save, n) == [s] == Pieces(s, sep, save, 1)
  {
    hide Pieces, First, At, IsFirst;
    m := Index(s, sep, tuning);
    FirstIsUnique(s, sep, m, First(s, sep));
    FirstFits(s, sep);
    PiecesStep(s, sep, save, n);
    PiecesStep(s, sep, save, 1);
  }

  lemma PiecesStep(s: seq<byte>, sep: seq<byte>, save: nat, n: nat)
    requires sep != [] && save <= |sep| && 0 < n
    ensures var m := First(s, sep);
      Pieces(s, sep, save, n)
        == if n == 1 || m < 0 then [s] else [s[..m + save]] + Pieces(s[m + |sep|..], sep, save, n - 1)
  {
  }

  function TotalLength(pieces: seq<seq<byte>>): nat {
    if pieces == [] then 0 else |pieces[0]| + TotalLength(pieces[1..])
  }

  lemma {:induction false} JoinedLength(pieces: seq<seq<byte>>, sep: seq<byte>)
    requires pieces != []
    ensures |Joined(pieces, sep)| == |sep| * (|pieces| - 1) + TotalLength(pieces)
  {
    if |pieces| > 1 {
      JoinedLength(pieces[1..], sep);
      assert |sep| * (|pieces| - 1) == |sep| + |sep| * (|pieces| - 2);
    } else {
      assert TotalLength(pieces) == |pieces[0]| + TotalLength(pieces[1..]);
    }
  }

  lemma {:induction false} JoinedSnoc(pieces: seq<seq<byte>>, last: seq<byte>, sep: seq<byte>)
    requires pieces != []
    ensures Joined(pieces + [last], sep) == Joined(pieces, sep) + sep + last
  {
    if |pieces| > 1 {
      JoinedSnoc(pieces[1..], last, sep);
      assert pieces + [last] == [pieces[0]] + (pieces[1..] + [last]);
      JoinedCons(pieces[0], pieces[1..] + [last], sep);
      JoinedCons(pieces[0], pieces[1..], sep);
      assert [pieces[0]] + pieces[1..] == pieces;
    } else {
      JoinedCons(pieces[0], [last], sep);
      assert [pieces[0]] + [last] == pieces + [last];
      assert pieces == [pieces[0]];
    }
  }

  /** Appends bytes at b[w..], behind what has been written. */
  method Put(b: array<byte>, w: nat, bytes: seq<byte>, ghost written: seq<byte>) returns (w1: nat)
    requires w + |bytes| <= b.Length && b[..w] == written
    modifies b
    ensures w1 == w + |bytes| && b[..w1] == written + bytes
  {
    forall k | 0 <= k < |bytes| { b[w + k] := bytes[k]; }
    w1 := w + |bytes|;
    assert forall k | 0 <= k < w :: b[k] == written[k];
  }

  method Join(s: seq<seq<byte>>, sep: seq<byte>) returns (joined: seq<byte>)
    ensures joined == Joined(s, sep)
  {
    if |s| == 0 { return []; }
    if |s| == 1 { return s[0]; }
    var n := |sep| * (|s| - 1);
    assert s[0..] == s;
    for k := 0 to |s|
      invariant n + TotalLength(s[k..]) == |sep| * (|s| - 1) + TotalLength(s)
    {
      assert s[k..][1..] == s[k + 1..];
      n := n + |s[k]|;
    }
    JoinedLength(s, sep);
    joined := JoinInto(s, sep, n);
  }

  method JoinInto(s: seq<seq<byte>>, sep: seq<byte>, n: nat) returns (joined: seq<byte>)
    requires s != [] && n == |Joined(s, sep)|
    ensures joined == Joined(s, sep)
  {
    hide Joined;
    var b := new byte[n];
    assert s[..1] == [s[0]] && s[..|s|] == s;
    JoinedOne(s[0], sep);
    JoinedPrefix(s, 1, sep);
    var bp := Put(b, 0, s[0], []);
    for k := 1 to |s|
      invariant bp == |Joined(s[..k], sep)| <= n && b[..bp] == Joined(s[..k], sep)
    {
      assert s[..k + 1] == s[..k] + [s[k]];
      JoinedSnoc(s[..k], s[k], sep);
      JoinedPrefix(s, k + 1, sep);
      bp := Put(b, bp, sep, Joined(s[..k], sep));
      bp := Put(b, bp, s[k], Joined(s[..k], sep) + sep);
    }
    return b[..];
  }

  lemma JoinedOne(piece: seq<byte>, sep: seq<byte>)
    ensures Joined([piece], sep) == piece
  {
  }

  lemma {:induction false} JoinedPrefix(s: seq<seq<byte>>, k: nat, sep: seq<byte>)
    requires 1 <= k <= |s|
    ensures |Joined(s[..k], sep)| <= |Joined(s, sep)|
    decreases |s| - k
  {
    hide Joined;
    if k < |s| {
      assert s[..k + 1] == s[..k] + [s[k]];
      JoinedSnoc(s[..k], s[k], sep);
      JoinedPrefix(s, k + 1, sep);
    } else {
      assert s[..k] == s;
    }
  }

  // ---- Replace ----

  /** Replacing the first of n occurrences, found at m. */
  lemma ReplaceStep(s: seq<byte>, old_: seq<byte>, new_: seq<byte>, n: nat, m: int)
    requires old_ != [] && 0 < n <= Occurrences(s, old_) && m == First(s, old_)
    ensures 0 <= m && m + |old_| <= |s| && n - 1 <= Occurrences(s[m + |old_|..], old_)
    ensures Replaced(s, old_, new_, n) == s[..m] + new_ + Replaced(s[m + |old_|..], old_, new_, n - 1)
  {
    hide First, Pieces, Occurrences, Joined;
    OccurrencesStep(s, old_);
    FirstFits(s, old_);
    ReplaceFirst(s, old_, new_, n, m);
  }

  lemma ReplaceFirst(s: seq<byte>, old_: seq<byte>, new_: seq<byte>, n: nat, m: nat)
    requires old_ != [] && 0 < n && m == First(s, old_) && m + |old_| <= |s|
    ensures Replaced(s, old_, new_, n) == s[..m] + new_ + Replaced(s[m + |old_|..], old_, new_, n - 1)
  {
    hide First, Pieces, Joined;
    PiecesStep(s, old_, 0, n + 1);
    JoinedCons(s[..m], Pieces(s[m + |old_|..], old_, 0, n), new_);
  }

  lemma ReplaceNone(s: seq<byte>, old_: seq<byte>, new_: seq<byte>, n: nat)
    requires old_ != [] && (n == 0 || Occurrences(s, old_) == 0)
    ensures Replaced(s, old_, new_, n) == s
  {
    hide First;
  }

  /** Asking for more replacements than there are occurrences changes nothing. */
  lemma {:induction false} PiecesEnough(s: seq<byte>, sep: seq<byte>, n: nat)
    requires sep != [] && Occurrences(s, sep) < n
    ensures Pieces(s, sep, 0, n) == Pieces(s, sep, 0, Occurrences(s, sep) + 1)
    decreases n
  {
    hide First;
    var m := First(s, sep);
    if m >= 0 { PiecesEnough(s[m + |sep|..], sep, n - 1); }
  }

  lemma {:induction false} ReplacedLength(s: seq<byte>, old_: seq<byte>, new_: seq<byte>, n: nat)
    requires old_ != [] && n <= Occurrences(s, old_)
    ensures |Replaced(s, old_, new_, n)| == |s| + n * (|new_| - |old_|)
    decreases n
  {
    hide First, Pieces;
    if n == 0 {
      ReplaceNone(s, old_, new_, 0);
    } else {
      var m := First(s, old_);
      ReplaceStep(s, old_, new_, n, m);
      ReplacedLength(s[m + |old_|..], old_, new_, n - 1);
      assert n * (|new_| - |old_|) == (n - 1) * (|new_| - |old_|) + |new_| - |old_|;
    }
  }

  lemma {:induction false} InterleavedLength(s: seq<byte>, new_: seq<byte>, n: nat)
    requires n <= Runes(s) + 1
    ensures |Interleaved(s, new_, n)| == |s| + n * |new_|
    decreases n
  {
    hide DecodeRune;
    if n > 1 {
      InterleavedLength(s[DecodeRune(s).size..], new_, n - 1);
      assert n * |new_| == (n - 1) * |new_| + |new_|;
    }
  }

  method Replace(s: seq<byte>, old_: seq<byte>, new_: seq<byte>, n: int, tuning: Tuning) returns (r: seq<byte>)
    ensures old_ != [] ==> r == Replaced(s, old_, new_, if n < 0 then Occurrences(s, old_) else n)
    ensures old_ == [] ==> r == Interleaved(s, new_, if n < 0 then Runes(s) + 1 else Min(n, Runes(s) + 1))
  {
    hide Occurrences, Replaced, Interleaved, Runes;
    var m := 0;
    if n != 0 { m := Count(s, old_, tuning); }
    if m == 0 {
      if old_ != [] {
        ReplaceNone(s, old_, new_, if n < 0 then Occurrences(s, old_) else n);
      } else {
        InterleavedNone(s, new_);
      }
      return s;
    }
    var k := n;
    if n < 0 || m < n { k := m; }
    if old_ != [] {
      ReplacedEnough(s, old_, new_, if n < 0 then m else n);
      r := ReplaceText(s, old_, new_, k, tuning);
    } else {
      r := InsertBetween(s, new_, k);
    }
  }

  lemma InterleavedNone(s: seq<byte>, new_: seq<byte>)
    ensures Interleaved(s, new_, 0) == s
  {
  }

  lemma ReplacedEnough(s: seq<byte>, old_: seq<byte>, new_: seq<byte>, n: nat)
    requires old_ != []
    ensures Replaced(s, old_, new_, n) == Replaced(s, old_, new_, Min(n, Occurrences(s, old_)))
  {
    if Occurrences(s, old_) < n + 1 { PiecesEnough(s, old_, n + 1); }
  }

  /** The replacing loop for a non-empty old text. */
  method ReplaceText(s: seq<byte>, old_: seq<byte>, new_: seq<byte>, n: nat, tuning: Tuning) returns (r: seq<byte>)
    requires old_ != [] && n <= Occurrences(s, old_)
    ensures r == Replaced(s, old_, new_, n)
  {
    hide Occurrences, Replaced, First, At;
    ReplacedLength(s, old_, new_, n);
    var t := new byte[|s| + n * (|new_| - |old_|)];
    var w: nat, start: nat := 0, 0;
    ghost var out: seq<byte> := [];
    assert s[0..] == s;
    for i := 0 to n
      invariant start <= |s| && w == |out| <= t.Length && t[..w] == out
      invariant n - i <= Occurrences(s[start..], old_)
      invariant out + Replaced(s[start..], old_, new_, n - i) == Replaced(s, old_, new_, n)
    {
      var j := Index(s[start..], old_, tuning);
      w, start, out := ReplaceOne(s, start, old_, new_, n - i, j, t, w, out);
    }
    ReplaceNone(s[start..], old_, new_, 0);
    w := Put(t, w, s[start..], out);
    assert t[..w] == t[..];
    return t[..w];
  }

  /** Copies s up to the occurrence at start + j, then new_. */
  method ReplaceOne(s: seq<byte>, start: nat, old_: seq<byte>, new_: seq<byte>, ghost n: nat, j: int,
                    t: array<byte>, w: nat, ghost out: seq<byte>)
    returns (w1: nat, start1: nat, ghost out1: seq<byte>)
    requires start <= |s| && old_ != [] && 0 < n <= Occurrences(s[start..], old_) && IsFirst(s[start..], old_, j)
    requires w == |out| && |out + Replaced(s[start..], old_, new_, n)| <= t.Length && t[..w] == out
    modifies t
    ensures start1 <= |s| && w1 == |out1| <= t.Length && t[..w1] == out1
    ensures n - 1 <= Occurrences(s[start1..], old_)
    ensures out1 + Replaced(s[start1..], old_, new_, n - 1) == out + Replaced(s[start..], old_, new_, n)
  {
    hide Occurrences, Replaced, First, At, IsFirst;
    FirstIsUnique(s[start..], old_, j, First(s[start..], old_));
    ReplaceStep(s[start..], old_, new_, n, j);
    DropDrop(s, start, j);
    DropDrop(s, start, j + |old_|);
    start1 := start + (j + |old_|);
    Extend(out, Replaced(s[start..], old_, new_, n), s[start..start + j], new_,
           Replaced(s[start1..], old_, new_, n - 1));
    w1 := Put(t, w, s[start..start + j], out);
    w1 := Put(t, w1, new_, out + s[start..start + j]);
    out1 := out + s[start..start + j] + new_;
  }

  lemma FirstFits(s: seq<byte>, sep: seq<byte>)
    ensures First(s, sep) == -1 || 0 <= First(s, sep) <= |s| - |sep|
  {
  }

  /** out, then a whole that splits into three parts. */
  lemma Extend(out: seq<byte>, whole: seq<byte>, a: seq<byte>, b: seq<byte>, c: seq<byte>)
    requires whole == a + b + c
    ensures out + a + b + c == out + whole
  {
    Regroup(out, a, b, c);
    assert a + b + c == a + (b + c);
  }

  lemma OccurrencesStep(s: seq<byte>, sep: seq<byte>)
    requires sep != []
    ensures var m := First(s, sep);
      Occurrences(s, sep) == if m < 0 then 0 else 1 + Occurrences(s[m + |sep|..], sep)
  {
  }

  /** The same loop when the old text is empty: step over one rune each time. */
  method InsertBetween(s: seq<byte>, new_: seq<byte>, n: nat) returns (r: seq<byte>)
    requires 0 < n <= Runes(s) + 1
    ensures r == Interleaved(s, new_, n)
  {
    hide DecodeRune, Runes, Interleaved;
    InterleavedLength(s, new_, n);
    var t := new byte[|s| + n * |new_|];
    var w := Put(t, 0, new_, []);
    var start: nat := 0;
    ghost var out := new_;
    assert s[0..] == s;
    InterleavedStep(s, new_, n);
    hide AfterFirst;
    for i := 1 to n
      invariant start <= |s| && w == |out| <= t.Length && t[..w] == out
      invariant n - i <= Runes(s[start..])
      invariant out + AfterFirst(s[start..], new_, n - i) == Interleaved(s, new_, n)
    {
      w, start, out := InsertOne(s, start, new_, n - i, t, w, out);
    }
    AfterLast(s[start..], new_);
    w := Put(t, w, s[start..], out);
    assert t[..w] == t[..];
    return t[..w];
  }

  /** Copies one rune, then new_. */
  method InsertOne(s: seq<byte>, start: nat, new_: seq<byte>, ghost n: nat, t: array<byte>, w: nat,
                   ghost out: seq<byte>)
    returns (w1: nat, start1: nat, ghost out1: seq<byte>)
    requires start <= |s| && 0 < n <= Runes(s[start..])
    requires w == |out| && |out + AfterFirst(s[start..], new_, n)| <= t.Length && t[..w] == out
    modifies t
    ensures start1 <= |s| && w1 == |out1| <= t.Length && t[..w1] == out1
    ensures n - 1 <= Runes(s[start1..])
    ensures out1 + AfterFirst(s[start1..], new_, n - 1) == out + AfterFirst(s[start..], new_, n)
  {
    hide DecodeRune, Runes, AfterFirst;
    RunesStep(s[start..]);
    var wid := DecodeRune(s[start..]).size;
    DropDrop(s, start, wid);
    InsertStep(s, start, new_, n, out);
    start1 := start + wid;
    w1 := Put(t, w, s[start..start + wid], out);
    w1 := Put(t, w1, new_, out + s[start..start + wid]);
    out1 := out + s[start..start + wid] + new_;
  }

  lemma AfterLast(s: seq<byte>, new_: seq<byte>)
    ensures AfterFirst(s, new_, 0) == s
  {
  }

  lemma InsertStep(s: seq<byte>, start: nat, new_: seq<byte>, n: nat, out: seq<byte>)
    requires start <= |s| && 0 < n
    ensures var w := DecodeRune(s[start..]).size;
      out + s[start..start + w] + new_ + AfterFirst(s[start + w..], new_, n - 1)
      == out + AfterFirst(s[start..], new_, n)
  {
    hide DecodeRune, Interleaved;
    var w := DecodeRune(s[start..]).size;
    DropDrop(s, start, w);
    InterleavedStep(s[start + w..], new_, n);
    hide AfterFirst;
    Regroup(out, s[start..start + w], new_, AfterFirst(s[start + w..], new_, n - 1));
  }

  /** What is left of an interleaving once the first new_ has been written. */
  function AfterFirst(s: seq<byte>, new_: seq<byte>, n: nat): seq<byte> {
    if n == 0 then s else s[..DecodeRune(s).size] + Interleaved(s[DecodeRune(s).size..], new_, n)
  }

  lemma InterleavedStep(s: seq<byte>, new_: seq<byte>, n: nat)
    requires 0 < n
    ensures Interleaved(s, new_, n) == new_ + AfterFirst(s, new_, n - 1)
  {
    hide DecodeRune;
    if n > 1 {
      var w := DecodeRune(s).size;
      Associate(new_, s[..w], Interleaved(s[w..], new_, n - 1));
    }
  }

  lemma RunesStep(s: seq<byte>)
    ensures Runes(s) == if s == [] then 0 else 1 + Runes(s[DecodeRune(s).size..])
  {
  }
}
