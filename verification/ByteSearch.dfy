/** bytes.Index and bytes.LastIndex: every way the library searches for a substring
    finds the first, respectively the last, occurrence. */
module ByteSearch {
  import opened Utf8
  import opened Io
  import opened Basics

  /** sep occurs in s at i. */
  predicate At(s: seq<byte>, sep: seq<byte>, i: int) {
    0 <= i && i + |sep| <= |s| && s[i..i + |sep|] == sep
  }

  ghost predicate IsFirst(s: seq<byte>, sep: seq<byte>, r: int) {
    && (r == -1 || At(s, sep, r))
    && forall i | 0 <= i < if r == -1 then |s| + 1 else r :: !At(s, sep, i)
  }

  ghost predicate IsLast(s: seq<byte>, sep: seq<byte>, r: int) {
    && (r == -1 || At(s, sep, r))
    && forall i | r < i <= |s| :: !At(s, sep, i)
  }

  // ---- Rolling hashes, modulo 2^32 ----

  const PRIME_RK := 16777619

  function Power(b: nat, e: nat): nat {
    if e == 0 then 1 else b * Power(b, e - 1)
  }

  /** s as the digits of a number to base PRIME_RK, first byte least significant. */
  function RevPoly(s: seq<byte>): nat {
    if s == [] then 0 else s[0] as int + PRIME_RK * RevPoly(s[1..])
  }

  /** The same with the last byte least significant. */
  function Poly(s: seq<byte>): nat {
    if s == [] then 0 else PRIME_RK * Poly(s[..|s| - 1]) + s[|s| - 1] as int
  }

  lemma ModStep(a: int, b: int)
    ensures (a % TWO_32 * PRIME_RK + b) % TWO_32 == (a * PRIME_RK + b) % TWO_32
  {
    var q := a / TWO_32;
    assert a * PRIME_RK + b == a % TWO_32 * PRIME_RK + b + q * PRIME_RK * TWO_32;
    ModPlus(a % TWO_32 * PRIME_RK + b, q * PRIME_RK);
  }

  lemma ModPlus(a: int, k: int)
    ensures (a + k * TWO_32) % TWO_32 == a % TWO_32
  {
    var q, r := a / TWO_32, a % TWO_32;
    assert a + k * TWO_32 == (q + k) * TWO_32 + r;
  }

  lemma ModMul(a: int, b: int)
    ensures (a % TWO_32 * b) % TWO_32 == (a * b) % TWO_32
  {
    var q := a / TWO_32;
    assert a * b == a % TWO_32 * b + q * b * TWO_32;
    ModPlus(a % TWO_32 * b, q * b);
  }

  lemma ModBoth(a: int, b: int)
    ensures (a % TWO_32 * (b % TWO_32)) % TWO_32 == (a * b) % TWO_32
  {
    ModMul(a, b % TWO_32);
    ModMul(b, a);
    assert a * (b % TWO_32) == b % TWO_32 * a;
    assert a * b == b * a;
  }

  lemma {:induction false} PowerMod(b: nat, e: nat)
    ensures Power(b % TWO_32, e) % TWO_32 == Power(b, e) % TWO_32
  {
    if e > 0 {
      PowerMod(b, e - 1);
      ModBoth(b, Power(b, e - 1));
      ModBoth(b % TWO_32, Power(b % TWO_32, e - 1));
      assert b % TWO_32 % TWO_32 == b % TWO_32;
    }
  }

  lemma {:induction false} PowerSquare(b: nat, k: nat)
    ensures Power(b * b, k) == Power(b, 2 * k)
  {
    if k > 0 {
      PowerSquare(b, k - 1);
      assert Power(b, 2 * k) == b * Power(b, 2 * k - 1) == b * (b * Power(b, 2 * (k - 1)));
      assert b * (b * Power(b, 2 * (k - 1))) == b * b * Power(b, 2 * (k - 1));
    }
  }

  /** One round of square-and-multiply keeps pow * sq^i. */
  lemma SquareStep(pow: nat, sq: nat, i: nat)
    requires 0 < i
    ensures var pow1 := if i % 2 != 0 then (pow * sq) % TWO_32 else pow;
      (pow1 * Power((sq * sq) % TWO_32, i / 2)) % TWO_32 == (pow * Power(sq, i)) % TWO_32
  {
    var k := i / 2;
    var p := Power(sq, 2 * k);
    HalfPower(sq, k);
    hide Power;
    if i % 2 != 0 {
      ModMulRight((pow * sq) % TWO_32, Power((sq * sq) % TWO_32, k), p);
      ModMul(pow * sq, p);
      OddPower(sq, i);
      MulAssociate(pow, sq, p);
    } else {
      ModMulRight(pow, Power((sq * sq) % TWO_32, k), p);
    }
  }

  lemma HalfPower(sq: nat, k: nat)
    ensures Power((sq * sq) % TWO_32, k) % TWO_32 == Power(sq, 2 * k) % TWO_32
  {
    PowerMod(sq * sq, k);
    PowerSquare(sq, k);
  }

  lemma OddPower(b: nat, i: nat)
    requires i % 2 != 0
    ensures Power(b, i) == b * Power(b, 2 * (i / 2))
  {
  }

  lemma MulAssociate(a: int, b: int, c: int)
    ensures a * b * c == a * (b * c)
  {
  }

  lemma ModMulRight(a: int, b: int, c: int)
    requires b % TWO_32 == c % TWO_32
    ensures (a * b) % TWO_32 == (a * c) % TWO_32
  {
    ModMul(b, a);
    ModMul(c, a);
    assert a * b == b * a && a * c == c * a;
  }

  /** The factor that removes the oldest byte of a window of n bytes. */
  method PowerOf(n: nat) returns (pow: nat)
    ensures pow == Power(PRIME_RK, n) % TWO_32
  {
    pow := 1;
    var sq: nat := PRIME_RK;
    var i := n;
    while i > 0
      invariant 0 <= i && pow < TWO_32
      invariant (pow * Power(sq, i)) % TWO_32 == Power(PRIME_RK, n) % TWO_32
    {
      SquareStep(pow, sq, i);
      if i % 2 != 0 { pow := (pow * sq) % TWO_32; }
      sq := (sq * sq) % TWO_32;
      i := i / 2;
    }
  }

  method HashStrRevBytes(sep: seq<byte>) returns (hash: nat, pow: nat)
    ensures hash == RevPoly(sep) % TWO_32 && pow == Power(PRIME_RK, |sep|) % TWO_32
  {
    hash := 0;
    var i := |sep|;
    while i > 0
      invariant 0 <= i <= |sep| && hash == RevPoly(sep[i..]) % TWO_32
    {
      i := i - 1;
      assert sep[i..][1..] == sep[i + 1..];
      ModStep(RevPoly(sep[i + 1..]), sep[i]);
      hash := (hash * PRIME_RK + sep[i]) % TWO_32;
    }
    assert sep[0..] == sep;
    pow := PowerOf(|sep|);
  }

  method HashStrBytes(sep: seq<byte>) returns (hash: nat, pow: nat)
    ensures hash == Poly(sep) % TWO_32 && pow == Power(PRIME_RK, |sep|) % TWO_32
  {
    hash := 0;
    for i := 0 to |sep|
      invariant hash == Poly(sep[..i]) % TWO_32
    {
      assert sep[..i + 1][..i] == sep[..i];
      ModStep(Poly(sep[..i]), sep[i]);
      hash := (hash * PRIME_RK + sep[i]) % TWO_32;
    }
    assert sep[..|sep|] == sep;
    pow := PowerOf(|sep|);
  }

  lemma Distribute(x: int, p: int, c: int)
    ensures PRIME_RK * (x + p * c) == PRIME_RK * x + PRIME_RK * p * c
  {
  }

  lemma {:induction false} RevPolySnoc(w: seq<byte>, c: byte)
    ensures RevPoly(w + [c]) == RevPoly(w) + Power(PRIME_RK, |w|) * c
  {
    if w == [] {
      assert w + [c] == [c];
      assert RevPoly([c]) == c as int + PRIME_RK * RevPoly([c][1..]);
    } else {
      var t := w[1..];
      assert (w + [c])[1..] == t + [c];
      RevPolySnoc(t, c);
      Distribute(RevPoly(t), Power(PRIME_RK, |t|), c);
    }
  }

  lemma {:induction false} PolyCons(c: byte, w: seq<byte>)
    ensures Poly([c] + w) == Power(PRIME_RK, |w|) * c + Poly(w)
  {
    if w == [] {
      assert [c] + w == [c];
      assert Poly([c]) == PRIME_RK * Poly([c][..0]) + c as int;
    } else {
      var t := w[..|w| - 1];
      assert ([c] + w)[..|w|] == [c] + t;
      PolyCons(c, t);
      Distribute(Poly(t), Power(PRIME_RK, |t|), c);
    }
  }

  /** Two windows of n bytes, one byte apart, share all but their outer bytes. */
  lemma Windows(s: seq<byte>, i: nat, n: nat)
    requires 0 < n && i + 1 + n <= |s|
    ensures var mid := s[i + 1..i + n];
      s[i..i + n] == [s[i]] + mid && s[i + 1..i + 1 + n] == mid + [s[i + n]]
  {
  }

  /** Moving a window one byte to the left: the reverse hash follows. */
  lemma RollLeft(s: seq<byte>, i: nat, n: nat)
    requires 0 < n && i + 1 + n <= |s|
    ensures RevPoly(s[i..i + n])
         == s[i] as int + PRIME_RK * RevPoly(s[i + 1..i + 1 + n]) - Power(PRIME_RK, n) * s[i + n]
  {
    Windows(s, i, n);
    RollLeftMid(s[i], s[i + 1..i + n], s[i + n]);
  }

  lemma RollLeftMid(c: byte, mid: seq<byte>, d: byte)
    ensures RevPoly([c] + mid) == c as int + PRIME_RK * RevPoly(mid + [d]) - Power(PRIME_RK, |mid| + 1) * d
  {
    RevPolySnoc(mid, d);
    assert ([c] + mid)[1..] == mid;
    Distribute(RevPoly(mid), Power(PRIME_RK, |mid|), d);
  }

  /** Moving a window one byte to the right. */
  lemma RollRight(s: seq<byte>, i: nat, n: nat)
    requires 0 < n && i + 1 + n <= |s|
    ensures Poly(s[i + 1..i + 1 + n])
         == PRIME_RK * Poly(s[i..i + n]) + s[i + n] as int - Power(PRIME_RK, n) * s[i]
  {
    Windows(s, i, n);
    RollRightMid(s[i], s[i + 1..i + n], s[i + n]);
  }

  lemma RollRightMid(c: byte, mid: seq<byte>, d: byte)
    ensures Poly(mid + [d]) == PRIME_RK * Poly([c] + mid) + d as int - Power(PRIME_RK, |mid| + 1) * c
  {
    PolyCons(c, mid);
    assert (mid + [d])[..|mid|] == mid;
    Distribute(Poly(mid), Power(PRIME_RK, |mid|), c);
  }

  /** The uint32 update of a rolling hash, step by step as written, is the exact one
      modulo 2^32. */
  lemma RollMod(h: int, add: int, pow: int, drop: int)
    ensures (((h % TWO_32 * PRIME_RK) % TWO_32 + add) % TWO_32 - (pow % TWO_32 * drop) % TWO_32) % TWO_32
         == (PRIME_RK * h + add - pow * drop) % TWO_32
  {
    ModMul(h, PRIME_RK);
    ModMul(pow, drop);
    var a, b := h * PRIME_RK, pow * drop;
    assert (a % TWO_32 + add) % TWO_32 == (a + add) % TWO_32 by {
      var q := a / TWO_32;
      ModPlus(a % TWO_32 + add, q);
      assert a + add == a % TWO_32 + add + q * TWO_32;
    }
    SubMod(a + add, b);
  }

  lemma SubMod(a: int, b: int)
    ensures (a % TWO_32 - b % TWO_32) % TWO_32 == (a - b) % TWO_32
  {
    var k := a / TWO_32 - b / TWO_32;
    assert a - b == a % TWO_32 - b % TWO_32 + k * TWO_32;
    ModPlus(a % TWO_32 - b % TWO_32, k);
  }

  // ---- Searches ----

  method LastIndexByte(s: seq<byte>, c: byte) returns (r: int)
    ensures IsLast(s, [c], r)
  {
    r := |s| - 1;
    while r >= 0
      invariant -1 <= r < |s|
      invariant forall i | r < i <= |s| :: !At(s, [c], i)
    {
      assert s[r..r + 1] == [s[r]];
      if s[r] == c { return; }
      r := r - 1;
    }
  }

  method IndexOfByte(s: seq<byte>, c: byte) returns (r: int)
    ensures r == IndexByte(s, c)
  {
    hide IndexByte;
    r := 0;
    while r < |s|
      invariant 0 <= r <= |s| && forall k | 0 <= k < r :: s[k] != c
    {
      if s[r] == c { return; }
      r := r + 1;
    }
    return -1;
  }

  /** RollMod on residues. */
  lemma RollResidues(h0: int, h: nat, add: int, pow0: int, pow: nat, drop: int, next: int)
    requires h == h0 % TWO_32 && pow == pow0 % TWO_32 && next == PRIME_RK * h0 + add - pow0 * drop
    ensures (((h * PRIME_RK) % TWO_32 + add) % TWO_32 - (pow * drop) % TWO_32) % TWO_32 == next % TWO_32
  {
    RollMod(h0, add, pow0, drop);
  }

  /** One step of the rolling hash, from the back. */
  lemma RolledLeft(s: seq<byte>, i: nat, n: nat, h: nat, pow: nat)
    requires 0 < n && i + 1 + n <= |s|
    requires h == RevPoly(s[i + 1..i + 1 + n]) % TWO_32 && pow == Power(PRIME_RK, n) % TWO_32
    ensures (((h * PRIME_RK) % TWO_32 + s[i]) % TWO_32 - (pow * s[i + n]) % TWO_32) % TWO_32
         == RevPoly(s[i..i + n]) % TWO_32
  {
    hide RevPoly, Power;
    RollLeft(s, i, n);
    RollResidues(RevPoly(s[i + 1..i + 1 + n]), h, s[i], Power(PRIME_RK, n), pow, s[i + n], RevPoly(s[i..i + n]));
  }

  /** One step of the rolling hash, from the front. */
  lemma RolledRight(s: seq<byte>, i: nat, n: nat, h: nat, pow: nat)
    requires 0 < n && i + 1 + n <= |s|
    requires h == Poly(s[i..i + n]) % TWO_32 && pow == Power(PRIME_RK, n) % TWO_32
    ensures (((h * PRIME_RK) % TWO_32 + s[i + n]) % TWO_32 - (pow * s[i]) % TWO_32) % TWO_32
         == Poly(s[i + 1..i + 1 + n]) % TWO_32
  {
    hide Poly, Power;
    RollRight(s, i, n);
    RollResidues(Poly(s[i..i + n]), h, s[i + n], Power(PRIME_RK, n), pow, s[i], Poly(s[i + 1..i + 1 + n]));
  }

  /** Where sep occurs the hashes agree: filtering by the hash passes no match. */
  lemma HashFilters(s: seq<byte>, sep: seq<byte>, i: nat)
    requires i + |sep| <= |s|
    ensures At(s, sep, i) ==> RevPoly(s[i..i + |sep|]) % TWO_32 == RevPoly(sep) % TWO_32
    ensures At(s, sep, i) ==> Poly(s[i..i + |sep|]) % TWO_32 == Poly(sep) % TWO_32
  {
  }

  /** The last occurrence of sep in s, or -1: Rabin-Karp from the end. */
  method LastIndex(s: seq<byte>, sep: seq<byte>) returns (r: int)
    ensures IsLast(s, sep, r)
  {
    var n := |sep|;
    if n == 0 {
      assert s[|s|..|s|] == [];
      return |s|;
    } else if n == 1 {
      assert sep == [sep[0]];
      r := LastIndexByte(s, sep[0]);
      return;
    } else if n == |s| {
      assert s[0..n] == s;
      if s == sep { return 0; }
      return -1;
    } else if n > |s| {
      return -1;
    }
    r := LastIndexHashed(s, sep);
  }

  method LastIndexHashed(s: seq<byte>, sep: seq<byte>) returns (r: int)
    requires 0 < |sep| < |s|
    ensures IsLast(s, sep, r)
  {
    hide RevPoly, Power;
    var n := |sep|;
    var hashss, pow := HashStrRevBytes(sep);
    var last := |s| - n;
    var h := RevHash(s, last);
    assert s[last..last + n] == s[last..];
    HashFilters(s, sep, last);
    if h == hashss && s[last..] == sep { return last; }
    var i := last;
    while i > 0
      invariant 0 <= i <= last
      invariant h == RevPoly(s[i..i + n]) % TWO_32
      invariant forall k | i <= k <= |s| :: !At(s, sep, k)
    {
      i := i - 1;
      RolledLeft(s, i, n, h, pow);
      h := (h * PRIME_RK) % TWO_32;
      h := (h + s[i]) % TWO_32;
      h := (h - (pow * s[i + n]) % TWO_32) % TWO_32;
      HashFilters(s, sep, i);
      if h == hashss && s[i..i + n] == sep { return i; }
    }
    return -1;
  }

  /** The reverse hash of s[last..], from its last byte to its first. */
  method RevHash(s: seq<byte>, last: nat) returns (h: nat)
    requires last <= |s|
    ensures h == RevPoly(s[last..]) % TWO_32
  {
    h := 0;
    var i := |s|;
    while i > last
      invariant last <= i <= |s| && h == RevPoly(s[i..]) % TWO_32
    {
      i := i - 1;
      assert s[i..][1..] == s[i + 1..];
      ModStep(RevPoly(s[i + 1..]), s[i]);
      h := (h * PRIME_RK + s[i]) % TWO_32;
    }
  }

  /** Rabin-Karp from the start. */
  method IndexRabinKarpBytes(s: seq<byte>, sep: seq<byte>) returns (r: int)
    requires |sep| <= |s|
    ensures IsFirst(s, sep, r)
  {
    hide Poly, Power;
    var n := |sep|;
    var hashsep, pow := HashStrBytes(sep);
    var h: nat, p := HashStrBytes(s[..n]);
    assert s[0..0 + n] == s[..n];
    HashFilters(s, sep, 0);
    if h == hashsep && s[..n] == sep { return 0; }
    var i := n;
    while i < |s|
      invariant n <= i <= |s|
      invariant h == Poly(s[i - n..i]) % TWO_32
      invariant forall k | 0 <= k <= i - n :: !At(s, sep, k)
    {
      RolledRight(s, i - n, n, h, pow);
      h := (h * PRIME_RK) % TWO_32;
      h := (h + s[i]) % TWO_32;
      h := (h - (pow * s[i - n]) % TWO_32) % TWO_32;
      i := i + 1;
      HashFilters(s, sep, i - n);
      if h == hashsep && s[i - n..i] == sep { return i - n; }
    }
    return -1;
  }

  /** What bytealg.Index promises; any implementation may stand in for it. */
  method BytealgIndex(a: seq<byte>, b: seq<byte>) returns (r: int)
    requires 2 <= |b|
    ensures IsFirst(a, b, r)
  {
    r := 0;
    while r + |b| <= |a|
      invariant 0 <= r && forall i | 0 <= i < r :: !At(a, b, i)
    {
      if a[r..r + |b|] == b { return; }
      r := r + 1;
    }
    return -1;
  }

  /** The platform's choices: how long a sep and how short a text are searched by
      brute force, and how many false hits are tolerated. */
  datatype Tuning = Tuning(maxLen: int, maxBruteForce: int, cutover: int -> int)

  /** A match in the rest of s is a match in s. */
  lemma AtShift(s: seq<byte>, sep: seq<byte>, k: nat, i: int)
    requires k <= |s|
    ensures At(s[k..], sep, i) <==> 0 <= i && At(s, sep, k + i)
  {
    if 0 <= i && k + i + |sep| <= |s| { assert s[k..][i..i + |sep|] == s[k + i..k + i + |sep|]; }
  }

  /** Searching the rest after no match before k. */
  lemma FirstInRest(s: seq<byte>, sep: seq<byte>, k: nat, r: int)
    requires k <= |s| && IsFirst(s[k..], sep, r) && forall i | 0 <= i < k :: !At(s, sep, i)
    ensures IsFirst(s, sep, if r < 0 then -1 else k + r)
  {
    AtShift(s, sep, k, r);
    forall i | 0 <= i < if r == -1 then |s| + 1 else k + r
      ensures !At(s, sep, i)
    {
      if i >= k { AtShift(s, sep, k, i - k); }
    }
  }

  /** Position i is no match: sep does not start there. */
  lemma NotAt(s: seq<byte>, sep: seq<byte>, i: nat)
    requires i < |s| && sep != [] && s[i] != sep[0]
    ensures !At(s, sep, i)
  {
    if i + |sep| <= |s| { assert s[i..i + |sep|][0] == s[i]; }
  }

  /** The next place from i on where sep could start, or -1: only that first byte is
      looked at, and no match is skipped. */
  method NextStart(s: seq<byte>, sep: seq<byte>, i: nat, t: nat) returns (j: int)
    requires 2 <= |sep| && i < t && t == |s| - |sep| + 1
    requires forall k | 0 <= k < i :: !At(s, sep, k)
    ensures j == -1 || (i <= j < t && s[j] == sep[0])
    ensures forall k | 0 <= k < if j == -1 then t else j :: !At(s, sep, k)
  {
    hide At, IndexByte;
    j := i;
    if s[i] != sep[0] {
      NotAt(s, sep, i);
      var o := IndexByte(s[i + 1..t], sep[0]);
      forall k | i < k < if o < 0 then t else i + 1 + o
        ensures !At(s, sep, k)
      {
        assert s[i + 1..t][k - i - 1] == s[k];
        NotAt(s, sep, k);
      }
      if o < 0 { return -1; }
      j := i + 1 + o;
    }
  }

  lemma NoMoreMatches(s: seq<byte>, sep: seq<byte>, t: nat)
    requires 2 <= |sep| && t == |s| - |sep| + 1 && forall k | 0 <= k < t :: !At(s, sep, k)
    ensures IsFirst(s, sep, -1)
  {
  }

  /** Two equal leading bytes are checked before the whole of sep. */
  lemma SecondByte(s: seq<byte>, sep: seq<byte>, i: nat)
    requires 2 <= |sep| && i + |sep| <= |s|
    ensures At(s, sep, i) <==> s[i + 1] == sep[1] && s[i..i + |sep|] == sep
  {
    assert s[i..i + |sep|][1] == s[i + 1];
  }

  /** The first occurrence of sep in s, or -1, whatever the tuning. */
  method Index(s: seq<byte>, sep: seq<byte>, tuning: Tuning) returns (r: int)
    ensures IsFirst(s, sep, r)
  {
    var n := |sep|;
    if n == 0 {
      assert s[0..0] == [];
      return 0;
    } else if n == 1 {
      r := IndexByte(s, sep[0]);
      IndexByteIsFirst(s, sep[0]);
      assert sep == [sep[0]];
      return;
    } else if n == |s| {
      assert s[0..n] == s;
      if sep == s { return 0; }
      return -1;
    } else if n > |s| {
      return -1;
    } else if n <= tuning.maxLen {
      if |s| <= tuning.maxBruteForce {
        r := BytealgIndex(s, sep);
        return;
      }
      r := IndexSmall(s, sep, tuning);
      return;
    }
    r := IndexLarge(s, sep);
  }

  lemma IndexByteIsFirst(s: seq<byte>, c: byte)
    ensures IsFirst(s, [c], IndexByte(s, c))
  {
    hide IndexByte;
    forall i | 0 <= i < |s| ensures At(s, [c], i) <==> s[i] == c { assert s[i..i + 1] == [s[i]]; }
  }

  method IndexSmall(s: seq<byte>, sep: seq<byte>, tuning: Tuning) returns (r: int)
    requires 2 <= |sep| < |s|
    ensures IsFirst(s, sep, r)
  {
    hide At;
    var n := |sep|;
    var i, t, fails := 0, |s| - n + 1, 0;
    while i < t
      invariant 0 <= i <= t && forall k | 0 <= k < i :: !At(s, sep, k)
    {
      var j := NextStart(s, sep, i, t);
      if j < 0 {
        NoMoreMatches(s, sep, t);
        return -1;
      }
      i := j;
      SecondByte(s, sep, i);
      if s[i + 1] == sep[1] && s[i..i + n] == sep { return i; }
      fails := fails + 1;
      i := i + 1;
      if fails > tuning.cutover(i) {
        r := BytealgIndex(s[i..], sep);
        FirstInRest(s, sep, i, r);
        return if r >= 0 then r + i else -1;
      }
    }
    NoMoreMatches(s, sep, t);
    return -1;
  }

  method IndexLarge(s: seq<byte>, sep: seq<byte>) returns (r: int)
    requires 2 <= |sep| < |s|
    ensures IsFirst(s, sep, r)
  {
    hide At;
    var n := |sep|;
    var i, t, fails := 0, |s| - n + 1, 0;
    while i < t
      invariant 0 <= i <= t && forall k | 0 <= k < i :: !At(s, sep, k)
    {
      var j := NextStart(s, sep, i, t);
      if j < 0 {
        i := t;
        break;
      }
      i := j;
      SecondByte(s, sep, i);
      if s[i + 1] == sep[1] && s[i..i + n] == sep { return i; }
      i := i + 1;
      fails := fails + 1;
      if fails >= 4 + i / 16 && i < t {
        r := IndexRabinKarpBytes(s[i..], sep);
        FirstInRest(s, sep, i, r);
        return if r < 0 then -1 else i + r;
      }
    }
    NoMoreMatches(s, sep, t);
    return -1;
  }
}
