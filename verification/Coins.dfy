/** chain.Coins: sorting, merging and cancelling a list of coins in place. */
module Coins {
  import opened Utf8

  datatype Coin = Coin(denom: seq<byte>, amount: int)

  const MAX_INT64 := 0x7FFF_FFFF_FFFF_FFFF
  const MIN_INT64 := -0x8000_0000_0000_0000

  predicate InRange(x: int) {
    MIN_INT64 <= x <= MAX_INT64
  }

  /** What an int64 holds. */
  lemma RangeOfInt64(x: int)
    ensures InRange(x) <==> -9223372036854775808 <= x <= 9223372036854775807
  {
  }

  /** Go's order on strings: byte by byte, a prefix first. */
  predicate Less(a: seq<byte>, b: seq<byte>) {
    b != [] && (a == [] || a[0] < b[0] || (a[0] == b[0] && Less(a[1..], b[1..])))
  }

  lemma {:induction false} LessTransitive(a: seq<byte>, b: seq<byte>, c: seq<byte>)
    requires Less(a, b) && Less(b, c)
    ensures Less(a, c)
  {
    if a != [] && a[0] == b[0] && b[0] == c[0] { LessTransitive(a[1..], b[1..], c[1..]); }
  }

  lemma {:induction false} LessIrreflexive(a: seq<byte>)
    ensures !Less(a, a)
  {
    if a != [] { LessIrreflexive(a[1..]); }
  }

  lemma {:induction false} LessTotal(a: seq<byte>, b: seq<byte>)
    ensures Less(a, b) || a == b || Less(b, a)
  {
    if a != [] && b != [] && a[0] == b[0] {
      LessTotal(a[1..], b[1..]);
      if a[1..] == b[1..] { assert a == [a[0]] + a[1..] == b; }
    }
  }

  /** a and b are the same for k bytes; then a ends, or has the smaller byte. */
  predicate BeforeAt(a: seq<byte>, b: seq<byte>, k: nat) {
    k <= |a| && k < |b| && a[..k] == b[..k] && (k == |a| || a[k] < b[k])
  }

  ghost predicate Before(a: seq<byte>, b: seq<byte>) {
    exists k: nat :: BeforeAt(a, b, k)
  }

  /** The order on denoms is the one the first difference decides. */
  lemma {:induction false} LessIsBefore(a: seq<byte>, b: seq<byte>)
    ensures Less(a, b) <==> Before(a, b)
  {
    if a == [] || b == [] || a[0] != b[0] {
      assert Less(a, b) ==> BeforeAt(a, b, 0);
      assert forall k: nat | 0 < k && BeforeAt(a, b, k) :: a[..k][0] == b[..k][0];
    } else {
      LessIsBefore(a[1..], b[1..]);
      if k: nat :| BeforeAt(a[1..], b[1..], k) {
        assert a[..k + 1] == [a[0]] + a[1..][..k] && b[..k + 1] == [b[0]] + b[1..][..k];
        assert BeforeAt(a, b, k + 1);
      }
      if k: nat :| BeforeAt(a, b, k) {
        assert a[..k][1..] == a[1..][..k - 1] && b[..k][1..] == b[1..][..k - 1];
        assert BeforeAt(a[1..], b[1..], k - 1);
      }
    }
  }

  // ---- What a list of coins is worth ----

  /** Four things to add up over the coins of one denom. */
  datatype Measure = Amount | Gains | Losses | Number

  function Weight(m: Measure, d: seq<byte>, c: Coin): int {
    if c.denom != d then 0
    else
      match m
      case Amount => c.amount
      case Gains => if c.amount > 0 then c.amount else 0
      case Losses => if c.amount < 0 then c.amount else 0
      case Number => 1
  }

  function Sum(s: seq<Coin>, m: Measure, d: seq<byte>): int {
    if s == [] then 0 else Weight(m, d, s[0]) + Sum(s[1..], m, d)
  }

  lemma {:induction false} SumConcat(s: seq<Coin>, t: seq<Coin>, m: Measure, d: seq<byte>)
    ensures Sum(s + t, m, d) == Sum(s, m, d) + Sum(t, m, d)
  {
    if s == [] {
      assert s + t == t;
    } else {
      SumConcat(s[1..], t, m, d);
      assert (s + t)[1..] == s[1..] + t;
    }
  }

  lemma TakeOut(t: seq<Coin>, k: nat, m: Measure, d: seq<byte>)
    requires k < |t|
    ensures var rest := t[..k] + t[k + 1..];
      multiset(rest) == multiset(t) - multiset{t[k]} && Sum(t, m, d) == Weight(m, d, t[k]) + Sum(rest, m, d)
  {
    var tail := [t[k]] + t[k + 1..];
    assert t == t[..k] + tail;
    assert tail[1..] == t[k + 1..];
    SumConcat(t[..k], tail, m, d);
    SumConcat(t[..k], t[k + 1..], m, d);
    assert multiset(t) == multiset(t[..k]) + multiset(tail);
  }

  lemma TakeFirst(s: seq<Coin>)
    requires s != []
    ensures multiset(s[1..]) == multiset(s) - multiset{s[0]}
  {
    assert s == [s[0]] + s[1..];
  }

  /** The order of the coins does not matter. */
  lemma {:induction false} SumPermutation(s: seq<Coin>, t: seq<Coin>, m: Measure, d: seq<byte>)
    requires multiset(s) == multiset(t)
    ensures Sum(s, m, d) == Sum(t, m, d)
  {
    hide Weight;
    if s == [] {
      assert |multiset(t)| == |t|;
    } else {
      assert s[0] in multiset(s);
      var k :| 0 <= k < |t| && t[k] == s[0];
      TakeFirst(s);
      TakeOut(t, k, m, d);
      SumPermutation(s[1..], t[..k] + t[k + 1..], m, d);
    }
  }

  lemma {:induction false} SumBounds(s: seq<Coin>, d: seq<byte>)
    ensures Sum(s, Losses, d) <= 0 <= Sum(s, Gains, d) && 0 <= Sum(s, Number, d)
  {
    if s != [] { SumBounds(s[1..], d); }
  }

  // ---- Shapes ----

  /** Denoms in order, repetitions allowed. */
  predicate Sorted(s: seq<Coin>) {
    forall i, j | 0 <= i < j < |s| :: !Less(s[j].denom, s[i].denom)
  }

  predicate StrictlySorted(s: seq<Coin>) {
    forall i, j | 0 <= i < j < |s| :: Less(s[i].denom, s[j].denom)
  }

  /** The denoms ascend, each in front of every later one. */
  ghost predicate Ascending(s: seq<Coin>) {
    forall i, j | 0 <= i < j < |s| :: Before(s[i].denom, s[j].denom)
  }

  lemma SortedIsAscending(s: seq<Coin>)
    ensures StrictlySorted(s) <==> Ascending(s)
  {
    forall i, j | 0 <= i < j < |s| ensures Less(s[i].denom, s[j].denom) <==> Before(s[i].denom, s[j].denom) {
      LessIsBefore(s[i].denom, s[j].denom);
    }
    hide Less, Before;
  }

  predicate ZeroFree(s: seq<Coin>) {
    forall c | c in s :: c.amount != 0
  }

  predicate Valid(s: seq<Coin>) {
    forall c | c in s :: InRange(c.amount)
  }

  /** A set of coins as the code means it: sorted, one coin a denom, none of them zero. */
  predicate IsSet(s: seq<Coin>) {
    StrictlySorted(s) && ZeroFree(s) && Valid(s)
  }

  /** In a strictly sorted list a denom occurs once. */
  lemma {:induction false} SumOfMissing(s: seq<Coin>, m: Measure, d: seq<byte>)
    requires forall c | c in s :: c.denom != d
    ensures Sum(s, m, d) == 0
  {
    if s != [] {
      assert s[0] in s;
      assert forall c | c in s[1..] :: c in s;
      SumOfMissing(s[1..], m, d);
    }
  }

  lemma SumAtHead(s: seq<Coin>, m: Measure)
    requires StrictlySorted(s) && s != []
    ensures Sum(s, m, s[0].denom) == Weight(m, s[0].denom, s[0])
  {
    var d := s[0].denom;
    LessIrreflexive(d);
    forall c | c in s[1..] ensures c.denom != d {
      var k :| 0 <= k < |s[1..]| && s[1..][k] == c;
      assert Less(s[0].denom, s[k + 1].denom);
    }
    SumOfMissing(s[1..], m, d);
  }

  /** Two sets worth the same in every denom are the same list. */
  lemma {:induction false} SetIsCanonical(s: seq<Coin>, t: seq<Coin>)
    requires StrictlySorted(s) && ZeroFree(s) && StrictlySorted(t) && ZeroFree(t)
    requires forall d :: Sum(s, Amount, d) == Sum(t, Amount, d)
    ensures s == t
  {
    if s == [] || t == [] {
      if s != [] { WorthSomething(s); }
      if t != [] { WorthSomething(t); }
    } else {
      assert s[0] in s && t[0] in t;
      SumAtHead(s, Amount);
      SumAtHead(t, Amount);
      SameHead(s, t);
      assert s == [s[0]] + s[1..] && t == [t[0]] + t[1..];
      assert forall c | c in s[1..] :: c in s;
      assert forall c | c in t[1..] :: c in t;
      forall d ensures Sum(s[1..], Amount, d) == Sum(t[1..], Amount, d) {
        assert Sum(s, Amount, d) == Sum(t, Amount, d);
      }
      SetIsCanonical(s[1..], t[1..]);
    }
  }

  lemma WorthSomething(s: seq<Coin>)
    requires StrictlySorted(s) && ZeroFree(s) && s != []
    ensures Sum(s, Amount, s[0].denom) != 0 && Sum([], Amount, s[0].denom) == 0
  {
    assert s[0] in s;
    SumAtHead(s, Amount);
  }

  lemma SameHead(s: seq<Coin>, t: seq<Coin>)
    requires StrictlySorted(s) && StrictlySorted(t) && s != [] && t != []
    requires s[0].amount != 0 && t[0].amount != 0
    requires forall d :: Sum(s, Amount, d) == Sum(t, Amount, d)
    ensures s[0] == t[0]
  {
    SumAtHead(s, Amount);
    SumAtHead(t, Amount);
    LessTotal(s[0].denom, t[0].denom);
    if Less(s[0].denom, t[0].denom) { SmallerIsMissing(t, s[0].denom); }
    if Less(t[0].denom, s[0].denom) { SmallerIsMissing(s, t[0].denom); }
  }

  lemma SmallerIsMissing(s: seq<Coin>, d: seq<byte>)
    requires StrictlySorted(s) && s != [] && Less(d, s[0].denom)
    ensures Sum(s, Amount, d) == 0
  {
    LessIrreflexive(d);
    forall c | c in s ensures c.denom != d {
      var k :| 0 <= k < |s| && s[k] == c;
      if k > 0 { LessTransitive(d, s[0].denom, s[k].denom); }
    }
    SumOfMissing(s, Amount, d);
  }

  // ---- Sorting ----

  function Insert(c: Coin, s: seq<Coin>): (r: seq<Coin>)
    ensures multiset(r) == multiset{c} + multiset(s)
  {
    if s == [] || !Less(s[0].denom, c.denom) then [c] + s
    else
      assert s == [s[0]] + s[1..];
      [s[0]] + Insert(c, s[1..])
  }

  function InsertionSort(s: seq<Coin>): (r: seq<Coin>)
    ensures multiset(r) == multiset(s)
  {
    if s == [] then []
    else
      assert s == [s[0]] + s[1..];
      Insert(s[0], InsertionSort(s[1..]))
  }

  lemma LessEqTransitive(a: seq<byte>, b: seq<byte>, c: seq<byte>)
    requires !Less(b, a) && !Less(c, b)
    ensures !Less(c, a)
  {
    LessTotal(a, b);
    LessTotal(b, c);
    LessIrreflexive(a);
    if Less(c, a) {
      if Less(a, b) { LessTransitive(c, a, b); }
    }
  }

  lemma {:induction false} InsertSorted(c: Coin, s: seq<Coin>)
    requires Sorted(s)
    ensures Sorted(Insert(c, s))
  {
    hide Less;
    var r := Insert(c, s);
    if s == [] {
      LessIrreflexive(c.denom);
    } else if !Less(s[0].denom, c.denom) {
      forall i, j | 0 <= i < j < |r| ensures !Less(r[j].denom, r[i].denom) {
        if i == 0 && j > 1 { LessEqTransitive(c.denom, s[0].denom, s[j - 1].denom); }
      }
    } else {
      InsertSorted(c, s[1..]);
      var t := Insert(c, s[1..]);
      LessAsymmetric(s[0].denom, c.denom);
      forall j | 0 <= j < |t| ensures !Less(t[j].denom, s[0].denom) {
        assert t[j] in multiset(t);
        if t[j] != c {
          assert t[j] in s[1..];
          var k :| 0 <= k < |s[1..]| && s[1..][k] == t[j];
          assert !Less(s[k + 1].denom, s[0].denom);
        }
      }
    }
  }

  lemma LessAsymmetric(a: seq<byte>, b: seq<byte>)
    requires Less(a, b)
    ensures !Less(b, a)
  {
    LessIrreflexive(a);
    if Less(b, a) { LessTransitive(a, b, a); }
  }

  lemma {:induction false} InsertionSorts(s: seq<Coin>)
    ensures Sorted(InsertionSort(s))
  {
    if s != [] {
      InsertionSorts(s[1..]);
      InsertSorted(s[0], InsertionSort(s[1..]));
    }
  }

  /** What sort.Sort promises: the same coins with the denoms in order. Coins of one
      denom may come out in any order. */
  method Sort(a: array<Coin>)
    modifies a
    ensures Sorted(a[..]) && multiset(a[..]) == multiset(old(a[..]))
  {
    var s := InsertionSort(a[..]);
    InsertionSorts(a[..]);
    assert |multiset(s)| == |s| && |multiset(a[..])| == a.Length;
    forall k | 0 <= k < a.Length { a[k] := s[k]; }
    assert a[..] == s;
  }

  // ---- Merging ----

  /** overflow.Add64 */
  function Add64(x: int, y: int): (int, bool) {
    if InRange(x + y) then (x + y, true) else (0, false)
  }

  /** append(cz[:lo], cz[hi:]...): closes the gap, in place. */
  method Cut(a: array<Coin>, n: nat, lo: nat, hi: nat) returns (m: nat)
    requires lo <= hi <= n <= a.Length
    modifies a
    ensures m == n - (hi - lo) && a[..m] == old(a[..lo]) + old(a[hi..n])
  {
    m := n - (hi - lo);
    forall k | lo <= k < m { a[k] := a[k + (hi - lo)]; }
  }

  /** The list is worth no more gains, no more losses and no more coins than `orig`,
      and exactly as much. */
  ghost predicate WorthOf(s: seq<Coin>, orig: seq<Coin>) {
    forall d ::
      && Sum(s, Amount, d) == Sum(orig, Amount, d)
      && Sum(s, Gains, d) <= Sum(orig, Gains, d)
      && Sum(s, Losses, d) >= Sum(orig, Losses, d)
      && Sum(s, Number, d) <= Sum(orig, Number, d)
  }

  /** The gains, or the losses, of some denom alone leave the 64-bit range. */
  ghost predicate CanOverflow(s: seq<Coin>) {
    exists d :: !InRange(Sum(s, Gains, d)) || !InRange(Sum(s, Losses, d))
  }

  /** No denom occurs more than twice, as when two sets are put together. */
  ghost predicate AtMostPairs(s: seq<Coin>) {
    forall d :: Sum(s, Number, d) <= 2
  }

  /** Two neighbours of one denom replaced by `mid`, their sum or nothing. */
  lemma JoinKeepsWorth(s: seq<Coin>, i: nat, mid: seq<Coin>, orig: seq<Coin>)
    requires i + 1 < |s| && s[i].denom == s[i + 1].denom && WorthOf(s, orig)
    requires var sum := s[i].amount + s[i + 1].amount;
      mid == if sum == 0 then [] else [Coin(s[i].denom, sum)]
    ensures WorthOf(s[..i] + mid + s[i + 2..], orig)
  {
    var pair := [s[i], s[i + 1]];
    assert s == s[..i] + pair + s[i + 2..];
    forall d, m: Measure ensures Sum(s, m, d) == Sum(s[..i], m, d) + Sum(pair, m, d) + Sum(s[i + 2..], m, d)
      ensures Sum(s[..i] + mid + s[i + 2..], m, d) == Sum(s[..i], m, d) + Sum(mid, m, d) + Sum(s[i + 2..], m, d)
    {
      SumConcat(s[..i] + pair, s[i + 2..], m, d);
      SumConcat(s[..i], pair, m, d);
      SumConcat(s[..i] + mid, s[i + 2..], m, d);
      SumConcat(s[..i], mid, m, d);
    }
    forall d, m: Measure ensures Sum(pair, m, d) == Weight(m, d, s[i]) + Weight(m, d, s[i + 1]) {
      assert pair[1..] == [s[i + 1]];
      SumOne(s[i + 1], m, d);
    }
    forall d, m: Measure ensures Sum(mid, m, d) == if mid == [] then 0 else Weight(m, d, mid[0]) {
      if mid != [] { SumOne(mid[0], m, d); }
    }
  }

  lemma SumOne(c: Coin, m: Measure, d: seq<byte>)
    ensures Sum([c], m, d) == Weight(m, d, c)
  {
  }

  /** The sum that does not fit belongs to a denom whose partial sums do not. */
  lemma OverflowShows(s: seq<Coin>, i: nat, orig: seq<Coin>)
    requires i + 1 < |s| && s[i].denom == s[i + 1].denom && WorthOf(s, orig)
    requires !InRange(s[i].amount + s[i + 1].amount)
    ensures CanOverflow(orig)
    ensures AtMostPairs(orig) ==> !InRange(Sum(orig, Amount, s[i].denom))
  {
    var d, pair := s[i].denom, [s[i], s[i + 1]];
    assert s == s[..i] + pair + s[i + 2..];
    forall m: Measure
      ensures Sum(s, m, d) == Sum(s[..i], m, d) + Weight(m, d, s[i]) + Weight(m, d, s[i + 1]) + Sum(s[i + 2..], m, d)
    {
      SumConcat(s[..i] + pair, s[i + 2..], m, d);
      SumConcat(s[..i], pair, m, d);
      assert pair[1..] == [s[i + 1]];
      SumOne(s[i + 1], m, d);
    }
    SumBounds(s[..i], d);
    SumBounds(s[i + 2..], d);
    assert !InRange(Sum(orig, Gains, d)) || !InRange(Sum(orig, Losses, d));
    if AtMostPairs(orig) {
      assert Sum(orig, Number, d) <= 2;
      NoneLeft(s[..i], d);
      NoneLeft(s[i + 2..], d);
    }
  }

  lemma {:induction false} NoneLeft(s: seq<Coin>, d: seq<byte>)
    ensures Sum(s, Number, d) == 0 ==> Sum(s, Amount, d) == 0
  {
    if s != [] {
      SumBounds(s[1..], d);
      NoneLeft(s[1..], d);
    }
  }

  /** The list while it is joined: sorted, strictly so up to i, worth what it was. */
  ghost predicate Joining(s: seq<Coin>, i: nat, orig: seq<Coin>) {
    && i <= |s| && Sorted(s) && WorthOf(s, orig)
    && (Valid(orig) ==> Valid(s)) && (ZeroFree(orig) ==> ZeroFree(s))
    && (forall j, k | 0 <= j < k < |s| && j < i :: Less(s[j].denom, s[k].denom))
  }

  lemma JoinStep(s: seq<Coin>, i: nat, orig: seq<Coin>, mid: seq<Coin>)
    requires Joining(s, i, orig) && i + 1 < |s| && s[i].denom == s[i + 1].denom
    requires var sum := s[i].amount + s[i + 1].amount;
      InRange(sum) && mid == if sum == 0 then [] else [Coin(s[i].denom, sum)]
    ensures Joining(s[..i] + mid + s[i + 2..], i, orig)
  {
    hide Less;
    var r := s[..i] + mid + s[i + 2..];
    JoinKeepsWorth(s, i, mid, orig);
    forall k | 0 <= k < |r| ensures r[k].denom == s[if k < i then k else k + 2 - |mid|].denom {
      if k > i || mid == [] { assert k >= i ==> r[k] == s[k + 2 - |mid|]; }
    }
    assert forall c | c in r :: c in s || c in mid;
  }

  lemma MoveOn(s: seq<Coin>, i: nat, orig: seq<Coin>)
    requires Joining(s, i, orig) && i + 1 < |s| && s[i].denom != s[i + 1].denom
    ensures Joining(s, i + 1, orig)
  {
    hide Less;
    forall k | i < k < |s| ensures Less(s[i].denom, s[k].denom) {
      LessTotal(s[i].denom, s[i + 1].denom);
      assert !Less(s[i + 1].denom, s[i].denom);
      if k > i + 1 {
        assert !Less(s[k].denom, s[i + 1].denom);
        LessTotal(s[i + 1].denom, s[k].denom);
        if s[i + 1].denom != s[k].denom { LessTransitive(s[i].denom, s[i + 1].denom, s[k].denom); }
      }
    }
  }

  lemma SortedIsJoining(s: seq<Coin>, orig: seq<Coin>)
    requires Sorted(s) && multiset(s) == multiset(orig)
    ensures Joining(s, 0, orig)
  {
    forall d, m: Measure ensures Sum(s, m, d) == Sum(orig, m, d) { SumPermutation(s, orig, m, d); }
    forall c | c in s ensures c in orig { assert c in multiset(s); }
  }

  // ---- Which additions are made ----

  /** Going through s with total acc of denom d so far, every addition fits. */
  predicate FitsFrom(s: seq<Coin>, d: seq<byte>, acc: int) {
    s == [] ||
    if s[0].denom == d then InRange(acc + s[0].amount) && FitsFrom(s[1..], d, acc + s[0].amount)
    else FitsFrom(s[1..], s[0].denom, s[0].amount)
  }

  /** Adding up the coins of each denom of a sorted list, one after the other, every
      partial sum fits in 64 bits. */
  predicate StepsFit(s: seq<Coin>) {
    s == [] || FitsFrom(s[1..], s[0].denom, s[0].amount)
  }

  /** The additions still to be made from i on fit. */
  predicate RestFits(s: seq<Coin>, i: nat) {
    i < |s| ==> FitsFrom(s[i + 1..], s[i].denom, s[i].amount)
  }

  lemma RestAfterJoin(s: seq<Coin>, i: nat, mid: seq<Coin>)
    requires i + 1 < |s| && s[i].denom == s[i + 1].denom && Valid(s)
    requires var sum := s[i].amount + s[i + 1].amount; mid == if sum == 0 then [] else [Coin(s[i].denom, sum)]
    ensures RestFits(s, i) <==> InRange(s[i].amount + s[i + 1].amount) && RestFits(s[..i] + mid + s[i + 2..], i)
  {
    var r, rest := s[..i] + mid + s[i + 2..], s[i + 2..];
    var d, sum := s[i].denom, s[i].amount + s[i + 1].amount;
    assert s[i + 1..][1..] == rest && s[i + 1..][0] == s[i + 1];
    assert RestFits(s, i) <==> InRange(sum) && FitsFrom(rest, d, sum);
    if mid != [] {
      assert r[i] == mid[0] && r[i + 1..] == rest;
    } else if rest != [] {
      assert r[i] == rest[0] == s[i + 2] && r[i + 1..] == rest[1..];
      assert s[i + 2] in s;
    } else {
      assert |r| == i;
    }
  }

  lemma RestAfterMove(s: seq<Coin>, i: nat)
    requires i + 1 < |s| && s[i].denom != s[i + 1].denom
    ensures RestFits(s, i) <==> RestFits(s, i + 1)
  {
    assert s[i + 1..][1..] == s[i + 2..];
  }

  lemma RestAtEnds(s: seq<Coin>, i: nat)
    ensures RestFits(s, 0) <==> StepsFit(s)
    ensures |s| <= i + 1 ==> RestFits(s, i)
  {
  }

  /** Consolidates a[i + 1] into a[i], or removes both when they cancel out. */
  method JoinAt(a: array<Coin>, n: nat, i: nat, ghost orig: seq<Coin>) returns (m: nat, ok: bool)
    requires i + 1 < n <= a.Length && a[i].denom == a[i + 1].denom && Joining(a[..n], i, orig)
    modifies a
    ensures ok ==> i <= m < n && Joining(a[..m], i, orig)
    ensures Valid(orig) && ok ==> (RestFits(a[..m], i) <==> RestFits(old(a[..n]), i))
    ensures Valid(orig) && !ok ==> !RestFits(old(a[..n]), i)
    ensures !ok ==> CanOverflow(orig)
    ensures !ok && AtMostPairs(orig) ==> exists d :: !InRange(Sum(orig, Amount, d))
  {
    hide Joining, WorthOf, CanOverflow, AtMostPairs, Less, RestFits, Valid;
    ghost var s := a[..n];
    var current, next := a[i], a[i + 1];
    assert s[i] == current && s[i + 1] == next;
    var (sum, fits) := Add64(current.amount, next.amount);
    JoiningIsWorth(s, i, orig);
    if Valid(orig) {
      ghost var exact := current.amount + next.amount;
      RestAfterJoin(s, i, if exact == 0 then [] else [Coin(current.denom, exact)]);
    }
    if !fits {
      OverflowShows(s, i, orig);
      return n, false;
    }
    ghost var mid := if sum == 0 then [] else [Coin(current.denom, sum)];
    JoinStep(s, i, orig, mid);
    m := ReplacePair(a, n, i, sum);
    ok := true;
  }

  /** a[i] and a[i + 1] make way for their sum, or for nothing. */
  method ReplacePair(a: array<Coin>, n: nat, i: nat, sum: int) returns (m: nat)
    requires i + 1 < n <= a.Length
    modifies a
    ensures i <= m < n
    ensures a[..m] == old(a[..n][..i] + (if sum == 0 then [] else [Coin(a[i].denom, sum)]) + a[..n][i + 2..])
  {
    ghost var s := a[..n];
    assert s[..i] == a[..i] && s[i + 2..] == a[i + 2..n];
    if sum == 0 {
      m := Cut(a, n, i, i + 2);
      assert s[..i] + [] == s[..i];
    } else {
      a[i] := Coin(a[i].denom, sum);
      assert a[..i + 1] == s[..i] + [Coin(s[i].denom, sum)] && a[i + 2..n] == s[i + 2..];
      m := Cut(a, n, i + 1, i + 2);
    }
  }

  /** `order` is what sorting may make of s. */
  ghost predicate SortedForm(order: seq<Coin>, s: seq<Coin>) {
    Sorted(order) && multiset(order) == multiset(s)
  }

  /** Sorts and joins a[..] in place; the result is a[..n]. It panics (ok is false),
      having rearranged a, if and only if an addition does not fit in an int64, in the
      order the sort left the coins in. */
  method SortAndJoin(a: array<Coin>) returns (n: nat, ok: bool, ghost order: seq<Coin>)
    modifies a
    ensures SortedForm(order, old(a[..])) && (Valid(old(a[..])) ==> (ok <==> StepsFit(order)))
    ensures ok ==>
      && n <= a.Length && StrictlySorted(a[..n]) && WorthOf(a[..n], old(a[..]))
      && (Valid(old(a[..])) ==> Valid(a[..n])) && (ZeroFree(old(a[..])) ==> ZeroFree(a[..n]))
    ensures !ok ==> CanOverflow(old(a[..]))
    ensures !ok && AtMostPairs(old(a[..])) ==> exists d :: !InRange(Sum(old(a[..]), Amount, d))
  {
    hide Joining, WorthOf, CanOverflow, AtMostPairs, Less, RestFits, StepsFit, Valid;
    ghost var orig := a[..];
    Sort(a);
    order := a[..];
    SortedIsJoining(order, orig);
    RestAtEnds(order, 0);
    n := a.Length;
    assert a[..n] == order;
    var i := 0;
    while i + 1 < n
      invariant 0 <= i <= n <= a.Length && Joining(a[..n], i, orig)
      invariant Valid(orig) ==> (RestFits(a[..n], i) <==> StepsFit(order))
      decreases n - i
    {
      if a[i].denom == a[i + 1].denom {
        var fits;
        n, fits := JoinAt(a, n, i, orig);
        if !fits { return n, false, order; }
      } else {
        MoveOn(a[..n], i, orig);
        RestAfterMove(a[..n], i);
        i := i + 1;
      }
    }
    RestAtEnds(a[..n], i);
    JoiningDone(a[..n], i, orig);
    ok := true;
  }

  lemma JoiningIsWorth(s: seq<Coin>, i: nat, orig: seq<Coin>)
    requires Joining(s, i, orig)
    ensures WorthOf(s, orig) && (Valid(orig) ==> Valid(s))
  {
  }

  lemma JoiningDone(s: seq<Coin>, i: nat, orig: seq<Coin>)
    requires Joining(s, i, orig) && |s| <= i + 1
    ensures StrictlySorted(s) && WorthOf(s, orig)
    ensures (Valid(orig) ==> Valid(s)) && (ZeroFree(orig) ==> ZeroFree(s))
  {
  }

  // ---- The operations on sets ----

  /** NewCoins: the coins of the list, joined. It panics if and only if an addition does
      not fit, in the order the sort left the coins in. */
  method NewCoins(coins: array<Coin>) returns (r: seq<Coin>, ok: bool, ghost order: seq<Coin>)
    modifies coins
    ensures SortedForm(order, old(coins[..])) && (Valid(old(coins[..])) ==> (ok <==> StepsFit(order)))
    ensures ok ==> StrictlySorted(r) && forall d :: Sum(r, Amount, d) == Sum(old(coins[..]), Amount, d)
    ensures ok ==> Ascending(r)
    ensures ok && ZeroFree(old(coins[..])) ==> ZeroFree(r)
    ensures !ok ==> CanOverflow(old(coins[..]))
  {
    hide Ascending;
    var n;
    n, ok, order := SortAndJoin(coins);
    r := if ok then coins[..n] else [];
    if ok { SortedIsAscending(r); }
  }

  lemma {:induction false} OneOfEach(s: seq<Coin>, d: seq<byte>)
    requires StrictlySorted(s)
    ensures 0 <= Sum(s, Number, d) <= 1
    ensures Valid(s) ==> InRange(Sum(s, Amount, d))
  {
    if s != [] {
      if s[0].denom == d {
        SumAtHead(s, Number);
        SumAtHead(s, Amount);
        assert s[0] in s;
      } else {
        assert forall c | c in s[1..] :: c in s;
        OneOfEach(s[1..], d);
      }
    }
  }

  /** Every denom of the two together is worth a 64-bit amount. */
  ghost predicate Fits(s: seq<Coin>, t: seq<Coin>) {
    forall d :: InRange(Sum(s, Amount, d) + Sum(t, Amount, d))
  }

  /** Coins.Add of two sets: a new set worth both, unless some denom does not fit,
      and then, and only then, a panic. The operands are left alone. */
  method Add(cz: array<Coin>, b: array<Coin>) returns (r: seq<Coin>, ok: bool)
    requires Valid(cz[..]) && Valid(b[..])
    ensures ok ==> StrictlySorted(r) && Ascending(r) && Valid(r)
    ensures ok ==> forall d :: Sum(r, Amount, d) == Sum(cz[..], Amount, d) + Sum(b[..], Amount, d)
    ensures ok && ZeroFree(cz[..]) && ZeroFree(b[..]) ==> ZeroFree(r)
    ensures StrictlySorted(cz[..]) && StrictlySorted(b[..]) ==> (ok <==> Fits(cz[..], b[..]))
  {
    hide Ascending, AtMostPairs, CanOverflow, StepsFit, Less, Fits, WorthOf, Sum;
    var dst := new Coin[cz.Length + b.Length](_ => Coin([], 0));
    forall k | 0 <= k < cz.Length { dst[k] := cz[k]; }
    forall k | 0 <= k < b.Length { dst[cz.Length + k] := b[k]; }
    assert dst[..] == cz[..] + b[..];
    PairsOfSets(cz[..], b[..]);
    var n;
    ghost var order;
    n, ok, order := SortAndJoin(dst);
    r := if ok then dst[..n] else [];
    if ok { SumIsSet(r, cz[..], b[..]); }
  }

  /** No denom comes up more than twice in two sets. */
  lemma PairsOfSets(s: seq<Coin>, t: seq<Coin>)
    ensures StrictlySorted(s) && StrictlySorted(t) ==> AtMostPairs(s + t)
    ensures Fits(s, t) ==> forall d :: InRange(Sum(s + t, Amount, d))
  {
    if StrictlySorted(s) && StrictlySorted(t) {
      forall d ensures Sum(s + t, Number, d) <= 2 {
        SumConcat(s, t, Number, d);
        OneOfEach(s, d);
        OneOfEach(t, d);
      }
    }
    if Fits(s, t) {
      forall d ensures InRange(Sum(s + t, Amount, d)) { SumConcat(s, t, Amount, d); }
    }
  }

  lemma SumIsSet(r: seq<Coin>, s: seq<Coin>, t: seq<Coin>)
    requires StrictlySorted(r) && Valid(r) && WorthOf(r, s + t)
    ensures Ascending(r) && Fits(s, t)
    ensures forall d :: Sum(r, Amount, d) == Sum(s, Amount, d) + Sum(t, Amount, d)
  {
    hide Ascending;
    SortedIsAscending(r);
    forall d ensures Sum(r, Amount, d) == Sum(s, Amount, d) + Sum(t, Amount, d) && InRange(Sum(r, Amount, d)) {
      SumConcat(s, t, Amount, d);
      OneOfEach(r, d);
    }
  }

  /** What adding two sets gives is determined by what they are worth. */
  ghost predicate IsSum(r: seq<Coin>, s: seq<Coin>, t: seq<Coin>) {
    IsSet(r) && forall d :: Sum(r, Amount, d) == Sum(s, Amount, d) + Sum(t, Amount, d)
  }

  lemma AddCommutes(s: seq<Coin>, t: seq<Coin>, r: seq<Coin>, q: seq<Coin>)
    requires IsSum(r, s, t) && IsSum(q, t, s)
    ensures r == q
  {
    forall d ensures Sum(r, Amount, d) == Sum(q, Amount, d) { }
    SetIsCanonical(r, q);
  }

  lemma AddAssociates(s: seq<Coin>, t: seq<Coin>, u: seq<Coin>, st: seq<Coin>, tu: seq<Coin>,
                      r: seq<Coin>, q: seq<Coin>)
    requires IsSum(st, s, t) && IsSum(r, st, u) && IsSum(tu, t, u) && IsSum(q, s, tu)
    ensures r == q
  {
    forall d ensures Sum(r, Amount, d) == Sum(q, Amount, d) {
      assert Sum(st, Amount, d) == Sum(s, Amount, d) + Sum(t, Amount, d);
      assert Sum(tu, Amount, d) == Sum(t, Amount, d) + Sum(u, Amount, d);
    }
    SetIsCanonical(r, q);
  }

  /** AmountOf: the first coin of that denom, which in a set is the only one. */
  method AmountOf(cz: seq<Coin>, denom: seq<byte>) returns (amount: int)
    ensures StrictlySorted(cz) ==> amount == Sum(cz, Amount, denom)
    ensures (exists k :: 0 <= k < |cz| && cz[k].denom == denom && cz[k].amount == amount
                     && forall j | 0 <= j < k :: cz[j].denom != denom)
         || (amount == 0 && forall c | c in cz :: c.denom != denom)
  {
    assert cz[0..] == cz;
    for k := 0 to |cz|
      invariant forall j | 0 <= j < k :: cz[j].denom != denom
      invariant Sum(cz[k..], Amount, denom) == Sum(cz, Amount, denom)
    {
      assert cz[k..][1..] == cz[k + 1..];
      if cz[k].denom == denom {
        if StrictlySorted(cz) { SumAtHead(cz[k..], Amount); }
        return cz[k].amount;
      }
    }
    return 0;
  }

  /** A client that adds two sets in either order gets the same list. */
  method AddBothWays(a: array<Coin>, b: array<Coin>) returns (r: seq<Coin>, q: seq<Coin>, ok: bool)
    requires IsSet(a[..]) && IsSet(b[..])
    ensures ok <==> Fits(a[..], b[..])
    ensures ok ==> r == q && IsSum(r, a[..], b[..])
  {
    var ok1;
    r, ok := Add(a, b);
    q, ok1 := Add(b, a);
    assert Fits(a[..], b[..]) <==> Fits(b[..], a[..]);
    if ok && ok1 { AddCommutes(a[..], b[..], r, q); }
  }
}
