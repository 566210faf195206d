/** When joining coins may overflow: sort.Sort leaves coins of one denom in any order,
    so the question is whether some order makes some addition overflow. */
module CoinOverflow {
  import opened Utf8
  import opened Basics
  import opened Coins

  // ---- An addition that does not fit shows in the totals ----

  lemma {:induction false} MisfitShows(before: seq<Coin>, s: seq<Coin>, d: seq<byte>, acc: int)
    requires !FitsFrom(s, d, acc) && Sum(before, Losses, d) <= acc <= Sum(before, Gains, d)
    ensures CanOverflow(before + s)
    decreases |s|
  {
    hide CanOverflow, Sum;
    var c, rest := s[0], s[1..];
    var more := before + [c];
    assert s == [c] + rest;
    Associate(before, [c], rest);
    AddOne(before, c, c.denom);
    if c.denom == d && !InRange(acc + c.amount) {
      WholeHasMore(more, rest, d);
    } else {
      SumBounds(before, c.denom);
      MisfitShows(more, rest, c.denom, if c.denom == d then acc + c.amount else c.amount);
    }
  }

  lemma AddOne(s: seq<Coin>, c: Coin, d: seq<byte>)
    ensures Sum(s + [c], Gains, d) == Sum(s, Gains, d) + Weight(Gains, d, c)
    ensures Sum(s + [c], Losses, d) == Sum(s, Losses, d) + Weight(Losses, d, c)
  {
    SumConcat(s, [c], Gains, d);
    SumConcat(s, [c], Losses, d);
    SumOne(c, Gains, d);
    SumOne(c, Losses, d);
  }

  lemma WholeHasMore(s: seq<Coin>, t: seq<Coin>, d: seq<byte>)
    requires !InRange(Sum(s, Gains, d)) || !InRange(Sum(s, Losses, d))
    ensures CanOverflow(s + t)
  {
    SumConcat(s, t, Gains, d);
    SumConcat(s, t, Losses, d);
    SumBounds(s, d);
    SumBounds(t, d);
    assert !InRange(Sum(s + t, Gains, d)) || !InRange(Sum(s + t, Losses, d));
  }

  lemma MisfitCanOverflow(order: seq<Coin>, s: seq<Coin>)
    requires Valid(s) && SortedForm(order, s) && !StepsFit(order)
    ensures CanOverflow(s)
  {
    var c := order[0];
    assert order == [c] + order[1..];
    SumOne(c, Gains, c.denom);
    SumOne(c, Losses, c.denom);
    MisfitShows([c], order[1..], c.denom, c.amount);
    forall d, m: Measure ensures Sum(order, m, d) == Sum(s, m, d) { SumPermutation(order, s, m, d); }
  }

  // ---- An order in which it does not fit ----

  /** Where a coin goes when the coins of d that count for m come first among those of d. */
  datatype Part = Below | Counted | Others | Above

  function Place(c: Coin, m: Measure, d: seq<byte>): Part {
    if c.denom == d then (if Weight(m, d, c) != 0 then Counted else Others)
    else if Less(c.denom, d) then Below
    else Above
  }

  function Only(s: seq<Coin>, m: Measure, d: seq<byte>, part: Part): (r: seq<Coin>)
    ensures forall c | c in r :: c in s && Place(c, m, d) == part
  {
    if s == [] then []
    else (if Place(s[0], m, d) == part then [s[0]] else []) + Only(s[1..], m, d, part)
  }

  /** Every copy of a coin goes to the part where the coin belongs. */
  lemma {:induction false} OnlyCount(s: seq<Coin>, m: Measure, d: seq<byte>, part: Part, c: Coin)
    ensures multiset(Only(s, m, d, part))[c] == if Place(c, m, d) == part then multiset(s)[c] else 0
  {
    hide Place;
    if s != [] {
      OnlyCount(s[1..], m, d, part, c);
      CountCons(s[0], s[1..], c);
      assert [s[0]] + s[1..] == s;
      var rest := Only(s[1..], m, d, part);
      CountCons(s[0], rest, c);
      assert [] + rest == rest;
    }
  }

  lemma CountCons(x: Coin, s: seq<Coin>, c: Coin)
    ensures multiset([x] + s)[c] == (if x == c then 1 else 0) + multiset(s)[c]
  {
  }

  lemma PartsMakeWhole(s: seq<Coin>, m: Measure, d: seq<byte>)
    ensures multiset(s) == multiset(Only(s, m, d, Below)) + multiset(Only(s, m, d, Counted))
                           + multiset(Only(s, m, d, Others)) + multiset(Only(s, m, d, Above))
  {
    hide Only, Place;
    forall c: Coin, part: Part
      ensures multiset(Only(s, m, d, part))[c] == if Place(c, m, d) == part then multiset(s)[c] else 0
    {
      OnlyCount(s, m, d, part, c);
    }
  }

  function Total(s: seq<Coin>): int {
    if s == [] then 0 else s[0].amount + Total(s[1..])
  }

  lemma {:induction false} CountedTotal(s: seq<Coin>, m: Measure, d: seq<byte>)
    requires m == Gains || m == Losses
    ensures Total(Only(s, m, d, Counted)) == Sum(s, m, d)
  {
    if s != [] {
      CountedTotal(s[1..], m, d);
      var rest := Only(s[1..], m, d, Counted);
      assert ([s[0]] + rest)[1..] == rest && [] + rest == rest;
    }
  }

  /** The coins of s, sorted, those of d that count for m first among those of d. */
  function Arranged(s: seq<Coin>, m: Measure, d: seq<byte>): seq<Coin> {
    InsertionSort(Only(s, m, d, Below))
    + (Only(s, m, d, Counted) + (Only(s, m, d, Others) + InsertionSort(Only(s, m, d, Above))))
  }

  lemma SortKeeps(s: seq<Coin>)
    ensures forall c | c in InsertionSort(s) :: c in s
  {
    forall c | c in InsertionSort(s) ensures c in s { assert c in multiset(InsertionSort(s)); }
  }

  lemma SortedConcat(s: seq<Coin>, t: seq<Coin>)
    requires Sorted(s) && Sorted(t) && forall a, b | a in s && b in t :: !Less(b.denom, a.denom)
    ensures Sorted(s + t)
  {
  }

  lemma OneDenomSorted(s: seq<Coin>, d: seq<byte>)
    requires forall c | c in s :: c.denom == d
    ensures Sorted(s)
  {
    LessIrreflexive(d);
  }

  lemma ArrangedIsSortedForm(s: seq<Coin>, m: Measure, d: seq<byte>)
    ensures SortedForm(Arranged(s, m, d), s)
  {
    hide InsertionSort, Only, Less, Sorted;
    PartsMakeWhole(s, m, d);
    ArrangedIsSorted(s, m, d);
  }

  lemma ArrangedIsSorted(s: seq<Coin>, m: Measure, d: seq<byte>)
    ensures Sorted(Arranged(s, m, d))
  {
    hide InsertionSort, Only, Less, Sorted;
    var below, above := Only(s, m, d, Below), Only(s, m, d, Above);
    InsertionSorts(below);
    InsertionSorts(above);
    SortKeeps(below);
    SortKeeps(above);
    OneDenomSorted(Only(s, m, d, Counted), d);
    OneDenomSorted(Only(s, m, d, Others), d);
    AllSorted(InsertionSort(below), Only(s, m, d, Counted), Only(s, m, d, Others), InsertionSort(above), d);
  }

  lemma AllSorted(below: seq<Coin>, counted: seq<Coin>, others: seq<Coin>, above: seq<Coin>, d: seq<byte>)
    requires Sorted(below) && Sorted(counted) && Sorted(others) && Sorted(above)
    requires (forall c | c in below :: Less(c.denom, d)) && (forall c | c in above :: !Less(c.denom, d))
    requires (forall c | c in counted :: c.denom == d) && (forall c | c in others :: c.denom == d)
    ensures Sorted(below + (counted + (others + above)))
  {
    hide Less, Sorted;
    LessIrreflexive(d);
    SortedConcat(others, above);
    SortedConcat(counted, others + above);
    forall a, b | a in below && b in counted + (others + above) ensures !Less(b.denom, a.denom) {
      if Less(b.denom, a.denom) { LessTransitive(b.denom, a.denom, d); }
    }
    SortedConcat(below, counted + (others + above));
  }

  /** Coins of other denoms in front do not change what is added up for d. */
  lemma {:induction false} OthersInFront(s: seq<Coin>, t: seq<Coin>, d: seq<byte>, e: seq<byte>, acc: int)
    requires (forall c | c in s :: c.denom != d) && e != d && t != [] && t[0].denom == d
    requires FitsFrom(s + t, e, acc)
    ensures StepsFit(t)
    decreases |s|
  {
    if s == [] {
      assert s + t == t;
    } else {
      assert (s + t)[1..] == s[1..] + t;
      OthersInFront(s[1..], t, d, s[0].denom, if s[0].denom == e then acc + s[0].amount else s[0].amount);
    }
  }

  lemma {:induction false} RunTotalFits(s: seq<Coin>, t: seq<Coin>, d: seq<byte>, acc: int)
    requires (forall c | c in s :: c.denom == d) && FitsFrom(s + t, d, acc) && s != []
    ensures InRange(acc + Total(s))
    decreases |s|
  {
    assert (s + t)[1..] == s[1..] + t;
    if |s| > 1 { RunTotalFits(s[1..], t, d, acc + s[0].amount); }
  }

  lemma CountedFirstMisfits(below: seq<Coin>, counted: seq<Coin>, rest: seq<Coin>, d: seq<byte>)
    requires (forall c | c in below :: c.denom != d) && (forall c | c in counted :: c.denom == d)
    requires Valid(counted) && !InRange(Total(counted))
    ensures !StepsFit(below + (counted + rest))
  {
    var s := counted + rest;
    assert counted[0] in counted;
    assert Total(counted) == counted[0].amount + Total(counted[1..]);
    if StepsFit(below + s) {
      if below == [] {
        assert below + s == s;
      } else {
        assert (below + s)[1..] == below[1..] + s;
        OthersInFront(below[1..], s, d, below[0].denom, below[0].amount);
      }
      assert s[1..] == counted[1..] + rest;
      RunTotalFits(counted[1..], rest, d, counted[0].amount);
    }
  }

  lemma ArrangedMisfits(s: seq<Coin>, m: Measure, d: seq<byte>)
    requires (m == Gains || m == Losses) && Valid(s) && !InRange(Sum(s, m, d))
    ensures !StepsFit(Arranged(s, m, d))
  {
    hide StepsFit, Less;
    CountedTotal(s, m, d);
    var below := InsertionSort(Only(s, m, d, Below));
    LessIrreflexive(d);
    SortKeeps(Only(s, m, d, Below));
    assert forall c | c in below :: c.denom != d;
    CountedFirstMisfits(below, Only(s, m, d, Counted),
                        Only(s, m, d, Others) + InsertionSort(Only(s, m, d, Above)), d);
  }

  /** Joining may overflow, in some order the sort may leave, if and only if the gains or
      the losses of some denom alone do not fit in 64 bits. */
  lemma OverflowsInSomeOrder(s: seq<Coin>)
    requires Valid(s)
    ensures CanOverflow(s) <==> exists order :: SortedForm(order, s) && !StepsFit(order)
  {
    hide StepsFit, SortedForm;
    if order :| SortedForm(order, s) && !StepsFit(order) { MisfitCanOverflow(order, s); }
    if CanOverflow(s) {
      var d :| !InRange(Sum(s, Gains, d)) || !InRange(Sum(s, Losses, d));
      var m := if !InRange(Sum(s, Gains, d)) then Gains else Losses;
      ArrangedIsSortedForm(s, m, d);
      ArrangedMisfits(s, m, d);
    }
  }
}
