/** Powers of two, and what concatenating and slicing sequences comes to. */
module Basics {
  const TWO_32 := 0x1_0000_0000

  function Pow2(n: nat): (p: nat)
    ensures 0 < p
  {
    if n == 0 then 1 else 2 * Pow2(n - 1)
  }

  lemma NothingBefore<T>(rest: seq<T>)
    ensures [] + rest == rest
  {
  }

  lemma Snoc<T>(done: seq<T>, x: T, rest: seq<T>)
    ensures done + ([x] + rest) == (done + [x]) + rest
  {
  }

  lemma Associate<T>(a: seq<T>, b: seq<T>, c: seq<T>)
    ensures a + (b + c) == a + b + c
  {
  }

  lemma Regroup<T>(a: seq<T>, b: seq<T>, c: seq<T>, d: seq<T>)
    ensures a + b + c + d == a + (b + (c + d))
  {
  }

  lemma DropDrop<T>(s: seq<T>, i: nat, k: nat)
    requires i + k <= |s|
    ensures s[i..][k..] == s[i + k..] && s[i..][..k] == s[i..i + k] && s[i..][0..] == s[i..]
  {
  }

  lemma CutSlice<T>(d: array<T>, lo: nat, mid: nat, hi: nat)
    requires lo <= mid <= hi <= d.Length
    ensures d[lo..hi] == d[lo..mid] + d[mid..hi]
    ensures d[lo..hi][..mid - lo] == d[lo..mid] == d[..mid][lo..]
  {
  }
}
