/** What a split function may answer, and the law under which a Scanner's tokens
    do not depend on how the reader cuts the input into chunks. */
module SplitFunc {
  import opened Utf8
  import opened Io

  datatype Split = Split(advance: int, token: Option<seq<byte>>, err: Option<Error>)

  type SplitFunc = (seq<byte>, bool) -> Split

  /** Dropping the first k bytes of p changes nothing about the first token that
      the whole of p holds, except where it starts. */
  ghost predicate SameFirst(split: SplitFunc, p: seq<byte>, k: nat) {
    && k <= |p|
    && var whole, rest := split(p, true), split(p[k..], true);
       && rest.token == whole.token
       && (whole.token.Some? ==> rest.advance + k == whole.advance)
  }

  /** The law at one input p and one prefix p[..n] of it: no errors, legal advances,
      progress with every token; and what the prefix alone yields, token or advance,
      is what all of p would have yielded. */
  ghost predicate LawfulAt(split: SplitFunc, p: seq<byte>, n: nat) {
    n <= |p| ==>
      var part, whole := split(p[..n], false), split(p, true);
      && whole.err == None && 0 <= whole.advance <= |p|
      && (whole.token.Some? ==> 0 < whole.advance)
      && (0 < n ==>
            && part.err == None && 0 <= part.advance <= n
            && (part.token.Some? ==> part == whole)
            && (part.token.None? ==> SameFirst(split, p, part.advance)))
  }

  ghost predicate Lawful(split: SplitFunc) {
    forall p: seq<byte>, n: nat :: LawfulAt(split, p, n)
  }

  /** The tokens of an input, with no reader and no buffer: split the whole rest,
      over and over. */
  ghost function Tokens(split: SplitFunc, p: seq<byte>): seq<seq<byte>>
    requires Lawful(split)
    decreases |p|
  {
    assert LawfulAt(split, p, 0);
    var s := split(p, true);
    if s.token.None? then [] else [s.token.value] + Tokens(split, p[s.advance..])
  }

  /** A prefix on which the split function gives up: it wants more data first. */
  predicate Stuck(split: SplitFunc, data: seq<byte>) {
    var s := split(data, false);
    s.token.None? && s.advance == 0 && s.err.None?
  }

  /** A buffer of `limit` or more bytes can be full of the start of p without
      holding a token. */
  ghost predicate Blocked(split: SplitFunc, p: seq<byte>, limit: int) {
    exists n: nat :: limit <= n <= |p| && Stuck(split, p[..n])
  }

  lemma SameFirstTokens(split: SplitFunc, p: seq<byte>, k: nat)
    requires Lawful(split) && SameFirst(split, p, k)
    ensures Tokens(split, p[k..]) == Tokens(split, p)
  {
    assert LawfulAt(split, p, 0) && LawfulAt(split, p[k..], 0);
    var whole, rest := split(p, true), split(p[k..], true);
    if whole.token.Some? {
      assert p[k..][rest.advance..] == p[whole.advance..];
    }
  }

  /** One call of a lawful split function on a prefix p[..n], told the truth about
      whether p ends there: what it yields is what Tokens yields. */
  lemma SplitStep(split: SplitFunc, p: seq<byte>, n: nat, atEOF: bool)
    requires Lawful(split) && n <= |p|
    requires if atEOF then n == |p| else 0 < n
    ensures var s := split(p[..n], atEOF);
      && s.err == None && 0 <= s.advance <= n
      && (s.token.Some? ==>
            0 < s.advance && Tokens(split, p) == [s.token.value] + Tokens(split, p[s.advance..]))
      && (s.token.None? ==> if atEOF then Tokens(split, p) == [] else Tokens(split, p[s.advance..]) == Tokens(split, p))
  {
    assert LawfulAt(split, p, n);
    if atEOF {
      assert p[..n] == p;
    } else {
      var s := split(p[..n], false);
      if s.token.None? { SameFirstTokens(split, p, s.advance); }
    }
  }
}
