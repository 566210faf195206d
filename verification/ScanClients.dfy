/** The Scanner's promise, end to end: for every reader that keeps the io.Reader
    contract and is idle at most 100 times in a row, scanning line by line or word
    by word gives a function of the whole input. */
module ScanClients {
  import opened Utf8
  import opened Io
  import opened SplitFunc
  import opened Splits
  import opened Scanning

  method ScanAllLines(r: Reader, buf: array<byte>, max: int) returns (sc: Scanner, lines: seq<seq<byte>>)
    requires r.Valid() && r.honest && r.maxEmpty <= 100
    requires 0 < Limit(buf.Length, max) && LinesFit(r.data, Limit(buf.Length, max))
    modifies r, buf
    ensures lines == Lines(old(r.data))
    ensures sc.err == Some(r.last) && (r.last == EOF ==> sc.Err() == None)
  {
    LinesLawful();
    sc := new Scanner(r, ScanLines);
    var panicked := sc.Buffer(buf, max);
    ghost var input, limit := r.data, Limit(buf.Length, max);
    lines := ScanAll(sc);
    ghost var rest := sc.Pending();
    assert !Blocked(ScanLines, rest, limit) by {
      LinesFitSuffix(input, |input| - |rest|, limit);
      if Blocked(ScanLines, rest, limit) { LinesNotBlocked(rest, limit); }
    }
    LineTokens(input);
    LineTokens([]);
  }

  method ScanAllWords(r: Reader, buf: array<byte>, max: int) returns (sc: Scanner, words: seq<seq<byte>>)
    requires r.Valid() && r.honest && r.maxEmpty <= 100
    requires WordsFit(r.data, Limit(buf.Length, max))
    modifies r, buf
    ensures words == Fields(old(r.data), IsSpace)
    ensures sc.err == Some(r.last) && (r.last == EOF ==> sc.Err() == None)
  {
    WordsLawful();
    sc := new Scanner(r, WordSplit);
    var panicked := sc.Buffer(buf, max);
    ghost var input, limit := r.data, Limit(buf.Length, max);
    words := ScanAll(sc);
    ghost var rest := sc.Pending();
    WordTokens(input);
    WordTokens(rest);
    RestNotBlocked(input, words, rest, limit);
  }

  lemma RestNotBlocked(input: seq<byte>, words: seq<seq<byte>>, rest: seq<byte>, limit: int)
    requires WordsFit(input, limit) && Fields(input, IsSpace) == words + Fields(rest, IsSpace)
    ensures !Blocked(WordSplit, rest, limit)
  {
    assert forall w | w in Fields(rest, IsSpace) :: w in words + Fields(rest, IsSpace);
    if Blocked(WordSplit, rest, limit) { WordsNotBlocked(rest, limit); }
  }
}
