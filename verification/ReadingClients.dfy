/** What callers of bufio.Reader build on it: whole lines out of ReadLine's
    fragments, and giving back the byte just read. */
module ReadingClients {
  import opened Utf8
  import opened Io
  import opened Basics
  import opened Splits
  import opened BufferedReading

  /** A fragment of a line may end in a carriage return only when another one
      follows: that one, not this, may belong to the end of the line. */
  ghost predicate CutSafely(line: seq<byte>, rest: seq<byte>) {
    line == [] || line[|line| - 1] != CR || (rest != [] && rest[0] == CR)
  }

  /** The last fragment of a line, when a newline ends it. */
  lemma LastFragment(s: seq<byte>, line: seq<byte>, raw: seq<byte>)
    requires line <= s && NL !in line && CutSafely(line, s[|line|..])
    requires raw <= s[|line|..] && EndsIn(raw, NL)
    ensures var i := IndexByte(s, NL);
      i == |line| + |raw| - 1 && line + DropCR(raw[..|raw| - 1]) == DropCR(s[..i])
  {
    hide DropCR;
    var body, j := raw[..|raw| - 1], |line| + |raw| - 1;
    assert s == line + s[|line|..] && s[|line|..][..|raw|] == raw;
    assert s[..j] == line + body;
    assert (line + raw)[..j] == line + body;
    FoundAt(s, NL, line + raw);
    if body == [] { assert raw[0] == s[|line|..][0]; }
    ReturnDropped(line, body);
  }

  /** A carriage return at the end of line + body is one at the end of body. */
  lemma ReturnDropped(line: seq<byte>, body: seq<byte>)
    requires body == [] ==> line == [] || line[|line| - 1] != CR
    ensures line + DropCR(body) == DropCR(line + body)
  {
    if body == [] { assert line + body == line; }
    else { assert (line + body)[..|line + body| - 1] == line + body[..|body| - 1]; }
  }

  /** The last fragment of a line that nothing ends. */
  lemma NoNewline(s: seq<byte>, line: seq<byte>)
    requires line <= s && NL !in line && s[|line|..] == []
    ensures IndexByte(s, NL) < 0 && line == s
  {
    hide IndexByte;
  }

  /** The first fragments of a line have been taken off s; `rest` is what is left. */
  ghost predicate Begun(s: seq<byte>, line: seq<byte>, rest: seq<byte>) {
    line <= s && rest == s[|line|..] && NL !in line && CutSafely(line, rest)
  }

  /** The first line of s has been taken off, without its end. */
  ghost predicate FirstLine(s: seq<byte>, line: seq<byte>, rest: seq<byte>, e: Option<Error>, last: Error) {
    var i := IndexByte(s, NL);
    if i >= 0 then
      line == DropCR(s[..i]) && e == None && rest == s[i + 1..]
    else
      line == s && rest == [] && (e == None || e == Some(last)) && (s == [] ==> e != None)
  }

  /** Joins the fragments of one line. What comes out does not depend on the buffer's
      size or on the reader's chunks, not even when they part "\r" from "\n". */
  method ReadWholeLine(b: BufferedReading.Reader) returns (line: seq<byte>, e: Option<Error>)
    requires b.Valid() && b.Prompt()
    modifies b.Repr
    ensures b.Valid() && FirstLine(old(b.Stream()), line, b.Stream(), e, b.rd.last)
  {
    hide Begun, FirstLine;
    line := [];
    NothingBegun(b.Stream());
    while true
      invariant b.Valid() && Begun(old(b.Stream()), line, b.Stream())
      decreases |b.Stream()|
    {
      var frag, isPrefix;
      frag, isPrefix, e := NextFragment(b, old(b.Stream()), line);
      line := line + frag;
      if !isPrefix { return; }
    }
  }

  lemma NothingBegun(s: seq<byte>)
    ensures Begun(s, [], s)
  {
  }

  method NextFragment(b: BufferedReading.Reader, ghost s: seq<byte>, ghost line: seq<byte>)
    returns (frag: seq<byte>, isPrefix: bool, e: Option<Error>)
    requires b.Valid() && b.Prompt() && Begun(s, line, b.Stream())
    modifies b.Repr
    ensures b.Valid()
    ensures if isPrefix then Begun(s, line + frag, b.Stream()) && |b.Stream()| < |old(b.Stream())|
            else FirstLine(s, line + frag, b.Stream(), e, b.rd.last)
  {
    hide IndexByte, DropCR, FirstLine;
    ghost var raw;
    frag, isPrefix, e, raw := b.ReadLine();
    TakeBoth(s, line, raw);
    if !isPrefix { LineDone(s, line, raw, frag, e, b.rd.last); }
  }

  lemma LineDone(s: seq<byte>, line: seq<byte>, raw: seq<byte>, frag: seq<byte>, e: Option<Error>, last: Error)
    requires line <= s && Begun(s, line, s[|line|..]) && raw <= s[|line|..]
    requires if EndsIn(raw, NL) then e == None && frag == DropCR(raw[..|raw| - 1])
             else
               && frag == raw && NL !in raw && s[|line + raw|..] == []
               && (e == None ==> raw != []) && (e == None || e == Some(last))
    ensures |line + raw| <= |s| && FirstLine(s, line + frag, s[|line + raw|..], e, last)
  {
    hide IndexByte, DropCR;
    TakeBoth(s, line, raw);
    if EndsIn(raw, NL) { LastFragment(s, line, raw); } else { NoNewline(s, line + raw); }
  }

  /** The lines of s as ReadLine cuts them: an unterminated last line is kept whole. */
  function KeptLines(s: seq<byte>): seq<seq<byte>> {
    var i := IndexByte(s, NL);
    if i >= 0 then [DropCR(s[..i])] + KeptLines(s[i + 1..])
    else if s == [] then []
    else [s]
  }

  /** ReadLine and a Scanner with ScanLines agree on every input but those whose very
      last byte is a carriage return, which only the Scanner drops. */
  lemma {:induction false} ReadLineMeetsScanLines(s: seq<byte>)
    ensures KeptLines(s) == Lines(s) <==> !(s != [] && s[|s| - 1] == CR)
    decreases |s|
  {
    hide Lines, IndexByte;
    LinesStep(s);
    var i := IndexByte(s, NL);
    if i >= 0 {
      var rest := s[i + 1..];
      ReadLineMeetsScanLines(rest);
      assert KeptLines(s)[1..] == KeptLines(rest) && Lines(s)[1..] == Lines(rest);
      assert if rest == [] then s[|s| - 1] == NL else s[|s| - 1] == rest[|rest| - 1];
    }
  }

  method ReadAllLines(b: BufferedReading.Reader) returns (lines: seq<seq<byte>>)
    requires b.Valid() && b.Prompt()
    modifies b.Repr
    ensures b.Valid() && b.Stream() == [] && lines == KeptLines(old(b.Stream()))
  {
    hide IndexByte, DropCR, KeptLines;
    ghost var s := b.Stream();
    lines := [];
    while true
      invariant b.Valid() && KeptLines(s) == lines + KeptLines(b.Stream())
      decreases |b.Stream()|
    {
      ghost var rest := b.Stream();
      var line, e := ReadWholeLine(b);
      KeptLinesStep(rest);
      if e.Some? {
        return if line == [] then lines else lines + [line];
      }
      Snoc(lines, line, KeptLines(b.Stream()));
      lines := lines + [line];
    }
  }

  lemma KeptLinesStep(s: seq<byte>)
    ensures KeptLines([]) == []
    ensures var i := IndexByte(s, NL);
      if i >= 0 then KeptLines(s) == [DropCR(s[..i])] + KeptLines(s[i + 1..])
      else if s == [] then KeptLines(s) == []
      else KeptLines(s) == [s] + KeptLines([])
  {
    hide IndexByte;
  }

  datatype ReadCall = ReadCall(n: nat) | ReadByteCall | ReadBytesCall(delim: byte)

  /** Any read that returns data, then UnreadByte: exactly the last byte goes back. */
  method ReadThenUnread(b: BufferedReading.Reader, call: ReadCall) returns (p: seq<byte>)
    requires b.Valid()
    modifies b.Repr
    ensures b.Valid() && p <= old(b.Stream())
    ensures b.Stream() == old(b.Stream())[if p == [] then 0 else |p| - 1..]
  {
    hide IndexByte;
    var e;
    match call {
      case ReadCall(n) => p, e := b.Read(n);
      case ReadBytesCall(delim) => p, e := b.ReadBytes(delim);
      case ReadByteCall =>
        var c;
        c, e := b.ReadByte();
        p := if e == None then [c] else [];
    }
    if p != [] {
      GiveBack(old(b.Stream()), p);
      e := b.UnreadByte();
    }
  }

  /** No newline among the first n bytes, and the last of them is the first of a run of
      carriage returns. */
  predicate ReturnAtEdge(s: seq<byte>, n: nat) {
    2 <= n <= |s| && NL !in s[..n] && s[n - 1] == CR && s[n - 2] != CR
  }

  /** UnreadByte after ReadLine puts back the last byte read only if ReadLine did not
      already put back a carriage return, or if the byte before that one happened to be
      a carriage return too. The documentation of ReadLine promises it always. On the
      stream: it fails when a carriage return stands at the edge of the buffer and more
      follows, and only when one stands there. */
  method ReadLineThenUnread(b: BufferedReading.Reader)
    returns (line: seq<byte>, isPrefix: bool, e: Option<Error>, ghost raw: seq<byte>)
    requires b.Valid()
    modifies b.Repr
    ensures b.Valid() && raw <= old(b.Stream()) && (e == None <==> raw != []) && (isPrefix ==> line == raw != [])
    ensures e == None ==>
              (b.Stream() == old(b.Stream())[|raw| - 1..]
               <==> !(isPrefix && |line| < b.buf.Length && line[|line| - 1] != CR))
    ensures b.Prompt() && b.buf.Length < |old(b.Stream())| && ReturnAtEdge(old(b.Stream()), b.buf.Length) ==>
              && |raw| == b.buf.Length - 1 && b.Stream() != old(b.Stream())[|raw| - 1..]
              && b.Stream() == [CR] + old(b.Stream())[|raw|..]
    ensures e == None && b.Stream() != old(b.Stream())[|raw| - 1..] ==> ReturnAtEdge(old(b.Stream()), b.buf.Length)
  {
    hide DropCR;
    ghost var s, size := b.Stream(), b.buf.Length;
    line, isPrefix, e, raw := b.ReadLine();
    assert raw == s[..|raw|];
    if e == None {
      GiveBack(s, raw);
      if isPrefix && |line| < size { AtEdge(s, raw); }
    }
    if |raw| <= size < |s| { assert s[..size][..|raw|] == raw; }
    var failed := b.UnreadByte();
  }

  lemma AtEdge(s: seq<byte>, raw: seq<byte>)
    requires raw <= s && raw != [] && NL !in raw && s[|raw|..] != [] && s[|raw|..][0] == CR
    ensures |raw| < |s| && NL !in s[..|raw| + 1] && s[|raw|] == CR && s[|raw| - 1] == raw[|raw| - 1]
  {
    assert s[..|raw| + 1] == raw + [s[|raw|]];
  }

  /** Fifteen times 'a' and a line end, read through a buffer of 16 bytes: UnreadByte,
      instead of restoring the last 'a', doubles the carriage return. */
  method DoubledReturn(last: Error, maxEmpty: nat) returns (b: BufferedReading.Reader)
    requires last != BufferFull && maxEmpty < 100
    ensures b.Valid() && b.Stream() == [CR, CR, NL]
  {
    var text: seq<byte> := seq(15, _ => 0x61) + [CR, NL];
    var rd := new Io.Reader(text, last, maxEmpty, true);
    b := new BufferedReading.Reader(rd, MIN_READ_BUFFER_SIZE);
    assert ReturnAtEdge(text, 16);
    var line, isPrefix, e, raw := ReadLineThenUnread(b);
    assert text[15..] == [CR, NL];
  }
}
