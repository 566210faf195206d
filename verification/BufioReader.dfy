/** bufio.Reader: what is buffered, followed by what the reader has not delivered, is
    always the rest of the stream; every operation is described by what it takes off
    the front of it. */
module BufferedReading {
  import opened Utf8
  import opened Io
  import opened Basics
  import opened Splits

  const MIN_READ_BUFFER_SIZE := 16

  /** delim ends s and occurs nowhere else in it. */
  predicate EndsIn(s: seq<byte>, delim: byte) {
    s != [] && s[|s| - 1] == delim && delim !in s[..|s| - 1]
  }

  /** What lastByte is after p has been read. */
  function LastOf(p: seq<byte>, before: int): int {
    if p == [] then before else p[|p| - 1] as int
  }

  /** A prefix that ends in its only c ends in the first c. */
  lemma FoundAt(s: seq<byte>, c: byte, p: seq<byte>)
    requires p <= s && EndsIn(p, c)
    ensures IndexByte(s, c) == |p| - 1 && s[..|p|] == p
  {
    hide IndexByte;
    var j := |p| - 1;
    assert p[j] == s[j];
    assert forall k | 0 <= k < j :: s[k] == p[..j][k];
  }

  /** What was searched already need not be searched again. */
  lemma SearchRest(d: seq<byte>, s: nat, c: byte)
    requires s <= |d| && c !in d[..s]
    ensures var i := IndexByte(d[s..], c);
      if i < 0 then c !in d else d[s + i] == c && c !in d[..s + i]
  {
    hide IndexByte;
    var i := IndexByte(d[s..], c);
    assert forall k | 0 <= k < s :: d[k] == d[..s][k];
    assert forall k | s <= k < |d| :: d[k] == d[s..][k - s];
  }

  /** Looks for c in d, leaving out the first s bytes, which hold none. */
  method FindFrom(d: seq<byte>, s: nat, c: byte) returns (i: int)
    requires s <= |d| && c !in d[..s]
    ensures -1 <= i < |d|
    ensures if i < 0 then c !in d else d[i] == c && c !in d[..i]
  {
    hide IndexByte;
    SearchRest(d, s, c);
    i := IndexByte(d[s..], c);
    if i >= 0 { i := i + s; }
  }

  lemma EndsThere(d: seq<byte>, i: nat, c: byte)
    requires i < |d| && d[i] == c && c !in d[..i]
    ensures EndsIn(d[..i + 1], c)
  {
    assert d[..i + 1][..i] == d[..i];
  }

  /** The fragments end to end. */
  function Concat(parts: seq<seq<byte>>): seq<byte> {
    if parts == [] then [] else Concat(parts[..|parts| - 1]) + parts[|parts| - 1]
  }

  lemma ConcatNone()
    ensures Concat([]) == []
  {
  }

  lemma ConcatSnoc(parts: seq<seq<byte>>, part: seq<byte>)
    ensures Concat(parts + [part]) == Concat(parts) + part
  {
    assert (parts + [part])[..|parts|] == parts;
  }

  lemma {:induction false} ConcatPrefix(parts: seq<seq<byte>>, k: nat)
    requires k < |parts|
    ensures Concat(parts[..k + 1]) == Concat(parts[..k]) + parts[k] <= Concat(parts)
  {
    ConcatSnoc(parts[..k], parts[k]);
    assert parts[..k] + [parts[k]] == parts[..k + 1];
    if k + 1 < |parts| {
      ConcatPrefix(parts[..|parts| - 1], k);
      assert parts[..|parts| - 1][..k + 1] == parts[..k + 1];
      assert parts[..|parts| - 1][..k] == parts[..k];
    } else {
      assert parts[..k + 1] == parts;
    }
  }

  /** Copies the fragments into a fresh buffer of the length they add up to. */
  method JoinFragments(full: seq<seq<byte>>, frag: seq<byte>, n: nat) returns (line: seq<byte>)
    requires n == |Concat(full)| + |frag|
    ensures line == Concat(full) + frag
  {
    hide Concat;
    var buf := new byte[n];
    assert full[..|full|] == full;
    ConcatNone();
    assert full[..0] == [];
    var k: nat := 0;
    for i := 0 to |full|
      invariant k == |Concat(full[..i])| <= n && buf[..k] == Concat(full[..i])
    {
      ConcatPrefix(full, i);
      k := CopyInto(buf, k, full[i]);
    }
    k := CopyInto(buf, k, frag);
    line := buf[..];
  }

  method CopyInto(buf: array<byte>, k: nat, p: seq<byte>) returns (end: nat)
    requires k + |p| <= buf.Length
    modifies buf
    ensures end == k + |p| && buf[..end] == old(buf[..k]) + p
  {
    forall j | 0 <= j < |p| { buf[k + j] := p[j]; }
    end := k + |p|;
  }

  /** Taking p and then q off s. */
  lemma TakeBoth(s: seq<byte>, p: seq<byte>, q: seq<byte>)
    requires p <= s && q <= s[|p|..]
    ensures p + q <= s && s[|p + q|..] == s[|p|..][|q|..]
  {
    assert s == p + s[|p|..];
  }

  lemma GiveBack(s: seq<byte>, p: seq<byte>)
    requires p <= s && p != []
    ensures [p[|p| - 1]] + s[|p|..] == s[|p| - 1..]
  {
    assert p == s[..|p|];
  }

  class Reader {
    const rd: Io.Reader
    const buf: array<byte>
    var r: nat
    var w: nat
    var err: Option<Error>
    var lastByte: int
    var lastRuneSize: int
    ghost const Repr: set<object>

    ghost predicate Valid()
      reads this, Repr
      ensures Valid() ==> this in Repr
    {
      && Repr == {this, buf, rd}
      && MIN_READ_BUFFER_SIZE <= buf.Length && r <= w <= buf.Length
      && -1 <= lastByte < 0x100
      && rd.Valid() && rd.honest && rd.last != BufferFull
      && (err.Some? ==> Reported(err.value))
    }

    /** The reader is never idle so often in a row that bufio gives up on it. */
    ghost predicate Prompt() {
      rd.maxEmpty < 100
    }

    /** An error worth reporting: the reader's own, with its stream used up, or the
        complaint that it makes no progress, after 100 empty reads in a row. */
    ghost predicate Reported(e: Error)
      reads rd
    {
      (rd.data == [] && e == rd.last) || (100 <= rd.idle && e == NoProgress)
    }

    /** The rest of the stream. */
    ghost function Stream(): seq<byte>
      requires r <= w <= buf.Length
      reads this, buf, rd
    {
      buf[r..w] + rd.data
    }

    /** The buffered bytes. */
    ghost function Window(): (s: seq<byte>)
      requires r <= w <= buf.Length
      ensures |s| == w - r
      reads this, buf
    {
      buf[r..w]
    }

    /** There is room in front of the buffered bytes for one to be put back. */
    ghost predicate Rewindable()
      reads this
    {
      r > 0 || w == 0
    }

    constructor (rd: Io.Reader, size: int)
      requires rd.Valid() && rd.honest && rd.last != BufferFull
      ensures Valid() && fresh(Repr - {rd}) && this.rd == rd && Stream() == rd.data == old(rd.data)
      ensures buf.Length == if size < 16 then 16 else size
      ensures err == None && lastByte == -1
    {
      this.rd := rd;
      var data := new byte[Max(size, MIN_READ_BUFFER_SIZE)];
      buf, r, w, err, lastByte, lastRuneSize := data, 0, 0, None, -1, -1;
      Repr := {this, data, rd};
    }

    function Buffered(): int
      reads this
    {
      w - r
    }

    /** Slides what is buffered to the front and reads until something arrives or the
        reader reports an error. */
    method Fill()
      requires Valid() && w - r < buf.Length && err == None
      modifies this`r, this`w, this`err, buf, rd
      ensures Valid() && Stream() == old(Stream()) && r == 0
      ensures w >= old(w - r) && (err.Some? || |rd.data| < |old(rd.data)|)
      ensures rd.calls <= old(rd.calls) + 100
    {
      ghost var kept := buf[r..w];
      if r > 0 {
        forall k | 0 <= k < w - r { buf[k] := buf[r + k]; }
        w := w - r;
        r := 0;
      }
      assert buf[0..w] == kept;
      var i := MAX_EMPTY_READS;
      while i > 0
        invariant 0 <= i <= MAX_EMPTY_READS && MAX_EMPTY_READS - i <= rd.idle
        invariant rd.calls == old(rd.calls) + (MAX_EMPTY_READS - i)
        invariant Valid() && rd.data == old(rd.data) && r == 0 && w == |kept| && buf[0..w] == kept && err == None
      {
        var got := ReadMore();
        if err.Some? || got { return; }
        i := i - 1;
      }
      err := Some(NoProgress);
    }

    /** One Read behind what is buffered. */
    method ReadMore() returns (got: bool)
      requires Valid() && r == 0 && w < buf.Length && err == None
      modifies this`w, this`err, buf, rd
      ensures Valid() && Stream() == old(Stream()) && w >= old(w)
      ensures rd.calls == old(rd.calls) + 1 && (got ==> |rd.data| < |old(rd.data)|)
      ensures !got && err == None ==>
                rd.idle == old(rd.idle) + 1 && rd.data == old(rd.data) && w == old(w) && buf[0..w] == old(buf[0..w])
    {
      ghost var kept := buf[..w];
      var n, e := rd.Read(buf, w, buf.Length);
      assert buf[..w] == kept;
      assert buf[0..w + n] == kept + buf[w..w + n];
      w := w + n;
      err := e;
      got := n > 0;
    }

    method ReadErr() returns (e: Option<Error>)
      modifies this`err
      ensures e == old(err) && err == None
    {
      e := err;
      err := None;
    }

    /** The next n bytes, left where they are. */
    method Peek(n: int) returns (p: seq<byte>, e: Option<Error>)
      requires Valid()
      modifies Repr
      ensures Valid() && Stream() == old(Stream())
      ensures n < 0 ==> p == [] && e == Some(NegativeCount) && lastByte == old(lastByte)
      ensures n >= 0 ==> lastByte == -1 && |p| <= n && p <= Stream()
      ensures n >= 0 && Prompt() ==> |p| == Min(Min(n, buf.Length), |Stream()|)
      ensures n > buf.Length ==> e == Some(BufferFull)
      ensures n <= old(w - r) ==> rd.calls == old(rd.calls)
      ensures 0 <= n <= buf.Length ==> if |p| == n then e == None else e.Some? && Reported(e.value)
    {
      if n < 0 { return [], Some(NegativeCount); }
      lastByte, lastRuneSize := -1, -1;
      while w - r < n && w - r < buf.Length && err == None
        invariant Valid() && Stream() == old(Stream()) && lastByte == -1
        invariant n <= old(w - r) ==> w - r == old(w - r) && rd.calls == old(rd.calls)
        decreases err == None, |rd.data|
      {
        Fill();
      }
      if n > buf.Length { return buf[r..w], Some(BufferFull); }
      var k := n;
      e := None;
      if w - r < n {
        k := w - r;
        e := ReadErr();
      }
      p := buf[r..r + k];
      CutSlice(buf, r, r + k, w);
    }

    /** Hands over up to n bytes, from at most one Read of the reader. */
    method Read(n: nat) returns (p: seq<byte>, e: Option<Error>)
      requires Valid()
      modifies Repr
      ensures Valid() && |p| <= n && p <= old(Stream()) && Stream() == old(Stream())[|p|..]
      ensures p != [] ==> lastByte == p[|p| - 1] as int && Rewindable()
      ensures p == [] ==> lastByte == old(lastByte)
      ensures e.Some? ==> Reported(e.value)
      ensures if old(r < w) then |p| == Min(n, old(w - r)) && e == None && err == old(err)
              else if old(err).Some? || n == 0 then p == [] && e == old(err) && err == None
              else
                && rd.calls == old(rd.calls) + 1
                && (p == [] ==> err == None && (e == None ==> rd.idle == old(rd.idle) + 1))
    {
      assert Stream()[0..] == Stream();
      if n == 0 {
        if Buffered() > 0 { return [], None; }
        e := ReadErr();
        return [], e;
      }
      if r < w {
        p := TakeFront(Min(n, w - r));
        return p, None;
      }
      p, e := ReadAfresh(n);
    }

    /** Read once nothing is buffered. */
    method ReadAfresh(n: nat) returns (p: seq<byte>, e: Option<Error>)
      requires Valid() && r == w && n > 0
      modifies Repr
      ensures Valid() && |p| <= n && p <= old(Stream()) && Stream() == old(Stream())[|p|..]
      ensures p != [] ==> lastByte == p[|p| - 1] as int && Rewindable()
      ensures p == [] ==> lastByte == old(lastByte)
      ensures e.Some? ==> Reported(e.value)
      ensures p == [] ==> err == None
      ensures if old(err).Some? then p == [] && e == old(err)
              else rd.calls == old(rd.calls) + 1 && (p == [] && e == None ==> rd.idle == old(rd.idle) + 1)
    {
      assert Stream()[0..] == Stream();
      if err.Some? {
        e := ReadErr();
        return [], e;
      }
      if n >= buf.Length {
        p, e := ReadDirect(n);
        return;
      }
      var got := FillOnce();
      if !got {
        e := ReadErr();
        return [], e;
      }
      p := TakeFront(Min(n, w - r));
      return p, None;
    }

    /** One Read into the empty buffer. */
    method FillOnce() returns (got: bool)
      requires Valid() && r == w && err == None
      modifies this`r, this`w, this`err, buf, rd
      ensures Valid() && Stream() == old(Stream()) && got == (r < w)
      ensures rd.calls == old(rd.calls) + 1 && (!got && err == None ==> rd.idle == old(rd.idle) + 1)
    {
      r, w := 0, 0;
      ghost var data := rd.data;
      var k;
      k, err := rd.Read(buf, 0, buf.Length);
      w := k;
      got := k > 0;
      assert data[..k] + data[k..] == data;
    }

    /** Past an empty buffer: into the caller's slice directly. */
    method ReadDirect(n: nat) returns (p: seq<byte>, e: Option<Error>)
      requires Valid() && r == w && err == None && buf.Length <= n
      modifies this`lastByte, this`lastRuneSize, this`err, rd
      ensures Valid() && |p| <= n && p <= old(Stream()) && Stream() == old(Stream())[|p|..]
      ensures p != [] ==> lastByte == p[|p| - 1] as int && Rewindable()
      ensures p == [] ==> lastByte == old(lastByte)
      ensures e.Some? ==> Reported(e.value)
      ensures err == None && rd.calls == old(rd.calls) + 1
      ensures p == [] && e == None ==> rd.idle == old(rd.idle) + 1
    {
      var out := new byte[n];
      var k;
      k, err := rd.Read(out, 0, n);
      p := out[..k];
      assert out[0..k] == p;
      if k > 0 { lastByte, lastRuneSize := p[k - 1] as int, -1; }
      e := ReadErr();
    }

    /** Takes k buffered bytes. */
    method TakeFront(k: nat) returns (p: seq<byte>)
      requires Valid() && 0 < k <= w - r
      modifies this`r, this`lastByte, this`lastRuneSize
      ensures Valid() && |p| == k && p <= old(Stream()) && Stream() == old(Stream())[k..] && r == old(r) + k
      ensures lastByte == p[k - 1] as int && p == old(Window())[..k] && buf[r - 1] == p[k - 1]
    {
      p := buf[r..r + k];
      CutSlice(buf, r, r + k, w);
      r := r + k;
      lastByte, lastRuneSize := buf[r - 1] as int, -1;
    }

    method ReadByte() returns (c: byte, e: Option<Error>)
      requires Valid()
      modifies Repr
      ensures Valid()
      ensures e == None ==>
                && old(Stream()) != [] && c == old(Stream())[0] && Stream() == old(Stream())[1..]
                && lastByte == c as int && Rewindable()
      ensures e.Some? ==> Stream() == old(Stream()) && Reported(e.value) && (Prompt() ==> Stream() == [])
    {
      lastRuneSize := -1;
      c := 0;
      while r == w
        invariant Valid() && Stream() == old(Stream())
        decreases err == None, |rd.data|
      {
        if err.Some? {
          e := ReadErr();
          return;
        }
        Fill();
      }
      var p := TakeFront(1);
      return p[0], None;
    }

    /** Puts the last byte back in front of the stream. */
    method UnreadByte() returns (e: Option<Error>)
      requires Valid()
      modifies this`r, this`w, this`lastByte, this`lastRuneSize, buf
      ensures Valid()
      ensures e == if old(lastByte) < 0 || !old(Rewindable()) then Some(InvalidUnreadByte) else None
      ensures e == None ==> Stream() == [old(lastByte) as byte] + old(Stream()) && lastByte == -1
      ensures e != None ==> Stream() == old(Stream()) && lastByte == old(lastByte)
    {
      if lastByte < 0 || (r == 0 && w > 0) { return Some(InvalidUnreadByte); }
      ghost var before := buf[r..w];
      if r > 0 { r := r - 1; } else { w := 1; }
      buf[r] := lastByte as byte;
      assert buf[r..w] == [lastByte as byte] + before;
      lastByte, lastRuneSize := -1, -1;
      return None;
    }

    /** The next line through delim, as far as the buffer holds it. */
    method ReadSlice(delim: byte) returns (line: seq<byte>, e: Option<Error>)
      requires Valid()
      modifies Repr
      ensures Valid() && line <= old(Stream()) && Stream() == old(Stream())[|line|..]
      ensures SliceOutcome(line, e, delim)
      ensures lastByte == LastOf(line, old(lastByte))
      ensures Rewindable() && |line| <= r && (line != [] ==> buf[r - 1] == line[|line| - 1]) && (e.Some? ==> r == w)
    {
      hide SliceOutcome, Rewindable;
      var s: nat := 0;
      while true
        invariant Valid() && Stream() == old(Stream()) && s <= w - r && lastByte == old(lastByte)
        invariant delim !in Window()[..s]
        decreases err == None, |rd.data|
      {
        var i := FindFrom(buf[r..w], s, delim);
        if i >= 0 || err.Some? || w - r >= buf.Length {
          line, e := TakeLine(i, delim);
          return;
        }
        s := More(delim);
      }
    }

    /** ReadSlice's way out: at the delimiter just found, with a pending error, or
        with a full buffer. */
    method TakeLine(i: int, delim: byte) returns (line: seq<byte>, e: Option<Error>)
      requires Valid() && -1 <= i < w - r && (i >= 0 || err.Some? || w - r >= buf.Length)
      requires if i < 0 then delim !in Window() else Window()[i] == delim && delim !in Window()[..i]
      modifies this`r, this`err, this`lastByte, this`lastRuneSize
      ensures Valid() && line <= old(Stream()) && Stream() == old(Stream())[|line|..]
      ensures SliceOutcome(line, e, delim)
      ensures lastByte == LastOf(line, old(lastByte))
      ensures Rewindable() && |line| <= r && (line != [] ==> buf[r - 1] == line[|line| - 1]) && (e.Some? ==> r == w)
    {
      if i >= 0 {
        ghost var window := Window();
        line := TakeFront(i + 1);
        EndsThere(window, i, delim);
        return line, None;
      }
      line := TakeAll();
      if err.Some? {
        e := ReadErr();
      } else {
        e := Some(BufferFull);
      }
    }

    /** Reads on behind a buffer that holds no delimiter, and says how much of it need
        not be looked at again. */
    method More(delim: byte) returns (s: nat)
      requires Valid() && delim !in Window() && err == None && w - r < buf.Length
      modifies this`r, this`w, this`err, buf, rd
      ensures Valid() && Stream() == old(Stream()) && s <= w - r && delim !in Window()[..s]
      ensures err.Some? || |rd.data| < |old(rd.data)|
    {
      s := w - r;
      ghost var seen := Window();
      Fill();
      assert Window()[..s] == Stream()[..s] == seen;
    }

    /** Takes everything buffered, which may be nothing. */
    method TakeAll() returns (p: seq<byte>)
      requires Valid()
      modifies this`r, this`lastByte, this`lastRuneSize
      ensures Valid() && p == old(buf[r..w]) && r == w == old(w) && Stream() == rd.data
      ensures p <= old(Stream()) && Stream() == old(Stream())[|p|..]
      ensures lastByte == LastOf(p, old(lastByte))
    {
      p := [];
      if w > r { p := TakeFront(w - r); }
      assert buf[w..w] == [];
    }

    /** What ReadSlice says about the line it returns. */
    ghost predicate SliceOutcome(line: seq<byte>, e: Option<Error>, delim: byte)
      reads rd
    {
      match e
      case None => EndsIn(line, delim)
      case Some(BufferFull) => |line| == buf.Length && delim !in line
      case Some(other) => Reported(other) && delim !in line
    }

    /** A line without its end. `raw` is what the call takes off the stream: the line,
        its end, and nothing else. A carriage return that may yet turn out to belong
        to the end of the line is left in front of the stream. */
    method ReadLine() returns (line: seq<byte>, isPrefix: bool, e: Option<Error>, ghost raw: seq<byte>)
      requires Valid()
      modifies Repr
      ensures Valid() && raw <= old(Stream()) && Stream() == old(Stream())[|raw|..]
      ensures LineOutcome(raw, line, isPrefix, e) && |raw| <= buf.Length
      ensures Rewindable()
      ensures lastByte == if isPrefix && |line| < buf.Length then CR as int else LastOf(raw, old(lastByte))
    {
      hide Rewindable;
      line, e := ReadSlice(NL);
      raw := line;
      isPrefix := false;
      if e == Some(BufferFull) {
        if |line| > 0 && line[|line| - 1] == CR {
          GiveBack(old(Stream()), line);
          StepBack(CR);
          line := line[..|line| - 1];
          raw := line;
        }
        return line, true, None, raw;
      }
      if |line| == 0 { return; }
      e := None;
      if line[|line| - 1] == NL {
        var drop := 1;
        if |line| > 1 && line[|line| - 2] == CR { drop := 2; }
        line := line[..|line| - drop];
      }
    }

    /** Everything through the first delim, in as many pieces as the buffer makes of it. */
    method CollectFragments(delim: byte)
      returns (fullBuffers: seq<seq<byte>>, finalFragment: seq<byte>, totalLen: nat, e: Option<Error>)
      requires Valid()
      modifies Repr
      ensures Valid() && Rewindable() && forall part | part in fullBuffers :: |part| == buf.Length
      ensures var all := Concat(fullBuffers) + finalFragment;
        totalLen == |all| && DelimOutcome(old(Stream()), all, delim, e) && lastByte == LastOf(all, old(lastByte))
    {
      hide Rewindable, Concat, LastOf, EndsIn, Collected, DelimOutcome;
      fullBuffers, totalLen := [], 0;
      ConcatNone();
      NothingCollected(delim);
      while true
        invariant Valid() && totalLen == |Concat(fullBuffers)|
        invariant forall part | part in fullBuffers :: |part| == buf.Length
        invariant Collected(old(Stream()), Concat(fullBuffers), delim, old(lastByte))
        decreases |Stream()|
      {
        var more;
        finalFragment, more := NextFragment(old(Stream()), Concat(fullBuffers), delim, old(lastByte));
        totalLen := totalLen + |finalFragment|;
        if more != Some(BufferFull) { return fullBuffers, finalFragment, totalLen, more; }
        ConcatSnoc(fullBuffers, finalFragment);
        fullBuffers := fullBuffers + [finalFragment];
      }
    }

    /** What has been collected of s so far, with no delim in it. */
    ghost predicate Collected(s: seq<byte>, taken: seq<byte>, delim: byte, before: int)
      requires r <= w <= buf.Length
      reads this, buf, rd
    {
      taken <= s && Stream() == s[|taken|..] && delim !in taken && lastByte == LastOf(taken, before)
    }

    lemma NothingCollected(delim: byte)
      requires r <= w <= buf.Length
      ensures Collected(Stream(), [], delim, lastByte)
    {
      assert Stream()[0..] == Stream();
    }

    method NextFragment(ghost s: seq<byte>, ghost taken: seq<byte>, delim: byte, ghost before: int)
      returns (frag: seq<byte>, e: Option<Error>)
      requires Valid() && Collected(s, taken, delim, before)
      modifies Repr
      ensures Valid() && Rewindable()
      ensures if e == Some(BufferFull) then
                Collected(s, taken + frag, delim, before) && |frag| == buf.Length && |Stream()| < |old(Stream())|
              else
                DelimOutcome(s, taken + frag, delim, e) && lastByte == LastOf(taken + frag, before)
    {
      hide Rewindable;
      frag, e := ReadSlice(delim);
      TakeBoth(s, taken, frag);
      if e == None { assert (taken + frag)[..|taken + frag| - 1] == taken + frag[..|frag| - 1]; }
    }

    /** `line` has been taken off s: all of it through the first delim, or all that
        came before the error. */
    ghost predicate DelimOutcome(s: seq<byte>, line: seq<byte>, delim: byte, e: Option<Error>)
      requires r <= w <= buf.Length
      reads this, buf, rd
    {
      && line <= s && Stream() == s[|line|..]
      && match e
         case None => EndsIn(line, delim)
         case Some(other) => delim !in line && Reported(other) && (Prompt() ==> Stream() == [])
    }

    /** The bytes through the first delim. */
    method ReadBytes(delim: byte) returns (line: seq<byte>, e: Option<Error>)
      requires Valid()
      modifies Repr
      ensures Valid() && Rewindable()
      ensures DelimOutcome(old(Stream()), line, delim, e) && lastByte == LastOf(line, old(lastByte))
      ensures Prompt() ==>
                var i := IndexByte(old(Stream()), delim);
                if i < 0 then line == old(Stream()) && e == Some(rd.last)
                else line == old(Stream())[..i + 1] && e == None
    {
      hide Rewindable;
      var full, frag, n;
      full, frag, n, e := CollectFragments(delim);
      line := JoinFragments(full, frag, n);
      if Prompt() { ThroughDelim(old(Stream()), line, delim, e); }
    }

    lemma ThroughDelim(s: seq<byte>, line: seq<byte>, delim: byte, e: Option<Error>)
      requires Valid() && Prompt() && DelimOutcome(s, line, delim, e)
      ensures var i := IndexByte(s, delim);
        if i < 0 then line == s && e == Some(rd.last) else line == s[..i + 1] && e == None
    {
      hide IndexByte;
      if e == None { FoundAt(s, delim, line); } else { assert s == line + s[|line|..]; }
    }

    method StepBack(c: byte)
      requires Valid() && r > 1 && buf[r - 1] == c
      modifies this`r
      ensures Valid() && Stream() == [c] + old(Stream()) && Rewindable()
    {
      r := r - 1;
      assert buf[r..w] == [c] + buf[r + 1..w];
    }

    ghost predicate LineOutcome(raw: seq<byte>, line: seq<byte>, isPrefix: bool, e: Option<Error>)
      requires r <= w <= buf.Length
      reads this, buf, rd
    {
      match e
      case Some(other) =>
        raw == [] == line && !isPrefix && Reported(other) && (Prompt() ==> Stream() == [])
      case None =>
        && raw != []
        && if isPrefix then
             && raw == line && NL !in raw
             && if |raw| == buf.Length then raw[|raw| - 1] != CR
                else |raw| == buf.Length - 1 && Stream() != [] && Stream()[0] == CR
           else if EndsIn(raw, NL) then
             line == DropCR(raw[..|raw| - 1])
           else
             line == raw && NL !in raw && (Prompt() ==> Stream() == [])
    }
  }
}
