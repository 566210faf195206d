/** bytes.Buffer: a queue of bytes in one growing array, with what its copying costs. */
module Buffers {
  import opened Utf8
  import opened Io
  import opened Basics
  import opened Queues

  const SMALL_BUFFER_SIZE := 64

  class Buffer {
    var data: array?<byte>   // the backing array; null is Go's nil slice
    var len: nat             // len(b.buf)
    var off: nat             // read at data[off], write at data[len]
    var lastRead: int
    ghost var moved: nat     // bytes copied by sliding and by reallocating
    ghost var asked: nat     // bytes of room asked for
    ghost var Repr: set<object>

    ghost predicate Valid()
      reads this, Repr
      ensures Valid() ==> this in Repr
    {
      && Repr == {this} + (if data == null then {} else {data})
      && off <= len <= Cap()
      && OP_READ <= lastRead <= UTF_MAX
      && moved + Potential() <= 3 * asked
      && len <= asked && Cap() <= 3 * asked + SMALL_BUFFER_SIZE && Cap() <= MAX_INT
    }

    function Cap(): nat
      reads `data
    {
      if data == null then 0 else data.Length
    }

    /** Credit for the next copy: how far the buffer is beyond half full, twice. */
    ghost function Potential(): nat
      reads `data, `len
    {
      Max(0, 2 * len - Cap())
    }

    /** data[lo..hi] */
    ghost function Range(lo: nat, hi: nat): seq<byte>
      requires lo <= hi <= Cap()
      reads `data, data
    {
      if data == null then [] else data[lo..hi]
    }

    /** The queue: the unread bytes. */
    ghost function Contents(): seq<byte>
      requires off <= len <= Cap()
      reads `data, `len, `off, data
    {
      Range(off, len)
    }

    /** Bytes already read that are still in front of the queue. */
    ghost function Behind(): seq<byte>
      requires off <= Cap()
      reads `data, `off, data
    {
      Range(0, off)
    }

    /** The queue this buffer stands for. */
    ghost function Abstract(): Queue
      requires off <= len <= Cap()
      reads this, data
    {
      Queue(Behind(), Contents(), lastRead)
    }

    constructor ()
      ensures Valid() && fresh(Repr) && data == null && Abstract() == EMPTY && moved == asked == 0
    {
      data, len, off, lastRead := null, 0, 0, OP_INVALID;
      moved, asked := 0, 0;
      Repr := {this};
    }

    /** The unread bytes, as Bytes returns them. */
    function Bytes(): (s: seq<byte>)
      requires Valid()
      reads this, Repr
      ensures s == Contents()
    {
      if data == null then [] else data[off..len]
    }

    function Len(): (n: int)
      reads this
    {
      len - off
    }

    method Reset()
      requires Valid()
      modifies this`len, this`off, this`lastRead
      ensures Valid() && Abstract() == EMPTY && off == 0 && len == 0
    {
      len, off, lastRead := 0, 0, OP_INVALID;
    }

    /** Keeps the first n unread bytes; panics when there are not so many. */
    method Truncate(n: int) returns (panicked: bool)
      requires Valid()
      modifies this`len, this`off, this`lastRead
      ensures Valid() && lastRead == OP_INVALID && panicked == !(0 <= n <= |old(Contents())|)
      ensures !panicked ==> Contents() == old(Contents())[..n]
      ensures panicked ==> Contents() == old(Contents())
      ensures Behind() == if n == 0 then [] else old(Behind())
    {
      if n == 0 { Reset(); return false; }
      lastRead := OP_INVALID;
      if n < 0 || n > Len() { return true; }
      len := off + n;
      if data != null { CutSlice(data, off, len, old(len)); }
      return false;
    }

    /** Room for n more bytes behind the contents, if the array has it already. */
    method TryGrowByReslice(n: nat) returns (m: nat, ok: bool)
      requires Valid()
      modifies this`len, this`asked
      ensures Valid() && ok == (n <= Cap() - old(len)) && Behind() == old(Behind())
      ensures ok ==> m == old(len) && Grown(n, m, old(Contents()), old(asked))
      ensures !ok ==> len == old(len) && asked == old(asked)
    {
      if n <= Cap() - len {
        ResliceCost(Cap(), len, n);
        m := len;
        len := len + n;
        asked := asked + n;
        return m, true;
      }
      return 0, false;
    }

    /** Room for n more bytes behind the contents, by sliding them to the front of the
        array or by moving them to a new one; the new bytes hold anything. Panics
        when the array would become too large. */
    method GrowSlow(n: nat) returns (m: nat, panicked: bool)
      requires Valid()
      modifies Repr
      ensures Valid() && fresh(Repr - old(Repr))
      ensures panicked ==> Unmoved() && asked == old(asked) && TooLarge(n) && n > old(Cap() - len)
      ensures !panicked ==> Grown(n, m, old(Contents()), old(asked))
      ensures lastRead == if old(len == off && off != 0) then OP_INVALID else old(lastRead)
      ensures Behind() == if old(len == off) || (!panicked && n > old(Cap() - len)) then [] else old(Behind())
      ensures old(data == null) && 0 < n <= SMALL_BUFFER_SIZE ==> !panicked && Cap() == SMALL_BUFFER_SIZE
    {
      m := Len();
      if m == 0 && off != 0 { Reset(); }
      m, panicked := GrowBehind(n);
    }

    /** GrowSlow once an empty buffer has been reset. */
    method GrowBehind(n: nat) returns (m: nat, panicked: bool)
      requires Valid()
      modifies Repr
      ensures Valid() && fresh(Repr - old(Repr)) && lastRead == old(lastRead)
      ensures panicked ==> Unmoved() && asked == old(asked) && TooLarge(n) && n > old(Cap() - len)
      ensures !panicked ==> Grown(n, m, old(Contents()), old(asked))
      ensures Behind() == if !panicked && n > old(Cap() - len) then [] else old(Behind())
      ensures old(data == null) && 0 < n <= SMALL_BUFFER_SIZE ==> !panicked && Cap() == SMALL_BUFFER_SIZE
    {
      hide Grown;
      var i, ok := TryGrowByReslice(n);
      if ok { return i, false; }
      if data == null && n <= SMALL_BUFFER_SIZE {
        StartSmall(n);
        return 0, false;
      }
      m := Len();
      panicked := MoveContents(n);
    }

    /** The first array, of 64 bytes. */
    method StartSmall(n: nat)
      requires Valid() && data == null && n <= SMALL_BUFFER_SIZE
      modifies this
      ensures Valid() && fresh(Repr - old(Repr)) && lastRead == old(lastRead)
      ensures Behind() == [] && Grown(n, 0, [], old(asked)) && Cap() == SMALL_BUFFER_SIZE
    {
      data := new byte[SMALL_BUFFER_SIZE];
      Repr := {this, data};
      len := n;
      asked := asked + n;
    }

    /** The contents are in place and n bytes of room start at m. */
    ghost predicate Grown(n: nat, m: nat, contents: seq<byte>, askedBefore: nat)
      requires Valid()
      reads this, Repr
    {
      && asked == askedBefore + n && off <= m && len == m + n && m == off + |contents|
      && Range(off, m) == contents
    }

    /** An array for the contents and n more bytes would be longer than an int can say. */
    predicate TooLarge(n: nat)
      reads `data
    {
      2 * Cap() + n > MAX_INT
    }

    /** It takes requests for well over 10^18 bytes to come to that. */
    lemma TooMuchAsked(n: nat)
      requires Valid() && TooLarge(n)
      ensures 6 * asked + n + 128 > 9223372036854775807
    {
    }

    twostate predicate Unmoved()
      requires old(Valid()) && Valid()
      reads this, Repr
    {
      data == old(data) && Contents() == old(Contents())
    }

    /** Slides the contents down when that leaves enough room, else reallocates. */
    method MoveContents(n: nat) returns (panicked: bool)
      requires Valid() && n > Cap() - len && (data == null ==> n > SMALL_BUFFER_SIZE)
      modifies Repr
      ensures Valid() && fresh(Repr - old(Repr)) && lastRead == old(lastRead)
      ensures panicked ==> Unmoved() && Behind() == old(Behind()) && asked == old(asked) && TooLarge(n)
      ensures moved == old(moved) + if panicked then 0 else old(len - off)
      ensures !panicked ==> Behind() == [] && Grown(n, old(len - off), old(Contents()), old(asked))
      ensures !panicked ==> (data == old(data) <==> n <= old(Cap() / 2 - (len - off)))
    {
      var m, c := len - off, Cap();
      if n <= c / 2 - m {
        Slide(n);
      } else if c > MAX_INT - c - n {
        return true;
      } else {
        Reallocate(n);
      }
      return false;
    }

    method Slide(n: nat)
      requires Valid() && n > Cap() - len && n <= Cap() / 2 - (len - off)
      modifies Repr
      ensures Valid() && Repr == old(Repr) && data == old(data) && lastRead == old(lastRead)
      ensures Behind() == [] && Grown(n, old(len - off), old(Contents()), old(asked))
      ensures moved == old(moved) + old(len - off)
    {
      ghost var contents := Contents();
      var m := len - off;
      SlideCost(Cap(), len, m, n);
      CopyTo(data, 0, data[off..len]);
      moved, off, len, asked := moved + m, 0, m + n, asked + n;
      assert Range(0, m) == contents;
    }

    method Reallocate(n: nat)
      requires Valid() && n > Cap() - len && !TooLarge(n)
      modifies this
      ensures Valid() && fresh(Repr - old(Repr)) && lastRead == old(lastRead)
      ensures Behind() == [] && Grown(n, old(len - off), old(Contents()), old(asked))
      ensures fresh(data) && Cap() == 2 * old(Cap()) + n && moved == old(moved) + old(len - off)
    {
      var contents := Bytes();
      ReallocCost(Cap(), len, |contents|, n);
      var buf := new byte[2 * Cap() + n];
      CopyTo(buf, 0, contents);
      Install(buf, contents, n);
    }

    /** Goes on with an array that holds the contents at its front. */
    method Install(buf: array<byte>, contents: seq<byte>, n: nat)
      requires Valid() && |contents| + n <= buf.Length && buf[0..|contents|] == contents
      requires moved + |contents| + Max(0, 2 * (|contents| + n) - buf.Length) <= 3 * (asked + n)
      requires |contents| <= asked && buf.Length <= 3 * (asked + n) && buf.Length <= MAX_INT
      modifies this
      ensures Valid() && Repr == {this, buf} && lastRead == old(lastRead)
      ensures Behind() == [] && Grown(n, |contents|, contents, old(asked))
      ensures data == buf && moved == old(moved) + |contents|
    {
      var m := |contents|;
      data := buf;
      Repr := {this, buf};
      moved, off, len, asked := moved + m, 0, m + n, asked + n;
    }

    /** Grow guarantees room for n more bytes without changing the contents. It does
        not mark the buffer as changed: a read may still be pending. */
    method Grow(n: int) returns (panicked: bool)
      requires Valid()
      modifies Repr
      ensures Valid() && fresh(Repr - old(Repr)) && Contents() == old(Contents())
      ensures n < 0 ==> panicked
      ensures panicked ==> data == old(data) && asked == old(asked)
      ensures panicked && n >= 0 ==> TooLarge(n) && n > old(Cap() - len)
      ensures !panicked ==> n <= Cap() - len && asked == old(asked) + n
      ensures lastRead == if n >= 0 && old(len == off && off != 0) then OP_INVALID else old(lastRead)
      ensures Behind() ==
              if n >= 0 && (old(len == off) || (!panicked && n > old(Cap() - len))) then [] else old(Behind())
    {
      if n < 0 { return true; }
      var m;
      m, panicked := GrowSlow(n);
      if !panicked { CutTo(m); }
    }

    /** b.buf = b.buf[:m] */
    method CutTo(m: nat)
      requires Valid() && off <= m <= len
      modifies this`len
      ensures Valid() && len == m && Contents() == old(Range(off, m)) && Behind() == old(Behind())
    {
      len := m;
    }

    /** Puts p behind the contents. */
    method Write(p: seq<byte>) returns (n: nat, panicked: bool)
      requires Valid()
      modifies Repr
      ensures Valid() && fresh(Repr - old(Repr)) && lastRead == OP_INVALID
      ensures !panicked ==> n == |p| && Contents() == old(Contents()) + p && asked == old(asked) + |p|
      ensures panicked ==> Unmoved() && asked == old(asked) && TooLarge(|p|)
      ensures Behind() == old(Behind()) || Behind() == []
      ensures old(data == null) && 0 < |p| <= 64 ==> !panicked && Cap() == 64
    {
      lastRead := OP_INVALID;
      ghost var contents := Contents();
      var m;
      m, panicked := GrowFor(|p|);
      if panicked { return 0, true; }
      n := CopyIn(m, p, contents);
    }

    /** Room for n bytes: from the array as it is, or by growing. */
    method GrowFor(n: nat) returns (m: nat, panicked: bool)
      requires Valid() && lastRead == OP_INVALID
      modifies Repr
      ensures Valid() && fresh(Repr - old(Repr)) && lastRead == OP_INVALID
      ensures panicked ==> Unmoved() && asked == old(asked) && TooLarge(n)
      ensures !panicked ==> Grown(n, m, old(Contents()), old(asked))
      ensures Behind() == old(Behind()) || Behind() == []
      ensures old(data == null) && 0 < n <= SMALL_BUFFER_SIZE ==> !panicked && Cap() == SMALL_BUFFER_SIZE
    {
      hide Grown;
      var ok;
      m, ok := TryGrowByReslice(n);
      panicked := false;
      if !ok { m, panicked := GrowSlow(n); }
    }

    /** copy(b.buf[m:], p) */
    method CopyIn(m: nat, p: seq<byte>, ghost contents: seq<byte>) returns (n: nat)
      requires Valid() && off <= m && len == m + |p| && Range(off, m) == contents
      modifies if data == null then {} else {data}
      ensures Valid() && n == |p| && Contents() == contents + p && Behind() == old(Behind())
    {
      if data != null {
        CutSlice(data, off, m, m);
        CopyTo(data, m, p);
        CutSlice(data, off, m, len);
      }
      return |p|;
    }

    method WriteByte(c: byte) returns (panicked: bool)
      requires Valid()
      modifies Repr
      ensures Valid() && fresh(Repr - old(Repr)) && lastRead == OP_INVALID
      ensures !panicked ==> Contents() == old(Contents()) + [c] && asked == old(asked) + 1
      ensures panicked ==> Unmoved() && asked == old(asked) && TooLarge(1)
      ensures Behind() == old(Behind()) || Behind() == []
    {
      var n;
      n, panicked := Write([c]);
    }

    /** Room for any rune is asked for, and what the rune does not need given back. */
    method WriteRune(r: rune) returns (n: nat, panicked: bool)
      requires Valid()
      modifies Repr
      ensures Valid() && fresh(Repr - old(Repr)) && lastRead == OP_INVALID
      ensures !panicked ==> n == |Encode(r)| && Contents() == old(Contents()) + Encode(r)
      ensures panicked ==> Unmoved() && TooLarge(UTF_MAX)
      ensures Behind() == old(Behind()) || Behind() == []
      ensures asked == old(asked) + if panicked then 0 else if 0 <= r < RUNE_SELF then 1 else UTF_MAX
    {
      if 0 <= r < RUNE_SELF {
        panicked := WriteByte(r);
        return 1, panicked;
      }
      hide Encode;
      lastRead := OP_INVALID;
      ghost var contents := Contents();
      var m;
      m, panicked := GrowFor(UTF_MAX);
      if panicked { return 0, true; }
      n := PutRune(m, r, contents);
    }

    method PutRune(m: nat, r: rune, ghost contents: seq<byte>) returns (n: nat)
      requires Valid() && off <= m && len == m + UTF_MAX && Range(off, m) == contents
      modifies this`len, if data == null then {} else {data}
      ensures Valid() && n == |Encode(r)| && Contents() == contents + Encode(r) && Behind() == old(Behind())
    {
      EncodeAtMostFour(r);
      hide Encode;
      ghost var before := data[..];
      n := EncodeRune(data, m, r);
      BytesBehind(before, data[..], off, m, n);
      len := m + n;
    }

    /** What a read that takes p off the queue leaves. */
    twostate predicate Took(p: seq<byte>)
      requires old(Valid()) && Valid()
      reads this, Repr
    {
      Taken(old(Behind()), old(Contents()), p, Behind(), Contents())
    }

    /** Read takes up to n bytes; at the end of the queue it reports EOF. */
    method Read(n: nat) returns (p: seq<byte>, err: Option<Error>)
      requires Valid()
      modifies this`len, this`off, this`lastRead
      ensures Valid() && |p| == Min(n, |old(Contents())|)
      ensures err == if old(Contents()) == [] && n > 0 then Some(EOF) else None
      ensures if old(Contents()) == [] then Abstract() == EMPTY else Took(p)
      ensures lastRead == if p == [] then OP_INVALID else OP_READ
    {
      lastRead := OP_INVALID;
      if len <= off {
        Reset();
        return [], if n == 0 then None else Some(EOF);
      }
      p := Take(Min(n, len - off));
      if |p| > 0 { lastRead := OP_READ; }
      return p, None;
    }

    method Take(n: nat) returns (p: seq<byte>)
      requires Valid() && n <= len - off
      modifies this`off
      ensures Valid() && off == old(off) + n && |p| == n && Took(p)
    {
      p := if data == null then [] else data[off..off + n];
      if data != null { Parts(data[..], off, n, len); }
      off := off + n;
    }

    /** Next takes up to n bytes; a negative n is out of the slice's bounds. */
    method Next(n: int) returns (p: seq<byte>, panicked: bool)
      requires Valid()
      modifies this`off, this`lastRead
      ensures Valid() && panicked == (n < 0)
      ensures |p| == Max(0, Min(n, |old(Contents())|)) && Took(p)
      ensures lastRead == if p == [] then OP_INVALID else OP_READ
    {
      lastRead := OP_INVALID;
      if n < 0 { return [], true; }
      p := Take(Min(n, len - off));
      if |p| > 0 { lastRead := OP_READ; }
      return p, false;
    }

    method ReadByte() returns (c: byte, err: Option<Error>)
      requires Valid()
      modifies this`len, this`off, this`lastRead
      ensures Valid() && err == if old(Contents()) == [] then Some(EOF) else None
      ensures err == None ==> Took([c]) && lastRead == OP_READ
      ensures err != None ==> Abstract() == EMPTY && c == 0
    {
      if len <= off {
        Reset();
        return 0, Some(EOF);
      }
      lastRead := OP_INVALID;
      var p := Take(1);
      lastRead := OP_READ;
      return p[0], None;
    }

    method ReadRune() returns (r: rune, size: nat, err: Option<Error>)
      requires Valid()
      modifies this`len, this`off, this`lastRead
      ensures Valid() && err == if old(Contents()) == [] then Some(EOF) else None
      ensures err == None ==>
                && Decoded(r, size) == DecodeRune(old(Contents())) && lastRead == size
                && Took(old(Contents())[..size]) && len == old(len)
      ensures err != None ==> Abstract() == EMPTY && r == 0 && size == 0
    {
      if len <= off {
        Reset();
        return 0, 0, Some(EOF);
      }
      var contents := Bytes();
      AsciiFirst(contents);
      hide DecodeRune;
      lastRead := OP_INVALID;
      if contents[0] < RUNE_SELF {
        TakeRune(1);
        return contents[0], 1, None;
      }
      var d := DecodeRune(contents);
      TakeRune(d.size);
      return d.r, d.size, None;
    }

    method TakeRune(size: nat)
      requires Valid() && 1 <= size <= UTF_MAX && size <= len - off
      modifies this`off, this`lastRead
      ensures Valid() && lastRead == size && Took(old(Contents())[..size])
    {
      var p := Take(size);
      lastRead := size;
    }

    /** The last byte read goes back to the front of the queue, if it is still there. */
    method UnreadByte() returns (ok: bool)
      requires Valid()
      modifies this`off, this`lastRead
      ensures Valid() && ok == (old(lastRead) != OP_INVALID)
      ensures Abstract() == if ok then Restored(old(Abstract()), 1) else old(Abstract())
    {
      if lastRead == OP_INVALID { return false; }
      lastRead := OP_INVALID;
      if off > 0 {
        Unreads(data[..], off, 1, len);
        off := off - 1;
      }
      return true;
    }

    /** The last rune read goes back, if all its bytes are still there; if they are
        not, nothing happens and no error is reported. */
    method UnreadRune() returns (ok: bool)
      requires Valid()
      modifies this`off, this`lastRead
      ensures Valid() && ok == (old(lastRead) > 0)
      ensures Abstract() == if ok then Restored(old(Abstract()), old(lastRead)) else old(Abstract())
    {
      if lastRead <= OP_INVALID { return false; }
      if off >= lastRead {
        Unreads(data[..], off, lastRead, len);
        off := off - lastRead;
      }
      lastRead := OP_INVALID;
      return true;
    }

    /** Everything through the first delim, or, with EOF, everything. The read counts
        as successful even when it returned nothing. */
    method ReadBytes(delim: byte) returns (line: seq<byte>, err: Option<Error>)
      requires Valid()
      modifies this`off, this`lastRead
      ensures Valid() && lastRead == OP_READ && Took(line)
      ensures var i := IndexByte(old(Contents()), delim);
        if i < 0 then line == old(Contents()) && err == Some(EOF) else |line| == i + 1 && err == None
    {
      hide IndexByte;
      var contents := if data == null then [] else data[off..len];
      var i := IndexByte(contents, delim);
      line := TakeLine(if i < 0 then len - off else i + 1);
      err := if i < 0 then Some(EOF) else None;
    }

    /** readSlice, once it is known where the line ends. */
    method TakeLine(k: nat) returns (line: seq<byte>)
      requires Valid() && k <= len - off
      modifies this`off, this`lastRead
      ensures Valid() && lastRead == OP_READ && Took(line) && |line| == k
    {
      hide Taken;
      line := Take(k);
      lastRead := OP_READ;
    }

    /** Reads from r until it reports an error, asking for MIN_READ bytes each time;
        what was read is appended, and EOF is no error. Panics when the array would
        become too large and when r reports a count that cannot be. */
    method ReadFrom(r: Reader) returns (n: nat, err: Option<Error>, panicked: bool)
      requires Valid() && r.Valid()
      modifies Repr, r
      ensures Valid() && fresh(Repr - old(Repr)) && r.Valid() && lastRead == OP_INVALID
      ensures Behind() == old(Behind()) || Behind() == []
      ensures n <= |old(r.data)| && Contents() == old(Contents()) + old(r.data)[..n]
      ensures r.data == old(r.data)[n..]
      ensures !panicked ==> r.data == [] && err == if r.last == EOF then None else Some(r.last)
      ensures panicked ==> !r.honest || TooLarge(MIN_READ)
      ensures 0 <= r.calls - old(r.calls) <= MaxReads(n, r.maxEmpty)
      ensures asked == old(asked) + 512 * (r.calls - old(r.calls)) + n
    {
      lastRead := OP_INVALID;
      n := 0;
      panicked, err := false, None;
      ghost var contents, stream := Contents(), r.data;
      MovesNothing(contents, stream);
      hide Moves, MaxReads;
      while err == None && !panicked
        invariant Valid() && fresh(Repr - old(Repr)) && r.Valid() && lastRead == OP_INVALID
        invariant Behind() == old(Behind()) || Behind() == []
        invariant Moves(contents, stream, n, Contents(), r.data)
        invariant err.Some? ==> r.data == [] && err.value == r.last
        invariant panicked ==> !r.honest || TooLarge(MIN_READ)
        invariant asked == old(asked) + MIN_READ * (r.calls - old(r.calls)) + n
        invariant InBudget(old(r.calls), r.calls, n, r.maxEmpty, r.idle, err == None && !panicked)
        decreases err == None && !panicked, |r.data|, r.maxEmpty - r.idle
      {
        hide InBudget;
        var m;
        m, err, panicked := ReadTurn(r, contents, stream, n, old(r.calls));
        n := n + m;
      }
      MovesMeans(contents, stream, n, Contents(), r.data);
      if err == Some(EOF) { err := None; }
    }

    /** One turn of ReadFrom, n bytes in; it began with `start` calls of Read behind r. */
    method ReadTurn(r: Reader, ghost contents: seq<byte>, ghost stream: seq<byte>, ghost n: nat, ghost start: nat)
      returns (m: nat, e: Option<Error>, panicked: bool)
      requires Valid() && r.Valid() && lastRead == OP_INVALID
      requires Moves(contents, stream, n, Contents(), r.data) && InBudget(start, r.calls, n, r.maxEmpty, r.idle, true)
      modifies Repr, r
      ensures Valid() && fresh(Repr - old(Repr)) && r.Valid() && lastRead == OP_INVALID
      ensures Behind() == old(Behind()) || Behind() == []
      ensures Moves(contents, stream, n + m, Contents(), r.data)
      ensures InBudget(start, r.calls, n + m, r.maxEmpty, r.idle, e == None && !panicked)
      ensures e.Some? ==> r.data == [] && e.value == r.last
      ensures panicked ==> !r.honest || TooLarge(MIN_READ)
      ensures !panicked && e == None ==>
                |r.data| < |old(r.data)| || (r.data == old(r.data) && r.idle == old(r.idle) + 1)
      ensures asked == old(asked) + MIN_READ * (r.calls - old(r.calls)) + m
    {
      ghost var before, rest, idle, calls := Contents(), r.data, r.idle, r.calls;
      m, e, panicked := ReadRound(r);
      hide Moves, InBudget;
      MovesMore(contents, stream, n, before, rest, m, Contents(), r.data);
      StaysInBudget(start, calls, n, r.maxEmpty, idle, r.calls, m, r.idle, e == None && !panicked);
    }

    /** Room for MIN_READ bytes and one Read. */
    method ReadRound(r: Reader) returns (m: nat, e: Option<Error>, panicked: bool)
      requires Valid() && r.Valid() && lastRead == OP_INVALID
      modifies Repr, r
      ensures Valid() && fresh(Repr - old(Repr)) && r.Valid() && lastRead == OP_INVALID
      ensures Behind() == old(Behind()) || Behind() == []
      ensures Moves(old(Contents()), old(r.data), m, Contents(), r.data)
      ensures e.Some? ==> r.data == [] && e.value == r.last
      ensures panicked ==> m == 0 && e == None && (!r.honest || TooLarge(MIN_READ))
      ensures !panicked && e == None && m == 0 ==> r.idle == old(r.idle) + 1
      ensures r.calls == old(r.calls) + 1 || (panicked && r.calls == old(r.calls))
      ensures asked == old(asked) + MIN_READ * (r.calls - old(r.calls)) + m
    {
      m, e := 0, None;
      MovesNothing(Contents(), r.data);
      hide Moves;
      panicked := Grow(MIN_READ);
      if panicked { return; }
      m, e, panicked := ReadInto(r);
    }

    /** One Read into the free part of the array. */
    method ReadInto(r: Reader) returns (m: nat, e: Option<Error>, panicked: bool)
      requires Valid() && r.Valid() && data != null && len < data.Length
      modifies this, data, r
      ensures Valid() && Repr == old(Repr) && r.Valid() && lastRead == old(lastRead)
      ensures Moves(old(Contents()), old(r.data), m, Contents(), r.data)
      ensures Behind() == old(Behind()) && asked == old(asked) + m && r.calls == old(r.calls) + 1
      ensures panicked ==> m == 0 && e == None && !r.honest
      ensures e.Some? ==> r.data == [] && e.value == r.last
      ensures !panicked && e == None && m == 0 ==> r.idle == old(r.idle) + 1
    {
      ghost var before := data[..];
      var count;
      count, e := r.Read(data, len, data.Length);
      panicked := count < 0 || len + count > data.Length;
      if panicked { e := None; }
      m := if panicked then 0 else count;
      BytesBehind(before, data[..], off, len, m);
      MoreCost(data.Length, len, m);
      asked := asked + m;
      len := len + m;
    }
  }

  /** The first byte read allows for maxEmpty + 1 more calls, and so does every other. */
  lemma {:induction false} MoreReads(n: nat, m: nat, maxEmpty: nat)
    ensures MaxReads(n, maxEmpty) + (if m == 0 then 0 else maxEmpty + 1) <= MaxReads(n + m, maxEmpty)
  {
    if m > 0 { MoreReads(n, m - 1, maxEmpty); }
  }

  lemma BytesBehind(s: seq<byte>, t: seq<byte>, off: nat, len: nat, m: nat)
    requires off <= len && len + m <= |s| == |t| && s[..len] == t[..len]
    ensures t[0..off] == s[0..off] && t[off..len + m] == s[off..len] + t[len..len + m]
  {
    assert t[..len][..off] == s[..len][..off];
    assert t[off..len] == t[..len][off..] == s[..len][off..] == s[off..len];
  }

  /** p leaves the contents for the bytes behind them. */
  predicate Taken(behind: seq<byte>, contents: seq<byte>, p: seq<byte>, behind1: seq<byte>, contents1: seq<byte>) {
    && |p| <= |contents| && p == contents[..|p|]
    && behind1 == behind + p && contents1 == contents[|p|..]
  }

  lemma Parts(s: seq<byte>, off: nat, n: nat, len: nat)
    requires off + n <= len <= |s|
    ensures Taken(s[0..off], s[off..len], s[off..off + n], s[0..off + n], s[off + n..len])
  {
  }

  lemma Unreads(s: seq<byte>, off: nat, k: nat, len: nat)
    requires k <= off <= len <= |s|
    ensures s[0..off][..off - k] == s[0..off - k]
    ensures s[0..off][off - k..] + s[off..len] == s[off - k..len]
  {
  }

  /** copy(d[m:], p) */
  method CopyTo(d: array<byte>, m: nat, p: seq<byte>)
    requires m + |p| <= d.Length
    modifies d
    ensures d[..m] == old(d[..m]) && d[m..m + |p|] == p
  {
    forall k | 0 <= k < |p| { d[m + k] := p[k]; }
  }

  /** The calls from start to calls brought n bytes; if more follow, count the idle ones still possible. */
  predicate InBudget(start: nat, calls: nat, n: nat, maxEmpty: nat, idle: nat, goesOn: bool) {
    && 0 <= calls - start <= MaxReads(n, maxEmpty)
    && (goesOn ==> calls - start + maxEmpty - idle < MaxReads(n, maxEmpty))
  }

  lemma StaysInBudget(start: nat, calls: nat, n: nat, maxEmpty: nat, idle: nat,
                      calls1: nat, m: nat, idle1: nat, goesOn: bool)
    requires InBudget(start, calls, n, maxEmpty, idle, true) && idle <= maxEmpty && calls <= calls1 <= calls + 1
    requires goesOn && m == 0 ==> idle1 == idle + 1
    ensures InBudget(start, calls1, n + m, maxEmpty, idle1, goesOn)
  {
    MoreReads(n, m, maxEmpty);
    hide MaxReads;
  }

  /** The first m bytes of stream leave it for the end of the contents. */
  predicate Moves(contents: seq<byte>, stream: seq<byte>, m: nat, contents1: seq<byte>, stream1: seq<byte>) {
    m <= |stream| && contents1 == contents + stream[..m] && stream1 == stream[m..]
  }

  lemma MovesMeans(contents: seq<byte>, stream: seq<byte>, m: nat, contents1: seq<byte>, stream1: seq<byte>)
    requires Moves(contents, stream, m, contents1, stream1)
    ensures m <= |stream| && contents1 == contents + stream[..m] && stream1 == stream[m..]
  {
  }

  lemma MovesNothing(contents: seq<byte>, stream: seq<byte>)
    ensures Moves(contents, stream, 0, contents, stream)
  {
  }

  lemma MovesMore(c: seq<byte>, s: seq<byte>, n: nat, c1: seq<byte>, s1: seq<byte>, m: nat,
                  c2: seq<byte>, s2: seq<byte>)
    requires Moves(c, s, n, c1, s1) && Moves(c1, s1, m, c2, s2)
    ensures Moves(c, s, n + m, c2, s2) && |s2| == |s1| - m
  {
    assert c + s[..n] + s[n..][..m] == c + s[..n + m];
    assert s[n..][m..] == s[n + m..];
  }

  /** Bytes that fill room already there cost no more than they bring. */
  lemma MoreCost(c: int, l: int, m: int)
    requires 0 <= l && 0 <= m && l + m <= c
    ensures Max(0, 2 * (l + m) - c) <= Max(0, 2 * l - c) + 3 * m
  {
  }

  lemma EncodeAtMostFour(r: rune)
    ensures |Encode(r)| <= UTF_MAX
  {
  }

  lemma AsciiFirst(p: seq<byte>)
    ensures p != [] && p[0] < RUNE_SELF ==> DecodeRune(p) == Decoded(p[0], 1)
  {
  }

  lemma ResliceCost(c: int, l: int, n: int)
    requires 0 <= l <= c && 0 <= n
    ensures Max(0, 2 * (l + n) - c) <= Max(0, 2 * l - c) + 3 * n
  {
  }

  /** Sliding m bytes down is paid for by the room that had been used up. */
  lemma SlideCost(c: int, l: int, m: int, n: int)
    requires 0 <= m <= l <= c && 0 <= n && c - l < n && n <= c / 2 - m
    ensures m + Max(0, 2 * (m + n) - c) <= Max(0, 2 * l - c) + 3 * n
  {
  }

  /** So is moving them to an array of 2c + n bytes. */
  lemma ReallocCost(c: int, l: int, m: int, n: int)
    requires 0 <= m <= l <= c && 0 <= n && c - l < n
    ensures m + Max(0, 2 * (m + n) - (2 * c + n)) <= Max(0, 2 * l - c) + 3 * n
  {
  }

  // ---- Runs ----

  method DoWrite(b: Buffer, p: seq<byte>) returns (reply: Reply)
    requires b.Valid()
    modifies b.Repr
    ensures b.Valid() && fresh(b.Repr - old(b.Repr))
    ensures Step(old(b.Abstract()), WriteOp(p), reply, b.Abstract())
    ensures b.asked == old(b.asked) + RoomOf(WriteOp(p), reply)
    ensures reply.panicked ==> MayPanic(WriteOp(p), b.asked)
  {
    var n, panicked := b.Write(p);
    if panicked { b.TooMuchAsked(|p|); }
    return Reply([], if panicked then 0 else n, 0, panicked);
  }

  method DoWriteByte(b: Buffer, c: byte) returns (reply: Reply)
    requires b.Valid()
    modifies b.Repr
    ensures b.Valid() && fresh(b.Repr - old(b.Repr))
    ensures Step(old(b.Abstract()), WriteByteOp(c), reply, b.Abstract())
    ensures b.asked == old(b.asked) + RoomOf(WriteByteOp(c), reply)
    ensures reply.panicked ==> MayPanic(WriteByteOp(c), b.asked)
  {
    var panicked := b.WriteByte(c);
    if panicked { b.TooMuchAsked(1); }
    return Reply([], if panicked then 0 else 1, 0, panicked);
  }

  method DoWriteRune(b: Buffer, r: rune) returns (reply: Reply)
    requires b.Valid()
    modifies b.Repr
    ensures b.Valid() && fresh(b.Repr - old(b.Repr))
    ensures Step(old(b.Abstract()), WriteRuneOp(r), reply, b.Abstract())
    ensures b.asked == old(b.asked) + RoomOf(WriteRuneOp(r), reply)
    ensures reply.panicked ==> MayPanic(WriteRuneOp(r), b.asked)
  {
    hide Encode;
    var n, panicked := b.WriteRune(r);
    if panicked { b.TooMuchAsked(UTF_MAX); }
    return Reply([], if panicked then 0 else n, 0, panicked);
  }

  method DoCut(b: Buffer, op: Op) returns (reply: Reply)
    requires b.Valid() && (op.TruncateOp? || op.ResetOp?)
    modifies b
    ensures b.Valid() && b.Repr == old(b.Repr)
    ensures Step(old(b.Abstract()), op, reply, b.Abstract())
    ensures b.asked == old(b.asked)
    ensures reply.panicked ==> op.TruncateOp?
  {
    var panicked := false;
    if op.TruncateOp? { panicked := b.Truncate(op.n); } else { b.Reset(); }
    return Reply([], 0, 0, panicked);
  }

  method DoReadFrom(b: Buffer, op: Op) returns (reply: Reply)
    requires b.Valid() && op.ReadFromOp?
    modifies b.Repr
    ensures b.Valid() && fresh(b.Repr - old(b.Repr))
    ensures Step(old(b.Abstract()), op, reply, b.Abstract())
    ensures b.asked == old(b.asked) + RoomOf(op, reply)
    ensures reply.panicked ==> MayPanic(op, b.asked)
  {
    var r := new Reader(op.stream, op.last, op.maxEmpty, op.honest);
    var n, e, panicked := b.ReadFrom(r);
    if panicked && op.honest { b.TooMuchAsked(MIN_READ); }
    return Reply([], n, r.calls, panicked);
  }

  method DoRead(b: Buffer, k: nat) returns (reply: Reply)
    requires b.Valid()
    modifies b
    ensures b.Valid() && b.Repr == old(b.Repr)
    ensures Step(old(b.Abstract()), ReadOp(k), reply, b.Abstract())
    ensures b.asked == old(b.asked)
    ensures !reply.panicked
  {
    var p, e := b.Read(k);
    return Reply(p, 0, 0, false);
  }

  method DoNext(b: Buffer, k: int) returns (reply: Reply)
    requires b.Valid()
    modifies b
    ensures b.Valid() && b.Repr == old(b.Repr)
    ensures Step(old(b.Abstract()), NextOp(k), reply, b.Abstract())
    ensures b.asked == old(b.asked)
    ensures reply.panicked ==> k < 0
  {
    var p, panicked := b.Next(k);
    return Reply(p, 0, 0, panicked);
  }

  method DoReadByte(b: Buffer) returns (reply: Reply)
    requires b.Valid()
    modifies b
    ensures b.Valid() && b.Repr == old(b.Repr)
    ensures Step(old(b.Abstract()), ReadByteOp, reply, b.Abstract())
    ensures b.asked == old(b.asked)
    ensures !reply.panicked
  {
    var c, e := b.ReadByte();
    return Reply(if e == None then [c] else [], 0, 0, false);
  }

  method DoReadBytes(b: Buffer, delim: byte) returns (reply: Reply)
    requires b.Valid()
    modifies b
    ensures b.Valid() && b.Repr == old(b.Repr)
    ensures Step(old(b.Abstract()), ReadBytesOp(delim), reply, b.Abstract())
    ensures b.asked == old(b.asked)
    ensures !reply.panicked
  {
    hide IndexByte;
    var line, e := b.ReadBytes(delim);
    return Reply(line, 0, 0, false);
  }

  method DoUnread(b: Buffer, op: Op) returns (reply: Reply)
    requires b.Valid() && (op.UnreadByteOp? || op.UnreadRuneOp?)
    modifies b
    ensures b.Valid() && b.Repr == old(b.Repr)
    ensures Step(old(b.Abstract()), op, reply, b.Abstract())
    ensures b.asked == old(b.asked)
    ensures !reply.panicked
  {
    var ok;
    if op.UnreadByteOp? { ok := b.UnreadByte(); } else { ok := b.UnreadRune(); }
    return QUIET;
  }

  lemma DecodeNothing()
    ensures DecodeRune([]).size == 0
  {
  }

  method DoReadRune(b: Buffer) returns (reply: Reply)
    requires b.Valid()
    modifies b
    ensures b.Valid() && b.Repr == old(b.Repr)
    ensures Step(old(b.Abstract()), ReadRuneOp, reply, b.Abstract())
    ensures b.asked == old(b.asked)
    ensures !reply.panicked
  {
    hide DecodeRune;
    var bytes := b.Bytes();
    DecodeNothing();
    var r, size, e := b.ReadRune();
    return Reply(if e == None then bytes[..size] else [], 0, 0, false);
  }

  method DoGrow(b: Buffer, n: int) returns (reply: Reply)
    requires b.Valid()
    modifies b.Repr
    ensures b.Valid() && fresh(b.Repr - old(b.Repr))
    ensures Step(old(b.Abstract()), GrowOp(n), reply, b.Abstract())
    ensures b.asked == old(b.asked) + RoomOf(GrowOp(n), reply)
    ensures reply.panicked ==> MayPanic(GrowOp(n), b.asked)
  {
    var panicked := b.Grow(n);
    if panicked && n >= 0 { b.TooMuchAsked(n); }
    return Reply([], 0, 0, panicked);
  }

  /** A call can panic for an argument out of range, for a reader with an impossible count,
      or for want of room when `asked` bytes of it have been asked for. */
  predicate MayPanic(op: Op, asked: nat) {
    match op
    case TruncateOp(_) => true
    case NextOp(n) => n < 0
    case GrowOp(n) => n < 0 || 6 * asked + n + 128 > 9223372036854775807
    case ReadFromOp(_, _, _, honest) => !honest || 6 * asked + 512 + 128 > 9223372036854775807
    case WriteOp(p) => 6 * asked + |p| + 128 > 9223372036854775807
    case WriteByteOp(_) => 6 * asked + 1 + 128 > 9223372036854775807
    case WriteRuneOp(_) => 6 * asked + 4 + 128 > 9223372036854775807
    case _ => false
  }

  /** Any call does to the queue what Step says, and asks for the room RoomOf says. */
  method Do(b: Buffer, op: Op) returns (reply: Reply)
    requires b.Valid()
    modifies b.Repr
    ensures b.Valid() && fresh(b.Repr - old(b.Repr))
    ensures Step(old(b.Abstract()), op, reply, b.Abstract())
    ensures b.asked == old(b.asked) + RoomOf(op, reply)
    ensures reply.panicked ==> MayPanic(op, b.asked)
  {
    hide Step;
    match op
    case ReadOp(k) => reply := DoRead(b, k);
    case NextOp(k) => reply := DoNext(b, k);
    case ReadByteOp => reply := DoReadByte(b);
    case ReadBytesOp(delim) => reply := DoReadBytes(b, delim);
    case ReadRuneOp => reply := DoReadRune(b);
    case GrowOp(n) => reply := DoGrow(b, n);
    case UnreadByteOp => reply := DoUnread(b, op);
    case UnreadRuneOp => reply := DoUnread(b, op);
    case ReadFromOp(_, _, _, _) => reply := DoReadFrom(b, op);
    case TruncateOp(_) => reply := DoCut(b, op);
    case ResetOp => reply := DoCut(b, op);
    case WriteOp(p) => reply := DoWrite(b, p);
    case WriteByteOp(c) => reply := DoWriteByte(b, c);
    case WriteRuneOp(r) => reply := DoWriteRune(b, r);
  }

  /** Any run on a zero buffer is a run of the queue. All the sliding and reallocating on
      the way copies at most three bytes for each byte of room asked for, which is to
      say, for each byte written, where nothing but Write and WriteByte asks for room. No
      call panics for want of room before about 10^18 bytes have been asked for. */
  method Run(ops: seq<Op>) returns (b: Buffer, replies: seq<Reply>, ghost trace: seq<Queue>)
    ensures b.Valid() && IsRun(ops, replies, trace) && trace[|ops|] == b.Abstract()
    ensures b.asked == Room(ops, replies) && b.moved <= 3 * Room(ops, replies)
    ensures forall k | 0 <= k < |ops| && replies[k].panicked :: MayPanic(ops[k], Room(ops, replies))
    ensures (forall op | op in ops :: FillsItsRoom(op)) ==> b.moved <= 3 * |Inputs(ops, replies)|
  {
    hide Step, Room, RoomOf, Inputs, MayPanic;
    b := new Buffer();
    replies, trace := [], [EMPTY];
    RoomOfNone();
    assert ops[..0] == [];
    for k := 0 to |ops|
      invariant b.Valid() && fresh(b.Repr)
      invariant |replies| == k && |trace| == k + 1 && trace[0] == EMPTY && trace[k] == b.Abstract()
      invariant b.asked == Room(ops[..k], replies)
      invariant forall j | 0 <= j < k :: Step(trace[j], ops[j], replies[j], trace[j + 1])
      invariant forall j | 0 <= j < k && replies[j].panicked :: MayPanic(ops[j], b.asked)
    {
      ghost var asked := b.asked;
      assert ops[..k + 1] == ops[..k] + [ops[k]];
      var reply := Do(b, ops[k]);
      RoomSnoc(ops[..k], replies, ops[k], reply);
      forall j | 0 <= j < k && replies[j].panicked ensures MayPanic(ops[j], b.asked) {
        PanicsLater(ops[j], asked, b.asked);
      }
      replies, trace := replies + [reply], trace + [b.Abstract()];
    }
    assert ops[..|ops|] == ops;
    if forall op | op in ops :: FillsItsRoom(op) { RoomIsInput(ops, replies, trace); }
  }

  lemma PanicsLater(op: Op, asked: nat, more: nat)
    requires MayPanic(op, asked) && asked <= more
    ensures MayPanic(op, more)
  {
  }

  lemma RoomOfNone()
    ensures Room([], []) == 0
  {
  }

  /** What comes out of a buffer that is only written to and read from, and what is
      left in it, is what went in. */
  method RunOneWay(ops: seq<Op>) returns (b: Buffer, replies: seq<Reply>)
    requires forall op | op in ops :: OneWay(op)
    ensures b.Valid() && |replies| == |ops|
    ensures Outputs(replies) + b.Contents() == Inputs(ops, replies)
  {
    ghost var trace;
    b, replies, trace := Run(ops);
    FirstInFirstOut(ops, replies, trace);
  }

  /** Any read that returned something, then an unread, on any buffer: UnreadByte puts
      exactly the last byte back, and UnreadRune the rune that was read. */
  method ReadThenUnread(b: Buffer, read: Op, undo: Op) returns (out: seq<byte>)
    requires b.Valid()
    requires read.ReadOp? || read.NextOp? || read.ReadByteOp? || read.ReadBytesOp? || read.ReadRuneOp?
    requires undo.UnreadByteOp? || undo.UnreadRuneOp?
    modifies b.Repr
    ensures b.Valid() && out <= old(b.Contents())
    ensures out != [] ==>
              b.Contents() ==
              if undo.UnreadByteOp? then old(b.Contents())[|out| - 1..]
              else if read.ReadRuneOp? then old(b.Contents())
              else old(b.Contents())[|out|..]
    ensures out == [] ==> old(b.Contents()) == [] || read == ReadOp(0) || (read.NextOp? && read.n <= 0)
  {
    hide Step;
    ghost var q := b.Abstract();
    var reply := Do(b, read);
    ghost var mid := b.Abstract();
    var undone := Do(b, undo);
    out := reply.out;
    SomethingTaken(q, read, reply, mid);
    if out != [] {
      TakenLeaves(q, read, reply, mid);
      TakenBack(q, read, reply, mid, undo, undone, b.Abstract());
    }
  }

  /** What Grow does to a read rune that may be taken back, as a whole or by its last byte.
      If the rune was all there was, Grow starts the buffer afresh and the unread reports
      an error. Otherwise the unread reports success, and the bytes are back if and only
      if the array already had the room; if the contents moved, they are gone. */
  method GrowThenUnread(b: Buffer, n: int, whole: bool) returns (ok: bool, panicked: bool)
    requires b.Valid() && b.Contents() != []
    modifies b.Repr
    ensures b.Valid() && (panicked ==> b.data == old(b.data) && (n < 0 || b.TooLarge(n)))
    ensures !panicked ==>
              var c, k := old(b.Contents()), DecodeRune(old(b.Contents())).size;
              var back := if whole then k else 1;
              var unmoved := k < |c| && n <= old(b.Cap() - b.len);
              && 1 <= back <= k <= |c|
              && ok == (k < |c|)
              && b.Contents() == c[if unmoved then k - back else k..]
  {
    hide DecodeRune, Restored;
    ghost var q := b.Abstract();
    var r, size, err := b.ReadRune();
    ghost var unmoved := size < |q.contents| && n <= b.Cap() - b.len;
    panicked := b.Grow(n);
    if panicked { return false, true; }
    assert b.lastRead == if size == |q.contents| then OP_INVALID else size;
    Rewound(q, size, if whole then size else 1, b.Abstract(), unmoved);
    if whole { ok := b.UnreadRune(); } else { ok := b.UnreadByte(); }
  }

  /** What is put back after the first k bytes were taken, if they are still there. */
  lemma Rewound(q: Queue, k: nat, back: nat, mid: Queue, unmoved: bool)
    requires 1 <= back <= k <= |q.contents| && mid.contents == q.contents[k..]
    requires mid.behind == if unmoved then q.behind + q.contents[..k] else []
    ensures Restored(mid, back).contents == q.contents[if unmoved then k - back else k..]
  {
    Rejoin(q.behind, q.contents, k, back);
  }

  /** A run that loses a rune: a zero buffer, Write("ab"), ReadRune, Grow(100), and an
      UnreadRune that reports success and leaves "b". */
  method LostRune() returns (b: Buffer, ok: bool)
    ensures b.Valid() && ok && b.Contents() == [98]
  {
    b := new Buffer();
    var n, panicked := b.Write([97, 98]);
    assert b.Contents() == [97, 98] && [97, 98][1..] == [98];
    AsciiFirst([97, 98]);
    ok, panicked := GrowThenUnread(b, 100, true);
  }
}
