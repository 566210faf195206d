/** The outside world of the buffered streams: what io.Reader and io.Writer
    promise, with every choice they leave open left open here too. */
module Io {
  import opened Utf8

  datatype Option<+T> = None | Some(value: T)

  /** Every error value the modelled packages return or pass on. */
  datatype Error =
    | EOF | NoProgress | ShortWrite
    | TooLong | NegativeAdvance | AdvanceTooFar | BadReadCount | FinalToken
    | BufferFull | NegativeCount | InvalidUnreadByte | InvalidUnreadRune
    | Failure(code: int)

  /** The largest value of Go's 64-bit int. */
  const MAX_INT := 0x7FFF_FFFF_FFFF_FFFF

  const MAX_EMPTY_READS := 100

  function Min(a: int, b: int): int {
    if a <= b then a else b
  }

  function Max(a: int, b: int): int {
    if a <= b then b else a
  }

  /** The index of the first c in s, or -1. */
  function IndexByte(s: seq<byte>, c: byte): (i: int)
    ensures -1 <= i < |s|
    ensures i >= 0 ==> s[i] == c
    ensures forall k | 0 <= k < if i < 0 then |s| else i :: s[k] != c
  {
    if s == [] then -1
    else if s[0] == c then 0
    else
      var j := IndexByte(s[1..], c);
      if j < 0 then -1 else j + 1
  }

  /** An io.Reader: a finite stream `data` and the error `last` reported once the
      stream is used up. Each Read hands over any number of bytes that fits; it may
      hand over none, but at most `maxEmpty` times in a row. A reader that is not
      `honest` may also report an impossible count. */
  class Reader {
    var data: seq<byte>
    var idle: nat
    var calls: nat   // of Read
    const last: Error
    const maxEmpty: nat
    const honest: bool

    ghost predicate Valid()
      reads this
    {
      idle <= maxEmpty
    }

    constructor (data: seq<byte>, last: Error, maxEmpty: nat, honest: bool)
      ensures Valid() && this.data == data && idle == calls == 0
      ensures this.last == last && this.maxEmpty == maxEmpty && this.honest == honest
    {
      this.data, this.idle, this.calls := data, 0, 0;
      this.last, this.maxEmpty, this.honest := last, maxEmpty, honest;
    }

    /** Reads into p[lo..hi], which the reader may also use as scratch space. */
    method Read(p: array<byte>, lo: nat, hi: nat) returns (n: int, err: Option<Error>)
      requires Valid() && lo <= hi <= p.Length
      modifies this, p
      ensures Valid() && calls == old(calls) + 1
      ensures honest ==> 0 <= n <= hi - lo
      ensures p[..lo] == old(p[..lo]) && p[hi..] == old(p[hi..])
      ensures 0 <= n <= hi - lo ==>
                && n <= |old(data)|
                && p[lo..lo + n] == old(data)[..n]
                && data == old(data)[n..]
                && (err.Some? ==> data == [] && err.value == last)
                && (n == 0 && err == None && lo < hi ==> idle == old(idle) + 1)
                && (n > 0 ==> idle == 0)
      ensures !(0 <= n <= hi - lo) ==> data == old(data)
    {
      calls := calls + 1;
      err := None;
      var choice: nat :| true;
      if !honest && choice == 0 {
        var count: int :| true;
        n := if 0 <= count <= hi - lo then hi - lo + 1 else count;
        if * { err := Some(Failure(0)); }
        return;
      }
      var room := Min(hi - lo, |data|);
      n :| 0 <= n <= room;
      if n == 0 && lo < hi && idle == maxEmpty {
        // One more empty read is not allowed: deliver something.
        if data == [] { err := Some(last); } else { n := 1; }
      } else if n == |data| && choice == 1 {
        err := Some(last);
      }
      forall k | 0 <= k < n { p[lo + k] := data[k]; }
      data := data[n..];
      if n > 0 { idle := 0; } else if err == None && lo < hi { idle := idle + 1; }
    }
  }

  /** An io.Writer: everything written so far. A Write may take only part of the
      bytes it is offered, and then reports an error; a writer that is not `honest`
      may leave that error out, as long as it took something. A `reliable` one takes
      everything and reports no error. */
  class Writer {
    var data: seq<byte>
    var calls: nat                // of Write
    var reported: Option<Error>   // by the last of them
    var short: bool               // whether it took less than it was offered
    const honest: bool
    const reliable: bool

    constructor (honest: bool, reliable: bool)
      ensures data == [] && calls == 0 && this.honest == honest && this.reliable == reliable
    {
      data, calls, reported, short := [], 0, None, false;
      this.honest, this.reliable := honest, reliable;
    }

    method Write(p: seq<byte>) returns (n: nat, err: Option<Error>)
      modifies this
      ensures n <= |p| && data == old(data) + p[..n]
      ensures n < |p| && err == None ==> !honest && 0 < n
      ensures reliable ==> n == |p| && err == None
      ensures calls == old(calls) + 1 && reported == err && short == (n < |p|)
    {
      n :| 0 <= n <= |p| && (reliable ==> n == |p|);
      err := None;
      var fails: bool :| (n < |p| && (honest || n == 0) ==> fails) && (reliable ==> !fails);
      if fails { err := Some(Failure(1)); }
      data := data + p[..n];
      calls, reported, short := calls + 1, err, n < |p|;
    }
  }
}
