/** bufio.Scanner: a sliding buffer between a reader that cuts its data as it
    likes and a split function that wants to see whole tokens. */
module Scanning {
  import opened Utf8
  import opened Io
  import opened SplitFunc

  const START_BUF_SIZE := 4096
  const MAX_SCAN_TOKEN_SIZE := 64 * 1024

  datatype Outcome =
    | Token      // Scan returned true
    | Stopped    // Scan returned false
    | Panicked   // too many empty tokens without progress

  /** The first error stays, except that EOF gives way to a later one. */
  function Kept(err: Option<Error>, e: Error): Option<Error> {
    if err == None || err == Some(EOF) then Some(e) else err
  }

  /** The first n bytes of data move behind what is kept from start on. */
  lemma Delivered(kept: seq<byte>, start: nat, data: seq<byte>, n: nat)
    requires start <= |kept| && n <= |data|
    ensures (kept + data[..n])[start..] + data[n..] == kept[start..] + data
  {
  }

  lemma SliceOfSuffix(p: seq<byte>, q: seq<byte>, k: nat, lo: nat, hi: nat)
    requires k <= |p| && q == p[k..] && lo <= hi <= |q|
    ensures q[lo..hi] == p[k + lo..k + hi] && q[lo..] == p[k + lo..]
  {
  }

  predicate SuffixOf(a: seq<byte>, b: seq<byte>) {
    |a| <= |b| && a == b[|b| - |a|..]
  }

  class Scanner {
    const r: Reader
    const split: SplitFunc
    var maxTokenSize: int
    var token: Option<seq<byte>>
    var buf: array<byte>
    var start: nat
    var end: nat
    var err: Option<Error>
    var empties: nat
    var scanCalled: bool
    var done: bool
    ghost var Repr: set<object>

    ghost predicate Valid()
      reads this, Repr
      ensures Valid() ==> this in Repr
    {
      && Repr == {this, r, buf}
      && start <= end <= buf.Length
      && r.Valid()
    }

    /** What is still to be split: the unread part of the buffer and everything
        the reader has not delivered. */
    ghost function Pending(): seq<byte>
      requires Valid()
      reads this, Repr
    {
      buf[start..end] + r.data
    }

    /** Scanning has not failed: an error, if any, is the reader's own, reported
        once there was nothing left to read. */
    ghost predicate Live()
      requires Valid()
      reads this, Repr
    {
      !done && (err.Some? ==> r.data == [] && err.value == r.last)
    }

    /** The reader keeps the io.Reader contract and is not too idle. */
    ghost predicate WellBehaved()
    {
      r.honest && r.maxEmpty <= 100
    }

    /** The buffer is full and may not grow. */
    predicate AtLimit()
      reads this
    {
      buf.Length >= maxTokenSize || buf.Length > MAX_INT / 2
    }

    constructor (r: Reader, split: SplitFunc)
      requires r.Valid()
      ensures Valid() && Live() && fresh(Repr - {r})
      ensures this.r == r && this.split == split && r.data == old(r.data)
      ensures Pending() == r.data && maxTokenSize == 65536 && buf.Length == 0
      ensures !scanCalled && start == end == empties == 0
    {
      this.r, this.split := r, split;
      maxTokenSize := MAX_SCAN_TOKEN_SIZE;
      token, err, empties := None, None, 0;
      start, end := 0, 0;
      scanCalled, done := false, false;
      var none := new byte[0];
      buf := none;
      Repr := {this, r, none};
    }

    /** Buffer installs the caller's array and token limit; it panics, changing
        nothing, once scanning has started. */
    method Buffer(newBuf: array<byte>, max: int) returns (panicked: bool)
      requires Valid() && (scanCalled || start == end == 0)
      modifies this
      ensures panicked == old(scanCalled)
      ensures !panicked ==> Valid() && buf == newBuf && maxTokenSize == max && Pending() == old(Pending())
      ensures !panicked ==> Live() == old(Live())
      ensures panicked ==> buf == old(buf) && maxTokenSize == old(maxTokenSize) && Valid()
    {
      if scanCalled { return true; }
      buf, maxTokenSize := newBuf, max;
      Repr := {this, r, newBuf};
      return false;
    }

    /** Err hides the end of the input. */
    function Err(): Option<Error>
      reads this
    {
      if err == Some(EOF) then None else err
    }

    method SetErr(e: Error)
      modifies this`err
      ensures err == Kept(old(err), e)
    {
      if err == None || err == Some(EOF) { err := Some(e); }
    }

    method Advance(n: int) returns (ok: bool)
      requires Valid()
      modifies this`start, this`err
      ensures Valid() && ok == (0 <= n <= old(end - start))
      ensures ok ==> start == old(start) + n && err == old(err)
      ensures !ok ==> start == old(start) && err == Kept(old(err), if n < 0 then NegativeAdvance else AdvanceTooFar)
    {
      if n < 0 { SetErr(NegativeAdvance); return false; }
      if n > end - start { SetErr(AdvanceTooFar); return false; }
      start := start + n;
      return true;
    }

    /** Slides the unread bytes to the front of the buffer, or moves them to a bigger
        one, so that there is room to read into; fails when the buffer may not grow. */
    method MakeRoom() returns (ok: bool)
      requires Valid() && err.None?
      modifies this, buf
      ensures Valid() && fresh(Repr - old(Repr)) && Pending() == old(Pending())
      ensures r.data == old(r.data) && maxTokenSize == old(maxTokenSize)
      ensures done == old(done) && scanCalled == old(scanCalled) && empties == old(empties)
      ensures end - start == old(end - start)
      ensures ok ==> end < buf.Length && err.None?
      ensures !ok ==> err == Some(TooLong) && start == 0 && end == buf.Length && AtLimit()
      ensures !ok ==> buf == old(buf) && start == old(start) && buf[..] == old(buf[..])
      ensures old(buf.Length) <= buf.Length <= Max(old(buf.Length), maxTokenSize)
      ensures buf.Length == old(buf.Length)
           || buf.Length == Min(maxTokenSize, if old(buf.Length) == 0 then 4096 else 2 * old(buf.Length))
      ensures buf.Length == old(buf.Length) || buf.Length <= 9223372036854775807
    {
      if start > 0 && (end == buf.Length || start > buf.Length / 2) { SlideDown(); }
      if end == buf.Length {
        if AtLimit() {
          SetErr(TooLong);
          return false;
        }
        var newSize := buf.Length * 2;
        if newSize == 0 { newSize := START_BUF_SIZE; }
        if newSize > maxTokenSize { newSize := maxTokenSize; }
        MoveTo(newSize);
      }
      return true;
    }

    method SlideDown()
      requires Valid()
      modifies this`start, this`end, buf
      ensures Valid() && start == 0 && end == old(end - start) && Pending() == old(Pending())
    {
      ghost var unread := buf[start..end];
      forall k | 0 <= k < end - start { buf[k] := buf[start + k]; }
      end := end - start;
      start := 0;
      assert buf[start..end] == unread;
    }

    method MoveTo(newSize: nat)
      requires Valid() && buf.Length < newSize
      modifies this`buf, this`start, this`end, this`Repr
      ensures Valid() && fresh(buf) && buf.Length == newSize && Repr == {this, r, buf}
      ensures start == 0 && end == old(end - start) && Pending() == old(Pending())
    {
      ghost var unread := buf[start..end];
      var newBuf := new byte[newSize];
      forall k | 0 <= k < end - start { newBuf[k] := buf[start + k]; }
      buf := newBuf;
      end := end - start;
      start := 0;
      Repr := {this, r, buf};
      assert buf[start..end] == unread;
    }

    /** What may go wrong with reading: the reader's own error at the end of its data, a
        reader that is idle too often, or one that reports an impossible count. */
    ghost predicate ReadFailure(e: Error)
      reads r
    {
      || (r.data == [] && e == r.last)
      || (e == NoProgress && 100 < r.idle)
      || (e == BadReadCount && !r.honest)
    }

    /** Reads until something arrives, the reader reports an error, or it has been
        idle too often. */
    method Fill()
      requires Valid() && err.None? && end < buf.Length
      modifies this`end, this`err, this`empties, buf, r
      ensures Valid() && Pending() == old(Pending())
      ensures err.Some? || |r.data| < old(|r.data|)
      ensures WellBehaved() && err.Some? ==> r.data == [] && err.value == r.last
      ensures err.Some? ==> ReadFailure(err.value)
      ensures r.calls <= old(r.calls) + 101
    {
      var loop := 0;
      while true
        invariant Valid() && err.None? && end == old(end) && r.data == old(r.data) && Pending() == old(Pending())
        invariant 0 <= loop <= MAX_EMPTY_READS
        invariant loop <= r.idle && r.calls == old(r.calls) + loop
        decreases MAX_EMPTY_READS - loop
      {
        var empty := ReadOnce();
        if !empty { return; }
        loop := loop + 1;
        if loop > MAX_EMPTY_READS {
          SetErr(NoProgress);
          return;
        }
      }
    }

    /** One Read behind the unread bytes. */
    method ReadOnce() returns (empty: bool)
      requires Valid() && err.None? && end < buf.Length
      modifies this`end, this`err, this`empties, buf, r
      ensures Valid() && Pending() == old(Pending()) && r.calls == old(r.calls) + 1
      ensures empty ==> err.None? && end == old(end) && r.data == old(r.data) && r.idle == old(r.idle) + 1
      ensures !empty ==> err.Some? || |r.data| < old(|r.data|)
      ensures err.None? ==> empties == if empty then old(empties) else 0
      ensures err.Some? ==> (r.data == [] && err.value == r.last) || (err.value == BadReadCount && !r.honest)
    {
      var n, e := Receive();
      if n < 0 {
        SetErr(BadReadCount);
        return false;
      }
      if e.Some? {
        SetErr(e.value);
        return false;
      }
      if n > 0 { empties := 0; }
      return n == 0;
    }

    /** Takes in what one Read delivers, or nothing, with n negative, if its count is
        impossible. */
    method Receive() returns (n: int, e: Option<Error>)
      requires Valid() && end < buf.Length
      modifies this`end, buf, r
      ensures Valid() && Pending() == old(Pending()) && r.calls == old(r.calls) + 1
      ensures n < 0 ==> !r.honest
      ensures n >= 0 ==>
                && end == old(end) + n && |r.data| == old(|r.data|) - n
                && (e.Some? ==> r.data == [] && e.value == r.last)
                && (n == 0 ==> r.data == old(r.data) && (e == None ==> r.idle == old(r.idle) + 1))
    {
      ghost var kept, data := buf[..end], r.data;
      assert buf[start..end] == buf[..end][start..];
      n, e := r.Read(buf, end, buf.Length);
      assert buf[start..end] == buf[..end][start..];
      if n < 0 || buf.Length - end < n { return -1, e; }
      assert buf[..end + n] == buf[..end] + buf[end..end + n];
      assert buf[start..end + n] == buf[..end + n][start..];
      Delivered(kept, start, data, n);
      end := end + n;
    }

    /** Offers the unread part of the buffer to the split function. The result is
        what Scan returns at once, or None when more data is needed. */
    method TrySplit() returns (outcome: Option<Outcome>)
      requires Valid() && !done && (end > start || err.Some?)
      modifies this`token, this`start, this`err, this`empties, this`done
      ensures Valid() && SuffixOf(Pending(), old(Pending()))
      ensures outcome == None ==> err == old(err) && !done && start >= old(start)
      ensures Obeyed(split(old(buf[start..end]), old(err).Some?), outcome, old(Pending()), old(end - start), old(err),
                     old(empties))
      ensures outcome == Some(Token) ==> Answered(old(Pending()))
      ensures Lawful(split) && old(Live()) ==>
                && Live()
                && (outcome.Some? ==>
                      && outcome.value == Token && token.Some?
                      && Tokens(split, old(Pending())) == [token.value] + Tokens(split, Pending()))
                && (outcome.None? ==>
                      if err.Some? then Tokens(split, old(Pending())) == []
                      else
                        && Tokens(split, Pending()) == Tokens(split, old(Pending()))
                        && (start == old(start) ==> Stuck(split, buf[start..end])))
    {
      hide Tokens;
      ghost var p, n, atEOF := Pending(), end - start, err.Some?;
      assert p[..n] == buf[start..end] == p[0..n];
      if Lawful(split) && Live() { SplitStep(split, p, n, atEOF); }
      var s := split(buf[start..end], err.Some?);
      outcome := Obey(s);
      if outcome == Some(Token) { assert AnsweredAt(p, 0, n, atEOF); }
    }

    /** What a split function's answer s does to the Scanner, law or no law: p was
        pending, n bytes of it were offered, err was the error so far, and so many
        tokens had come without an advance at the end of the input. */
    ghost predicate Obeyed(s: Split, outcome: Option<Outcome>, p: seq<byte>, n: nat, errBefore: Option<Error>,
                           emptiesBefore: nat)
      requires Valid()
      reads this, Repr
    {
      match s.err
      case Some(FinalToken) =>
        outcome == Some(Token) && token == s.token && done && Pending() == p && err == errBefore
      case Some(e) =>
        outcome == Some(Stopped) && !done && Pending() == p && err == Kept(errBefore, e)
      case None =>
        if !(0 <= s.advance <= n) then
          && outcome == Some(Stopped) && !done && Pending() == p
          && err == Kept(errBefore, if s.advance < 0 then NegativeAdvance else AdvanceTooFar)
        else
          && s.advance <= |p| && Pending() == p[s.advance..] && err == errBefore && !done && token == s.token
          && match s.token
             case None => outcome == None && empties == emptiesBefore
             case Some(_) =>
               && empties == (if err.None? || s.advance > 0 then 0 else emptiesBefore + 1)
               && outcome == Some(if empties > 100 then Panicked else Token)
    }

    method Obey(s: Split) returns (outcome: Option<Outcome>)
      requires Valid() && !done
      modifies this`token, this`start, this`err, this`empties, this`done
      ensures Valid() && Obeyed(s, outcome, old(Pending()), old(end - start), old(err), old(empties))
      ensures outcome == None ==> start == old(start) + s.advance
      ensures s.token.Some? && (old(err).None? || s.advance > 0) ==> outcome != Some(Panicked)
    {
      ghost var p := Pending();
      if s.err.Some? {
        if s.err.value == FinalToken {
          token := s.token;
          done := true;
          return Some(Token);
        }
        SetErr(s.err.value);
        return Some(Stopped);
      }
      var legal := Advance(s.advance);
      if !legal { return Some(Stopped); }
      assert Pending() == p[s.advance..];
      token := s.token;
      if s.token.None? { return None; }
      if err.None? || s.advance > 0 {
        empties := 0;
      } else {
        empties := empties + 1;
        if empties > MAX_EMPTY_READS { return Some(Panicked); }
      }
      return Some(Token);
    }

    /** The token is what the split function answered for p[lo..hi], and what it did not
        advance over is pending; or it is the final token. */
    ghost predicate AnsweredAt(p: seq<byte>, lo: nat, hi: nat, atEOF: bool)
      requires Valid()
      reads this, Repr
    {
      && lo <= hi <= |p|
      && var s := split(p[lo..hi], atEOF);
         && token == s.token
         && match s.err
            case None => token.Some? && 0 <= s.advance <= hi - lo && Pending() == p[lo + s.advance..] && !done
            case Some(e) => e == FinalToken && done && Pending() == p[lo..]
    }

    ghost predicate Answered(p: seq<byte>)
      requires Valid()
      reads this, Repr
    {
      exists lo: nat, hi: nat, atEOF: bool :: AnsweredAt(p, lo, hi, atEOF)
    }

    lemma AnsweredEarlier(p: seq<byte>, q: seq<byte>)
      requires Valid() && SuffixOf(q, p) && Answered(q)
      ensures Answered(p)
    {
      var lo: nat, hi: nat, atEOF: bool :| AnsweredAt(q, lo, hi, atEOF);
      var k := |p| - |q|;
      SliceOfSuffix(p, q, k, lo, hi);
      var s := split(q[lo..hi], atEOF);
      if s.err == None { SliceOfSuffix(p, q, k, lo + s.advance, hi); }
      assert AnsweredAt(p, k + lo, k + hi, atEOF);
    }

    /** Makes room and reads into it; fails when the buffer is full of unsplit bytes. */
    method Refill() returns (ok: bool)
      requires Valid() && err.None?
      modifies Repr
      ensures Valid() && fresh(Repr - old(Repr)) && Pending() == old(Pending())
      ensures maxTokenSize == old(maxTokenSize) && done == old(done) && scanCalled == old(scanCalled)
      ensures old(buf.Length) <= buf.Length <= Max(old(buf.Length), maxTokenSize)
      ensures ok ==> err.Some? || |r.data| < old(|r.data|)
      ensures ok && WellBehaved() && err.Some? ==> r.data == [] && err.value == r.last
      ensures !ok ==>
                && err == Some(TooLong) && start == 0 && end == buf.Length && AtLimit()
                && buf[..] == old(buf[start..end]) && start == old(start)
    {
      ok := MakeRoom();
      if ok { Fill(); } else { assert buf[..] == buf[start..end]; }
    }

    /** What Scan may conclude from the input p it started with. */
    ghost predicate Concluded(outcome: Outcome, p: seq<byte>)
      requires Valid() && Lawful(split)
      reads this, Repr
    {
      match outcome
      case Token =>
        Live() && token.Some? && Tokens(split, p) == [token.value] + Tokens(split, Pending())
      case Stopped =>
        || (err == Some(r.last) && Pending() == [] && Tokens(split, p) == [])
        || (&& err == Some(TooLong) && Tokens(split, p) == Tokens(split, Pending())
            && start == 0 && end == buf.Length && AtLimit() && (buf.Length == 0 || Stuck(split, buf[..])))
      case Panicked => false
    }

    /** One turn of Scan's loop: split, or else make room and read. */
    method Turn() returns (outcome: Option<Outcome>)
      requires Valid() && !done
      modifies Repr
      ensures Valid() && fresh(Repr - old(Repr)) && scanCalled == old(scanCalled)
      ensures SuffixOf(Pending(), old(Pending()))
      ensures maxTokenSize == old(maxTokenSize) && old(buf.Length) <= buf.Length <= Max(old(buf.Length), maxTokenSize)
      ensures outcome == Some(Token) ==> Answered(old(Pending()))
      ensures outcome == None ==>
                && !done && old(err).None?
                && (err.Some? || |r.data| < old(|r.data|))
      ensures Lawful(split) && old(Live()) && WellBehaved() ==>
                match outcome
                case Some(o) => Concluded(o, old(Pending()))
                case None => Live() && Tokens(split, Pending()) == Tokens(split, old(Pending()))
    {
      hide Tokens, Stuck, Lawful, AtLimit, Answered, Obeyed, Concluded;
      ghost var p, sound := Pending(), Lawful(split) && Live() && WellBehaved();
      if end > start || err.Some? {
        outcome := TrySplit();
        assert buf == old(buf);
        if outcome.Some? {
          if sound { TokenConcludes(p); }
          return;
        }
      }
      ghost var window, failed := buf[start..end], err.Some?;
      outcome := Continue();
      if sound && outcome.Some? {
        if failed { EndConcludes(p); } else { FullConcludes(p, window); }
      }
    }

    lemma TokenConcludes(p: seq<byte>)
      requires Valid() && Lawful(split) && Live() && token.Some?
      requires Tokens(split, p) == [token.value] + Tokens(split, Pending())
      ensures Concluded(Token, p)
    {
    }

    lemma EndConcludes(p: seq<byte>)
      requires Valid() && Lawful(split) && err == Some(r.last) && Pending() == [] && Tokens(split, p) == []
      ensures Concluded(Stopped, p)
    {
    }

    lemma FullConcludes(p: seq<byte>, window: seq<byte>)
      requires Valid() && Lawful(split) && err == Some(TooLong) && Tokens(split, p) == Tokens(split, Pending())
      requires start == 0 && end == buf.Length && AtLimit() && buf[..] == window
      requires window == [] || Stuck(split, window)
      ensures Concluded(Stopped, p)
    {
    }

    /** The other half of a turn: nothing can be split off, so give up or read. */
    method Continue() returns (outcome: Option<Outcome>)
      requires Valid() && !done
      modifies Repr
      ensures Valid() && fresh(Repr - old(Repr)) && scanCalled == old(scanCalled)
      ensures maxTokenSize == old(maxTokenSize) && old(buf.Length) <= buf.Length <= Max(old(buf.Length), maxTokenSize)
      ensures match outcome
              case None =>
                && !done && old(err).None? && Pending() == old(Pending()) && (err.Some? || |r.data| < old(|r.data|))
                && (WellBehaved() && err.Some? ==> r.data == [] && err.value == r.last)
              case Some(o) =>
                && o == Stopped
                && if old(err).Some? then
                     start == end == 0 && err == old(err) && r.data == old(r.data) && Pending() == r.data
                   else
                     && err == Some(TooLong) && start == 0 && end == buf.Length && AtLimit()
                     && buf[..] == old(buf[start..end]) && Pending() == old(Pending())
    {
      if err.Some? {
        start, end := 0, 0;
        assert buf[0..0] == [];
        return Some(Stopped);
      }
      var ok := Refill();
      if !ok { return Some(Stopped); }
      return None;
    }

    method Scan() returns (outcome: Outcome)
      requires Valid()
      modifies Repr
      ensures Valid() && fresh(Repr - old(Repr)) && (scanCalled || old(done))
      ensures old(done) ==> outcome == Stopped && Pending() == old(Pending()) && err == old(err)
      ensures SuffixOf(Pending(), old(Pending()))
      ensures maxTokenSize == old(maxTokenSize) && old(buf.Length) <= buf.Length <= Max(old(buf.Length), maxTokenSize)
      ensures outcome == Token ==> Answered(old(Pending()))
      ensures Lawful(split) && old(Live()) && WellBehaved() ==> Concluded(outcome, old(Pending()))
    {
      hide Answered;
      if done { return Stopped; }
      scanCalled := true;
      while true
        invariant Valid() && fresh(Repr - old(Repr)) && !done && scanCalled
        invariant SuffixOf(Pending(), old(Pending()))
        invariant maxTokenSize == old(maxTokenSize)
        invariant old(buf.Length) <= buf.Length <= Max(old(buf.Length), maxTokenSize)
        invariant Lawful(split) && old(Live()) && WellBehaved() ==>
                    Live() && Tokens(split, Pending()) == Tokens(split, old(Pending()))
        decreases if err.None? then 1 + |r.data| else 0
      {
        ghost var p := Pending();
        var result := Turn();
        if result.Some? {
          if result.value == Token { AnsweredEarlier(old(Pending()), p); }
          return result.value;
        }
      }
    }
  }

  /** The token size a Scanner is sure to be able to hold: the larger of its buffer
      and the limit it was given, unless doubling would overflow an int first. */
  function Limit(size: int, maxTokenSize: int): int {
    Max(size, Min(maxTokenSize, MAX_INT / 2 + 1))
  }

  /** Where a scan may end: at the end of the input, or in front of a rest that fills
      a buffer of the permitted size without showing a token. */
  ghost predicate Finished(sc: Scanner, limit: int)
    requires sc.Valid()
    reads sc, sc.Repr
  {
    || (sc.err == Some(sc.r.last) && sc.Pending() == [])
    || (sc.err == Some(TooLong) && Blocked(sc.split, sc.Pending(), limit))
  }

  lemma StoppedIsFinished(sc: Scanner, p: seq<byte>)
    requires sc.Valid() && Lawful(sc.split) && sc.Concluded(Stopped, p)
    requires 0 < Limit(sc.buf.Length, sc.maxTokenSize)
    ensures Finished(sc, Limit(sc.buf.Length, sc.maxTokenSize))
    ensures Tokens(sc.split, p) == Tokens(sc.split, sc.Pending())
  {
    var rest := sc.Pending();
    if sc.err == Some(sc.r.last) && rest == [] && Tokens(sc.split, p) == [] {
      assert LawfulAt(sc.split, [], 0);
    } else {
      assert rest[..sc.buf.Length] == sc.buf[..];
    }
  }

  lemma TokenShrinks(split: SplitFunc, p: seq<byte>, rest: seq<byte>, token: seq<byte>)
    requires Lawful(split) && SuffixOf(rest, p)
    requires Tokens(split, p) == [token] + Tokens(split, rest)
    ensures |rest| < |p|
  {
    assert rest == p[|p| - |rest|..] && p == p[0..];
  }

  /** Everything a scan in progress relies on. */
  ghost predicate InProgress(sc: Scanner, limit: int)
    reads sc, sc.Repr
  {
    && sc.Valid() && sc.Live() && sc.WellBehaved() && Lawful(sc.split)
    && 0 < limit <= Limit(sc.buf.Length, sc.maxTokenSize)
  }

  /** Tokens are being delivered in order: those seen so far, then those of the rest. */
  ghost predicate Delivers(sc: Scanner, input: seq<byte>, tokens: seq<seq<byte>>)
    requires sc.Valid() && Lawful(sc.split)
    reads sc, sc.Repr
  {
    SuffixOf(sc.Pending(), input) && Tokens(sc.split, input) == tokens + Tokens(sc.split, sc.Pending())
  }

  method ScanOne(sc: Scanner, ghost limit: int, ghost input: seq<byte>, ghost before: seq<seq<byte>>)
    returns (token: Option<seq<byte>>)
    requires InProgress(sc, limit) && Delivers(sc, input, before)
    modifies sc.Repr
    ensures sc.Valid() && fresh(sc.Repr - old(sc.Repr)) && Lawful(sc.split)
    ensures sc.buf.Length <= Max(old(sc.buf.Length), sc.maxTokenSize) && sc.maxTokenSize == old(sc.maxTokenSize)
    ensures token.Some? ==>
              && InProgress(sc, limit) && Delivers(sc, input, before + [token.value])
              && |sc.Pending()| < old(|sc.Pending()|)
    ensures token.None? ==> Finished(sc, limit) && Delivers(sc, input, before)
  {
    hide Tokens, Lawful, Stuck;
    ghost var p := sc.Pending();
    var outcome := sc.Scan();
    if outcome == Token {
      TokenShrinks(sc.split, p, sc.Pending(), sc.token.value);
      token := sc.token;
    } else {
      StoppedIsFinished(sc, p);
      token := None;
    }
  }

  /** A client that scans to the end. However the reader cuts up its data, the tokens
      are those of the whole input, and they are all of them unless some rest of the
      input blocks a buffer of the permitted size. */
  method ScanAll(sc: Scanner) returns (tokens: seq<seq<byte>>)
    requires sc.Valid() && sc.Live() && sc.WellBehaved() && Lawful(sc.split)
    requires 0 < Limit(sc.buf.Length, sc.maxTokenSize)
    modifies sc.Repr
    ensures sc.Valid() && Delivers(sc, old(sc.Pending()), tokens)
    ensures Finished(sc, old(Limit(sc.buf.Length, sc.maxTokenSize)))
    ensures sc.buf.Length <= old(Max(sc.buf.Length, sc.maxTokenSize))
  {
    hide Tokens;
    tokens := [];
    ghost var input, limit := sc.Pending(), Limit(sc.buf.Length, sc.maxTokenSize);
    var more := true;
    while more
      invariant sc.Valid() && fresh(sc.Repr - old(sc.Repr))
      invariant Max(sc.buf.Length, sc.maxTokenSize) <= old(Max(sc.buf.Length, sc.maxTokenSize))
      invariant Lawful(sc.split) && Delivers(sc, input, tokens)
      invariant if more then InProgress(sc, limit) else Finished(sc, limit)
      decreases more, |sc.Pending()|
    {
      var token := ScanOne(sc, limit, input, tokens);
      if token.None? { more := false; } else { tokens := tokens + [token.value]; }
    }
  }
}
