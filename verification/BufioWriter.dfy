/** bufio.Writer: no byte that was accepted is lost, repeated or reordered on its way
    to the sink, also when the sink takes only part of what it is given and fails. */
module BufferedWriting {
  import opened Utf8
  import opened Io
  import opened Basics

  datatype ReadOutcome =
    | More(m: nat)                // m bytes read, the stream goes on
    | Ended(m: nat, e: Error)     // m bytes read, with the reader's error
    | Failed(m: nat, e: Error)    // nothing could be done

  class Writer {
    var err: Option<Error>
    var buf: array<byte>
    var n: nat
    const wr: Io.Writer
    ghost var accepted: seq<byte>   // every byte reported as written
    ghost var Repr: set<object>

    ghost predicate Valid()
      reads this, Repr
      ensures Valid() ==> this in Repr
    {
      && Repr == {this, buf, wr}
      && 0 < buf.Length && n <= buf.Length
      && wr.data + buf[..n] == accepted
    }

    constructor (wr: Io.Writer, size: int)
      ensures Valid() && fresh(Repr - {wr}) && this.wr == wr
      ensures err == None && accepted == wr.data == old(wr.data)
      ensures buf.Length == if size <= 0 then 4096 else size
    {
      this.wr := wr;
      var data := new byte[if size <= 0 then 4096 else size];
      err, n, buf := None, 0, data;
      accepted := wr.data;
      Repr := {this, data, wr};
      new;
      assert buf[..0] == [];
    }

    function Available(): int
      reads this
    {
      buf.Length - n
    }

    /** What every operation keeps: bytes only ever join the end of what was accepted,
        and the first error stays. */
    twostate predicate Accepts(p: seq<byte>)
      requires Valid()
      reads this, Repr
    {
      && Repr == old(Repr) && buf == old(buf)
      && accepted == old(accepted) + p
      && (old(err).Some? ==> err == old(err) && p == [] && n == old(n) && wr.data == old(wr.data))
      && HasCause()
    }

    /** An error has its cause in the sink: it is what the last Write to the sink reported,
        and that was in this call; or that Write took less than it was offered without an
        error, and then it is ShortWrite. An error of the sink is not passed over. */
    twostate predicate HasCause()
      reads this, wr
    {
      && old(wr.calls) <= wr.calls
      && (wr.calls == old(wr.calls) ==> err == old(err) && wr.reported == old(wr.reported))
      && (old(err).Some? ==> wr.calls == old(wr.calls))
      && (wr.calls > old(wr.calls) ==>
            || err == wr.reported
            || (wr.reported == None && wr.short && err == Some(ShortWrite)))
      && (wr.reliable ==> err == old(err))
    }

    method Flush() returns (e: Option<Error>)
      requires Valid()
      modifies Repr
      ensures Valid() && Accepts([]) && e == err
      ensures e == None ==> n == 0 && wr.data == accepted
      ensures wr.calls == old(wr.calls) + if old(err) == None && old(n) > 0 then 1 else 0
    {
      if err.Some? { return err; }
      if n == 0 {
        assert wr.data + buf[..0] == wr.data;
        return None;
      }
      ghost var pending, sink := buf[..n], wr.data;
      var k, e1 := wr.Write(buf[..n]);
      e := e1;
      if k < n && e == None { e := Some(ShortWrite); }
      Divided(sink, pending, k);
      if e.Some? {
        if 0 < k < n {
          forall j | 0 <= j < n - k { buf[j] := buf[k + j]; }
        }
        n := n - k;
        err := e;
        assert buf[..n] == pending[k..];
        return;
      }
      n := 0;
      assert buf[..0] == [];
      return None;
    }

    /** copy(b.buf[b.n:], p): as much of p as there is room for. */
    method Fill(p: seq<byte>) returns (k: nat)
      requires Valid() && err == None
      modifies this`n, this`accepted, buf
      ensures Valid() && k == Min(|p|, old(Available())) && n == old(n) + k && accepted == old(accepted) + p[..k]
    {
      k := Min(|p|, Available());
      ghost var before := buf[..n];
      forall j | 0 <= j < k { buf[n + j] := p[j]; }
      assert buf[..n + k] == before + p[..k];
      n := n + k;
      accepted := accepted + p[..k];
    }

    /** nn bytes of p are accepted, all of them unless an error is returned. */
    method Write(p: seq<byte>) returns (nn: nat, e: Option<Error>)
      requires Valid()
      modifies Repr
      ensures Valid() && nn <= |p| && Accepts(p[..nn]) && e == err
      ensures e == None ==> nn == |p|
      ensures |p| <= old(Available()) ==> wr.calls == old(wr.calls)
    {
      nn := 0;
      var rest := p;
      while |rest| > Available() && err == None
        invariant Valid() && nn <= |p| && rest == p[nn..] && Accepts(p[..nn])
        invariant |p| <= old(Available()) ==> |rest| == |p| && n == old(n) && wr.calls == old(wr.calls)
        decreases err == None, |rest|, n
      {
        ghost var done := p[..nn];
        var k := WriteChunk(rest);
        assert done + rest[..k] == p[..nn + k];
        nn := nn + k;
        rest := rest[k..];
      }
      if err.Some? { return nn, err; }
      var k := Fill(rest);
      assert p[..nn] + rest[..k] == p;
      nn := nn + k;
      assert p[..nn] == p;
      return nn, None;
    }

    /** More than fits: straight to the sink when nothing is buffered, else fill the
        buffer and flush it. */
    method WriteChunk(rest: seq<byte>) returns (k: nat)
      requires Valid() && err == None && |rest| > Available()
      modifies Repr
      ensures Valid() && k <= |rest| && Accepts(rest[..k])
      ensures err == None ==> 0 < k || n < old(n)
    {
      if n == 0 {
        assert buf[..0] == [];
        var e1;
        k, e1 := wr.Write(rest);
        err := e1;
        accepted := accepted + rest[..k];
      } else {
        k := FillAndFlush(rest);
      }
    }

    method FillAndFlush(rest: seq<byte>) returns (k: nat)
      requires Valid() && err == None && |rest| > Available()
      modifies Repr
      ensures Valid() && k <= |rest| && Accepts(rest[..k])
      ensures err == None ==> 0 < k || n < old(n)
    {
      k := Fill(rest);
      ghost var filled := accepted;
      var flushed := Flush();
      assert filled + [] == filled;
    }

    /** Strings always go through the buffer. */
    method WriteString(s: seq<byte>) returns (nn: nat, e: Option<Error>)
      requires Valid()
      modifies Repr
      ensures Valid() && nn <= |s| && Accepts(s[..nn]) && e == err
      ensures e == None ==> nn == |s|
      ensures |s| <= old(Available()) ==> wr.calls == old(wr.calls)
    {
      nn := 0;
      var rest := s;
      while |rest| > Available() && err == None
        invariant Valid() && nn <= |s| && rest == s[nn..] && Accepts(s[..nn])
        invariant |s| <= old(Available()) ==> |rest| == |s| && n == old(n) && wr.calls == old(wr.calls)
        decreases err == None, |rest|, n
      {
        ghost var done := s[..nn];
        var k := FillAndFlush(rest);
        assert done + rest[..k] == s[..nn + k];
        nn := nn + k;
        rest := rest[k..];
      }
      if err.Some? { return nn, err; }
      var k := Fill(rest);
      assert s[..nn] + rest[..k] == s;
      nn := nn + k;
      assert s[..nn] == s;
      return nn, None;
    }

    method WriteByte(c: byte) returns (e: Option<Error>)
      requires Valid()
      modifies Repr
      ensures Valid() && e == err && Accepts(if e == None then [c] else [])
      ensures old(Available()) > 0 ==> wr.calls == old(wr.calls)
    {
      if err.Some? { return err; }
      if Available() <= 0 {
        var flushed := Flush();
        if flushed.Some? { return err; }
      }
      var k := Fill([c]);
      return None;
    }

    /** Copies the rest of r's stream, up to an error; EOF is no error. */
    method ReadFrom(r: Io.Reader) returns (count: nat, e: Option<Error>)
      requires Valid() && r.Valid() && r.honest
      modifies Repr, r
      ensures Valid() && r.Valid() && count <= |old(r.data)|
      ensures Accepts(old(r.data)[..count]) && r.data == old(r.data)[count..]
      ensures e == None ==> r.data == [] && r.last == EOF && err == None
      ensures old(err).Some? ==> e == old(err)
      ensures e != None ==>
                || e == err
                || (e == Some(r.last) && r.last != EOF && r.data == [])
                || (e == Some(NoProgress) && 100 <= r.idle)
    {
      if err.Some? { return 0, err; }
      count := 0;
      ghost var stream := r.data;
      while true
        invariant Valid() && r.Valid() && err == None && count <= |stream|
        invariant Accepts(stream[..count]) && r.data == stream[count..]
        decreases |r.data|
      {
        ghost var done := stream[..count];
        var turn := ReadTurn(r);
        assert done + stream[count..][..turn.m] == stream[..count + turn.m];
        count := count + turn.m;
        match turn
        case More(_) =>
        case Failed(_, e1) => return count, Some(e1);
        case Ended(_, e1) =>
          if e1 != EOF { return count, Some(e1); }
          e := FlushIfFull();
          return;
      }
    }

    /** A buffer filled exactly by the end of the stream is flushed at once. */
    method FlushIfFull() returns (e: Option<Error>)
      requires Valid() && err == None
      modifies Repr
      ensures Valid() && Accepts([]) && e == err
      ensures wr.calls == old(wr.calls) + if old(Available()) == 0 then 1 else 0
    {
      assert accepted + [] == accepted;
      e := None;
      if Available() == 0 { e := Flush(); }
    }

    /** One turn of ReadFrom: room, then bytes. */
    method ReadTurn(r: Io.Reader) returns (turn: ReadOutcome)
      requires Valid() && r.Valid() && r.honest && err == None
      modifies Repr, r
      ensures Valid() && r.Valid() && turn.m <= |old(r.data)|
      ensures Accepts(old(r.data)[..turn.m]) && r.data == old(r.data)[turn.m..]
      ensures match turn
              case More(m) => 0 < m && err == None
              case Ended(_, e) => err == None && r.data == [] && e == r.last
              case Failed(m, e) => m == 0 && (err == Some(e) || (e == NoProgress && 100 <= r.idle))
    {
      assert accepted + r.data[..0] == accepted && r.data[0..] == r.data;
      if Available() == 0 {
        var flushed := Flush();
        if flushed.Some? { return Failed(0, flushed.value); }
      }
      var m, e := ReadSome(r);
      if e.Some? { return Ended(m, e.value); }
      return if m == 0 then Failed(0, NoProgress) else More(m);
    }

    /** At most 100 tries to read into the free part of the buffer. */
    method ReadSome(r: Io.Reader) returns (m: nat, e: Option<Error>)
      requires Valid() && r.Valid() && r.honest && n < buf.Length && err == None
      modifies this`n, this`accepted, buf, r
      ensures Valid() && r.Valid() && m <= |old(r.data)| && n == old(n) + m
      ensures accepted == old(accepted) + old(r.data)[..m] && r.data == old(r.data)[m..]
      ensures e.Some? ==> r.data == [] && e.value == r.last
      ensures m == 0 && e == None ==> 100 <= r.idle
      ensures r.calls <= old(r.calls) + 100
    {
      m, e := 0, None;
      var nr := 0;
      while nr < MAX_EMPTY_READS
        invariant Valid() && r.Valid() && n == old(n) && nr <= MAX_EMPTY_READS && nr <= r.idle
        invariant r.calls == old(r.calls) + nr
        invariant m == 0 && e == None && accepted == old(accepted) && r.data == old(r.data)
      {
        m, e := ReadOnce(r);
        if m != 0 || e.Some? { return; }
        NothingRead(old(accepted), old(r.data));
        nr := nr + 1;
      }
      NothingRead(accepted, r.data);
    }

    /** One Read into the free part of the buffer. */
    method ReadOnce(r: Io.Reader) returns (m: nat, e: Option<Error>)
      requires Valid() && r.Valid() && r.honest && n < buf.Length && err == None
      modifies this`n, this`accepted, buf, r
      ensures Valid() && r.Valid() && m <= |old(r.data)| && n == old(n) + m
      ensures accepted == old(accepted) + old(r.data)[..m] && r.data == old(r.data)[m..]
      ensures e.Some? ==> r.data == [] && e.value == r.last
      ensures r.calls == old(r.calls) + 1 && (m == 0 && e == None ==> r.idle == old(r.idle) + 1)
    {
      ghost var before := buf[..n];
      var k;
      k, e := r.Read(buf, n, buf.Length);
      m := k;
      Received(wr.data, before, buf[..], n, m);
      n := n + m;
      accepted := accepted + old(r.data)[..m];
    }
  }

  lemma Divided(sink: seq<byte>, pending: seq<byte>, k: nat)
    requires k <= |pending|
    ensures sink + pending[..k] + pending[k..] == sink + pending
    ensures k == |pending| ==> pending[k..] == [] && sink + pending[..k] == sink + pending
  {
  }

  lemma NothingRead(accepted: seq<byte>, data: seq<byte>)
    ensures accepted + data[..0] == accepted && data[0..] == data
  {
  }

  /** m bytes joined those of the buffer that the sink does not have yet. */
  lemma Received(sink: seq<byte>, before: seq<byte>, buf: seq<byte>, n: nat, m: nat)
    requires n + m <= |buf| && buf[..n] == before
    ensures sink + buf[..n + m] == sink + before + buf[n..n + m]
  {
    assert buf[..n + m] == buf[..n] + buf[n..n + m];
  }

  // ---- Runs ----

  datatype Op =
    | WriteOp(p: seq<byte>) | WriteStringOp(p: seq<byte>) | WriteByteOp(c: byte) | FlushOp
    | ReadFromOp(stream: seq<byte>, last: Error, maxEmpty: nat)

  /** What a call reports: how many bytes it accepted, and an error. */
  datatype Report = Report(n: nat, e: Option<Error>)

  function Offered(op: Op): seq<byte> {
    match op
    case WriteOp(p) => p
    case WriteStringOp(p) => p
    case WriteByteOp(c) => [c]
    case FlushOp => []
    case ReadFromOp(stream, _, _) => stream
  }

  /** No call reports more than it was offered; less only with an error. */
  predicate Honoured(op: Op, report: Report) {
    report.n <= |Offered(op)| && (report.e == None ==> report.n == |Offered(op)|)
  }

  function Accepted(op: Op, report: Report): seq<byte>
    requires Honoured(op, report)
  {
    Offered(op)[..report.n]
  }

  predicate AllHonoured(ops: seq<Op>, reports: seq<Report>) {
    |ops| == |reports| && forall k | 0 <= k < |ops| :: Honoured(ops[k], reports[k])
  }

  /** A ReadFrom may also report an error of its reader, or that it makes no progress. */
  predicate MayFail(op: Op) {
    op.ReadFromOp? && (op.last != EOF || 100 <= op.maxEmpty)
  }

  /** Every byte reported as accepted, in order. */
  function Taken(ops: seq<Op>, reports: seq<Report>): seq<byte>
    requires AllHonoured(ops, reports)
  {
    var n := |ops| - 1;
    if ops == [] then [] else Taken(ops[..n], reports[..n]) + Accepted(ops[n], reports[n])
  }

  lemma TakenSnoc(ops: seq<Op>, reports: seq<Report>, op: Op, report: Report)
    requires AllHonoured(ops, reports) && Honoured(op, report)
    ensures AllHonoured(ops + [op], reports + [report])
    ensures Taken(ops + [op], reports + [report]) == Taken(ops, reports) + Accepted(op, report)
  {
    hide Honoured, Accepted;
    assert (ops + [op])[..|ops|] == ops && (reports + [report])[..|ops|] == reports;
  }

  method Do(w: Writer, op: Op) returns (report: Report)
    requires w.Valid()
    modifies w.Repr
    ensures w.Valid() && Honoured(op, report) && w.Accepts(Accepted(op, report))
    ensures !MayFail(op) ==> report.e == w.err
    ensures old(w.err).Some? ==> report == Report(0, old(w.err))
  {
    var n: nat, e := 0, None;
    match op {
      case WriteOp(p) => n, e := w.Write(p);
      case WriteStringOp(p) => n, e := w.WriteString(p);
      case WriteByteOp(c) =>
        e := w.WriteByte(c);
        if e == None { n := 1; }
      case FlushOp => e := w.Flush();
      case ReadFromOp(stream, last, maxEmpty) =>
        var r := new Io.Reader(stream, last, maxEmpty, true);
        n, e := w.ReadFrom(r);
    }
    return Report(n, e);
  }

  /** The writer's own error, once reported, is all that later calls report. */
  predicate Sticks(ops: seq<Op>, reports: seq<Report>)
    requires |ops| == |reports|
  {
    forall j, k | 0 <= j < k < |ops| && reports[j].e.Some? && !ops[j].ReadFromOp? ::
      reports[k] == Report(0, reports[j].e)
  }

  /** Any run of calls: the sink followed by what still waits in the buffer is, in
      order, every byte reported as accepted; nothing is accepted after an error; and
      if a final Flush succeeds the sink holds everything. With a sink that takes all it
      is offered no call fails, but for what a reader does. */
  method Run(wr: Io.Writer, size: int, ops: seq<Op>) returns (w: Writer, reports: seq<Report>, e: Option<Error>)
    modifies wr
    ensures w.Valid() && w.wr == wr && AllHonoured(ops, reports) && Sticks(ops, reports)
    ensures wr.data + w.buf[..w.n] == old(wr.data) + Taken(ops, reports)
    ensures e == None ==> wr.data == old(wr.data) + Taken(ops, reports)
    ensures wr.reliable ==> e == None && forall k | 0 <= k < |ops| && !MayFail(ops[k]) :: reports[k].e == None
  {
    hide Honoured, AllHonoured, Accepted, Taken, Offered;
    w := new Writer(wr, size);
    reports := [];
    ghost var start := wr.data;
    NothingTaken(start);
    assert ops[..0] == [];
    for k := 0 to |ops|
      invariant w.Valid() && w.wr == wr && fresh(w.Repr - {wr})
      invariant |reports| == k && AllHonoured(ops[..k], reports)
      invariant w.accepted == start + Taken(ops[..k], reports)
      invariant forall j | 0 <= j < k && reports[j].e.Some? && !ops[j].ReadFromOp? :: w.err == reports[j].e
      invariant wr.reliable ==> w.err == None && forall j | 0 <= j < k && !MayFail(ops[j]) :: reports[j].e == None
      invariant Sticks(ops[..k], reports)
    {
      ghost var taken := Taken(ops[..k], reports);
      var report := Do(w, ops[k]);
      assert ops[..k + 1] == ops[..k] + [ops[k]];
      TakenSnoc(ops[..k], reports, ops[k], report);
      Associate(start, taken, Accepted(ops[k], report));
      reports := reports + [report];
    }
    assert ops[..|ops|] == ops;
    e := w.Flush();
  }

  lemma NothingTaken(start: seq<byte>)
    ensures AllHonoured([], []) && start + Taken([], []) == start
  {
  }
}
