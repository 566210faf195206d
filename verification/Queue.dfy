/** What a bytes.Buffer is for: a queue of bytes whose last read may be taken back. */
module Queues {
  import opened Utf8
  import opened Io

  const MIN_READ := 512

  // The kinds of last operation; 1 to 4 are the sizes of a rune that was read.
  const OP_READ := -1
  const OP_INVALID := 0

  /** The bytes of the queue; in front of them, those read already that are still there
      to be taken back; and what kind of read, if any, is pending to be taken back. */
  datatype Queue = Queue(behind: seq<byte>, contents: seq<byte>, last: int)

  const EMPTY := Queue([], [], OP_INVALID)

  datatype Op =
    | WriteOp(p: seq<byte>) | WriteByteOp(c: byte) | WriteRuneOp(r: rune) | GrowOp(n: int)
    | ReadFromOp(stream: seq<byte>, last: Error, maxEmpty: nat, honest: bool)
    | ReadOp(max: nat) | NextOp(n: int) | ReadByteOp | ReadBytesOp(delim: byte) | ReadRuneOp
    | UnreadByteOp | UnreadRuneOp | TruncateOp(n: int) | ResetOp

  /** What a call does for its caller: the bytes it takes off the queue, how many bytes
      it puts in, how often it calls Read for them, and whether it panics. */
  datatype Reply = Reply(out: seq<byte>, added: nat, rounds: nat, panicked: bool)

  const QUIET := Reply([], 0, 0, false)

  /** Making room may move the contents, and then what was behind them is gone. */
  predicate Stays(q: Queue, r: Queue) {
    r.behind == q.behind || r.behind == []
  }

  /** p joins the queue, unless there is no room for it. */
  predicate Puts(q: Queue, p: seq<byte>, reply: Reply, r: Queue) {
    && reply == Reply([], if reply.panicked then 0 else |p|, 0, reply.panicked)
    && Stays(q, r) && r.last == OP_INVALID
    && r.contents == if reply.panicked then q.contents else q.contents + p
  }

  /** The first k bytes leave the queue and stay behind it. */
  predicate Takes(q: Queue, k: nat, last: int, reply: Reply, r: Queue) {
    && k <= |q.contents| && reply == Reply(q.contents[..k], 0, 0, false)
    && r == Queue(q.behind + q.contents[..k], q.contents[k..], last)
  }

  /** A read that finds nothing starts the buffer afresh. */
  predicate FindsNothing(q: Queue, reply: Reply, r: Queue) {
    q.contents == [] && reply == QUIET && r == EMPTY
  }

  function Pending(k: nat): int {
    if k == 0 then OP_INVALID else OP_READ
  }

  /** How often ReadFrom may call a reader that is idle at most maxEmpty times in a row. */
  function MaxReads(added: nat, maxEmpty: nat): nat {
    (added + 1) * (maxEmpty + 1)
  }

  /** The last k bytes behind the queue, if there are so many, go back to its front. */
  function Restored(q: Queue, k: nat): Queue {
    var n := |q.behind| - k;
    if n < 0 then q.(last := OP_INVALID)
    else Queue(q.behind[..n], q.behind[n..] + q.contents, OP_INVALID)
  }

  /** One call on the queue. All that is left open is whether making room moves the bytes,
      and where a ReadFrom stops for lack of room or for an impossible count. */
  predicate Step(q: Queue, op: Op, reply: Reply, r: Queue) {
    match op
    case WriteOp(p) => Puts(q, p, reply, r)
    case WriteByteOp(c) => Puts(q, [c], reply, r)
    case WriteRuneOp(c) => Puts(q, Encode(c), reply, r)
    case ReadFromOp(stream, _, maxEmpty, _) =>
      && reply.out == [] && reply.added <= |stream| && (!reply.panicked ==> reply.added == |stream|)
      && reply.rounds <= MaxReads(reply.added, maxEmpty)
      && Stays(q, r) && r.contents == q.contents + stream[..reply.added] && r.last == OP_INVALID
    case GrowOp(n) =>
      && reply == Reply([], 0, 0, reply.panicked) && (n < 0 ==> reply.panicked)
      && if n < 0 then r == q
         else if q.contents == [] && q.behind != [] then r == EMPTY
         else Stays(q, r) && r.contents == q.contents && r.last == q.last && (reply.panicked ==> r == q)
    case ReadOp(max) =>
      if q.contents == [] then FindsNothing(q, reply, r)
      else var k := Min(max, |q.contents|); Takes(q, k, Pending(k), reply, r)
    case NextOp(n) =>
      if n < 0 then reply == Reply([], 0, 0, true) && r == q.(last := OP_INVALID)
      else var k := Min(n, |q.contents|); Takes(q, k, Pending(k), reply, r)
    case ReadByteOp => if q.contents == [] then FindsNothing(q, reply, r) else Takes(q, 1, OP_READ, reply, r)
    case ReadBytesOp(delim) =>
      var i := IndexByte(q.contents, delim);
      Takes(q, if i < 0 then |q.contents| else i + 1, OP_READ, reply, r)
    case ReadRuneOp =>
      if q.contents == [] then FindsNothing(q, reply, r)
      else var k := DecodeRune(q.contents).size; Takes(q, k, k, reply, r)
    case UnreadByteOp => reply == QUIET && r == if q.last == OP_INVALID then q else Restored(q, 1)
    case UnreadRuneOp => reply == QUIET && r == if q.last <= OP_INVALID then q else Restored(q, q.last)
    case TruncateOp(n) =>
      && reply == Reply([], 0, 0, !(0 <= n <= |q.contents|))
      && r == if n == 0 then EMPTY
              else Queue(q.behind, if reply.panicked then q.contents else q.contents[..n], OP_INVALID)
    case ResetOp => reply == QUIET && r == EMPTY
  }

  /** A run: the queue before the first call, after it, after the second, and so on. */
  ghost predicate IsRun(ops: seq<Op>, replies: seq<Reply>, trace: seq<Queue>) {
    && |replies| == |ops| && |trace| == |ops| + 1 && trace[0] == EMPTY
    && forall k | 0 <= k < |ops| :: Step(trace[k], ops[k], replies[k], trace[k + 1])
  }

  lemma Rejoin(behind: seq<byte>, s: seq<byte>, k: nat, j: nat)
    requires j <= k <= |s|
    ensures (behind + s[..k])[..|behind| + k - j] == behind + s[..k - j]
    ensures (behind + s[..k])[|behind| + k - j..] + s[k..] == s[k - j..]
  {
  }

  /** What a read leaves behind the queue. */
  lemma TakenLeaves(q: Queue, op: Op, reply: Reply, r: Queue)
    requires Step(q, op, reply, r) && reply.out != []
    ensures var k := |reply.out|;
      Takes(q, k, if op.ReadRuneOp? then k else OP_READ, reply, r)
  {
    hide Encode, DecodeRune, IndexByte;
  }

  /** A read that returned something, taken back: UnreadByte restores exactly the last
      byte, and UnreadRune exactly the rune, which it refuses after any other read. */
  lemma TakenBack(q: Queue, op: Op, reply: Reply, mid: Queue, undo: Op, undone: Reply, r: Queue)
    requires Step(q, op, reply, mid) && reply.out != []
    requires (undo.UnreadByteOp? || undo.UnreadRuneOp?) && Step(mid, undo, undone, r)
    ensures var k := |reply.out|;
      && k <= |q.contents|
      && r == if undo.UnreadByteOp? then Queue(q.behind + q.contents[..k - 1], q.contents[k - 1..], OP_INVALID)
              else if op.ReadRuneOp? then q.(last := OP_INVALID)
              else mid
  {
    TakenLeaves(q, op, reply, mid);
    Rejoin(q.behind, q.contents, |reply.out|, if undo.UnreadByteOp? then 1 else |reply.out|);
    Undone(mid, undo, undone, r);
    hide Step;
    assert q.behind + q.contents[..0] == q.behind;
  }

  lemma Undone(q: Queue, undo: Op, reply: Reply, r: Queue)
    requires (undo.UnreadByteOp? || undo.UnreadRuneOp?) && Step(q, undo, reply, r)
    ensures r == if undo.UnreadByteOp? then (if q.last == OP_INVALID then q else Restored(q, 1))
                 else if q.last <= OP_INVALID then q else Restored(q, q.last)
  {
  }

  /** A ReadBytes that found nothing counts as a read: UnreadByte does not refuse, and takes
      back what was read before. */
  lemma StaleUnread(q: Queue, delim: byte, reply: Reply, mid: Queue, undone: Reply, r: Queue)
    requires q.contents == [] && Step(q, ReadBytesOp(delim), reply, mid) && Step(mid, UnreadByteOp, undone, r)
    ensures reply == QUIET && mid.last != OP_INVALID
    ensures r.contents == if q.behind == [] then [] else [q.behind[|q.behind| - 1]]
  {
    assert q.behind + [] == q.behind;
  }

  /** A rune that may be taken back is still there to be taken back. */
  predicate HoldsRune(q: Queue) {
    q.last <= |q.behind|
  }

  /** Every call but Grow sees to that, whatever it moves. */
  lemma StepHoldsRune(q: Queue, op: Op, reply: Reply, r: Queue)
    requires Step(q, op, reply, r) && HoldsRune(q)
    ensures op.GrowOp? || HoldsRune(r)
    ensures op.GrowOp? && q.last > 0 && q.contents != [] ==> (HoldsRune(r) <==> r.behind == q.behind)
  {
    hide Encode, DecodeRune, IndexByte;
  }

  lemma {:induction false} RuneIsThere(ops: seq<Op>, replies: seq<Reply>, trace: seq<Queue>, k: nat)
    requires IsRun(ops, replies, trace) && (forall op | op in ops :: !op.GrowOp?) && k <= |ops|
    ensures HoldsRune(trace[k])
  {
    hide Step;
    if k > 0 {
      RuneIsThere(ops, replies, trace, k - 1);
      StepHoldsRune(trace[k - 1], ops[k - 1], replies[k - 1], trace[k]);
    }
  }

  /** A read returns nothing only when there is nothing or nothing was asked for. */
  lemma SomethingTaken(q: Queue, op: Op, reply: Reply, r: Queue)
    requires Step(q, op, reply, r)
    requires op.ReadOp? || op.NextOp? || op.ReadByteOp? || op.ReadBytesOp? || op.ReadRuneOp?
    ensures reply.out <= q.contents
    ensures reply.out == [] ==> q.contents == [] || op == ReadOp(0) || (op.NextOp? && op.n <= 0)
  {
    hide IndexByte;
  }

  /** Calls that only put bytes in, take bytes out, or make room. */
  predicate OneWay(op: Op) {
    !(op.UnreadByteOp? || op.UnreadRuneOp? || op.TruncateOp? || op.ResetOp?)
  }

  function Offered(op: Op): seq<byte> {
    match op
    case WriteOp(p) => p
    case WriteByteOp(c) => [c]
    case WriteRuneOp(r) => Encode(r)
    case ReadFromOp(stream, _, _, _) => stream
    case _ => []
  }

  function Input(op: Op, reply: Reply): seq<byte> {
    Offered(op)[..Min(reply.added, |Offered(op)|)]
  }

  /** Everything that was put in, in order, and everything that came out. */
  function Inputs(ops: seq<Op>, replies: seq<Reply>): seq<byte>
    requires |ops| == |replies|
  {
    var n := |ops| - 1;
    if ops == [] then [] else Inputs(ops[..n], replies[..n]) + Input(ops[n], replies[n])
  }

  function Outputs(replies: seq<Reply>): seq<byte> {
    var n := |replies| - 1;
    if replies == [] then [] else Outputs(replies[..n]) + replies[n].out
  }

  lemma StepKeepsOrder(q: Queue, op: Op, reply: Reply, r: Queue)
    requires Step(q, op, reply, r) && OneWay(op)
    ensures reply.out + r.contents == q.contents + Input(op, reply)
  {
    hide Encode, DecodeRune, IndexByte;
  }

  /** First in, first out: what has come out, followed by what is still in, is
      what was put in. */
  lemma {:induction false} FirstInFirstOut(ops: seq<Op>, replies: seq<Reply>, trace: seq<Queue>)
    requires IsRun(ops, replies, trace) && forall op | op in ops :: OneWay(op)
    ensures Outputs(replies) + trace[|ops|].contents == Inputs(ops, replies)
    decreases |ops|
  {
    hide Step;
    var n := |ops| - 1;
    if ops != [] {
      FirstInFirstOut(ops[..n], replies[..n], trace[..n + 1]);
      assert Step(trace[n], ops[n], replies[n], trace[n + 1]);
      StepKeepsOrder(trace[n], ops[n], replies[n], trace[n + 1]);
      var input := Input(ops[n], replies[n]);
      Regroup(Outputs(replies[..n]), replies[n].out, trace[n + 1].contents, trace[n].contents, input);
    }
  }

  lemma Regroup(a: seq<byte>, b: seq<byte>, c: seq<byte>, d: seq<byte>, e: seq<byte>)
    requires b + c == d + e
    ensures (a + b) + c == (a + d) + e
  {
    assert (a + b) + c == a + (b + c) == a + (d + e);
  }

  /** The room a call asks for: what it puts in, all four bytes a rune may take, what it
      asks Grow for, and 512 bytes for every Read. */
  function RoomOf(op: Op, reply: Reply): nat {
    if op.ReadFromOp? then 512 * reply.rounds + reply.added
    else if reply.panicked then 0
    else
      match op
      case WriteOp(p) => |p|
      case WriteByteOp(_) => 1
      case WriteRuneOp(r) => if 0 <= r < RUNE_SELF then 1 else UTF_MAX
      case GrowOp(n) => Max(0, n)
      case _ => 0
  }

  function Room(ops: seq<Op>, replies: seq<Reply>): nat
    requires |ops| == |replies|
  {
    var n := |ops| - 1;
    if ops == [] then 0 else Room(ops[..n], replies[..n]) + RoomOf(ops[n], replies[n])
  }

  lemma RoomSnoc(ops: seq<Op>, replies: seq<Reply>, op: Op, reply: Reply)
    requires |ops| == |replies|
    ensures Room(ops + [op], replies + [reply]) == Room(ops, replies) + RoomOf(op, reply)
  {
    hide RoomOf;
    assert (ops + [op])[..|ops|] == ops && (replies + [reply])[..|ops|] == replies;
  }

  /** Write, WriteByte, reading and unreading ask for no more room than they fill. */
  predicate FillsItsRoom(op: Op) {
    !op.GrowOp? && !op.WriteRuneOp? && !op.ReadFromOp?
  }

  /** Where nothing else is called, the room asked for is the number of bytes written. */
  lemma {:induction false} RoomIsInput(ops: seq<Op>, replies: seq<Reply>, trace: seq<Queue>)
    requires IsRun(ops, replies, trace) && forall op | op in ops :: FillsItsRoom(op)
    ensures Room(ops, replies) == |Inputs(ops, replies)|
    decreases |ops|
  {
    hide Step;
    var n := |ops| - 1;
    if ops != [] {
      RoomIsInput(ops[..n], replies[..n], trace[..n + 1]);
      StepFillsRoom(trace[n], ops[n], replies[n], trace[n + 1]);
    }
  }

  lemma StepFillsRoom(q: Queue, op: Op, reply: Reply, r: Queue)
    requires Step(q, op, reply, r) && FillsItsRoom(op)
    ensures RoomOf(op, reply) == |Input(op, reply)|
  {
    hide Encode, DecodeRune, IndexByte;
  }
}
