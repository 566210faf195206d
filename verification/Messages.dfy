/** The gnovm messages as values: their schemas, their encodings, and the round trip. */
module Messages {
  import opened Utf8
  import opened Io
  import opened Basics
  import opened WireFormat
  import opened Skipping
  import opened Decoding

  datatype ParamsValue = ParamsValue(
    sysnamesPkgpath: seq<byte>, chainDomain: seq<byte>, defaultDeposit: seq<byte>,
    storagePrice: seq<byte>, storageFeeCollector: seq<byte>)

  datatype KVPairValue = KVPairValue(key: seq<byte>, value: seq<byte>)

  datatype GenesisValue = GenesisValue(params: ParamsValue, realmParams: seq<byte>, state: seq<KVPairValue>)

  datatype EvalValue = EvalValue(pkgPath: seq<byte>, expr: seq<byte>, maxGas: nat)

  datatype RenderValue = RenderValue(pkgPath: seq<byte>, args: seq<seq<byte>>)

  const ZERO_PARAMS := ParamsValue([], [], [], [], [])
  const ZERO_PAIR := KVPairValue([], [])
  const ZERO_GENESIS := GenesisValue(ZERO_PARAMS, [], [])
  const ZERO_EVAL := EvalValue([], [], 0)
  const ZERO_RENDER := RenderValue([], [])

  // ---- Schemas ----

  function NoVarint<M>(m: M, num: int, v: nat): M { m }

  function Untouched<M>(m: M): M { m }

  function ParamsKind(num: int): Kind {
    if 1 <= num <= 5 then BytesField else UnknownField
  }

  function SetParams(m: ParamsValue, num: int, p: seq<byte>): Result<ParamsValue> {
    match num
    case 1 => Done(m.(sysnamesPkgpath := p))
    case 2 => Done(m.(chainDomain := p))
    case 3 => Done(m.(defaultDeposit := p))
    case 4 => Done(m.(storagePrice := p))
    case _ => Done(m.(storageFeeCollector := p))
  }

  const PARAMS := Schema(ParamsKind, SetParams, (m, num, v) => NoVarint<ParamsValue>(m, num, v),
    (m, num, p) => Untouched<ParamsValue>(m), (m, num, v) => Untouched<ParamsValue>(m))

  function KVPairKind(num: int): Kind {
    if 1 <= num <= 2 then BytesField else UnknownField
  }

  function SetKVPair(m: KVPairValue, num: int, p: seq<byte>): Result<KVPairValue> {
    Done(if num == 1 then m.(key := p) else m.(value := p))
  }

  const KVPAIR := Schema(KVPairKind, SetKVPair, (m, num, v) => NoVarint<KVPairValue>(m, num, v),
    (m, num, p) => Untouched<KVPairValue>(m), (m, num, v) => Untouched<KVPairValue>(m))

  function GenesisKind(num: int): Kind {
    if 1 <= num <= 3 then BytesField else UnknownField
  }

  /** A nested message is decoded into what is there; a repeated one is appended. */
  function SetGenesis(m: GenesisValue, num: int, p: seq<byte>): Result<GenesisValue> {
    match num
    case 1 =>
      (match Decode(PARAMS, m.params, p)
       case Failed(e) => Failed(e)
       case Done(v) => Done(m.(params := v)))
    case 2 => Done(m.(realmParams := p))
    case _ =>
      match Decode(KVPAIR, ZERO_PAIR, p)
      case Failed(e) => Failed(e)
      case Done(v) => Done(m.(state := m.state + [v]))
  }

  /** A nested message keeps what was decoded of it; a new pair has been appended already. */
  function SpoilGenesis(m: GenesisValue, num: int, p: seq<byte>): GenesisValue {
    match num
    case 1 => m.(params := Left(PARAMS, m.params, p))
    case 3 => m.(state := m.state + [Left(KVPAIR, ZERO_PAIR, p)])
    case _ => m
  }

  const GENESIS := Schema(GenesisKind, SetGenesis, (m, num, v) => NoVarint<GenesisValue>(m, num, v),
    SpoilGenesis, (m, num, v) => Untouched<GenesisValue>(m))

  function EvalKind(num: int): Kind {
    if 1 <= num <= 2 then BytesField else if num == 3 then VarintField else UnknownField
  }

  function SetEval(m: EvalValue, num: int, p: seq<byte>): Result<EvalValue> {
    Done(if num == 1 then m.(pkgPath := p) else m.(expr := p))
  }

  /** The gas limit is added up in the message itself. */
  const EVAL := Schema(EvalKind, SetEval, (m: EvalValue, num, v) => m.(maxGas := v),
    (m, num, p) => Untouched<EvalValue>(m), (m: EvalValue, num, v) => m.(maxGas := v))

  function RenderKind(num: int): Kind {
    if 1 <= num <= 2 then BytesField else UnknownField
  }

  function SetRender(m: RenderValue, num: int, p: seq<byte>): Result<RenderValue> {
    Done(if num == 1 then m.(pkgPath := p) else m.(args := m.args + [p]))
  }

  const RENDER := Schema(RenderKind, SetRender, (m, num, v) => NoVarint<RenderValue>(m, num, v),
    (m, num, p) => Untouched<RenderValue>(m), (m, num, v) => Untouched<RenderValue>(m))

  // ---- Encodings ----

  /** A length-delimited field: tag, length, payload. */
  function Record(num: nat, payload: seq<byte>): seq<byte>
    requires 1 <= num <= 15
  {
    [(num * 8 + 2) as byte] + Varint(|payload|) + payload
  }

  /** proto3 leaves out an empty field. */
  function Optional(num: nat, payload: seq<byte>): seq<byte>
    requires 1 <= num <= 15
  {
    if payload == [] then [] else Record(num, payload)
  }

  function EncodeParams(m: ParamsValue): seq<byte> {
    Optional(1, m.sysnamesPkgpath) + (Optional(2, m.chainDomain) + (Optional(3, m.defaultDeposit)
      + (Optional(4, m.storagePrice) + Optional(5, m.storageFeeCollector))))
  }

  function EncodeKVPair(m: KVPairValue): seq<byte> {
    Optional(1, m.key) + Optional(2, m.value)
  }

  function EncodePairs(pairs: seq<KVPairValue>): seq<byte> {
    if pairs == [] then [] else Record(3, EncodeKVPair(pairs[0])) + EncodePairs(pairs[1..])
  }

  /** The nested message is written even when it is empty. */
  function EncodeGenesis(m: GenesisValue): seq<byte> {
    Record(1, EncodeParams(m.params)) + (Optional(2, m.realmParams) + EncodePairs(m.state))
  }

  function EncodeEval(m: EvalValue): seq<byte> {
    Optional(1, m.pkgPath) + (Optional(2, m.expr) + (if m.maxGas == 0 then [] else [0x18] + Varint(m.maxGas)))
  }

  function EncodeArgs(args: seq<seq<byte>>): seq<byte> {
    if args == [] then [] else Record(2, args[0]) + EncodeArgs(args[1..])
  }

  function EncodeRender(m: RenderValue): seq<byte> {
    Optional(1, m.pkgPath) + EncodeArgs(m.args)
  }

  // ---- Round trips ----

  /** A one-byte tag reads back as its field number and wire type. */
  lemma TagReads(a: seq<byte>, tag: byte, b: seq<byte>)
    requires tag < 0x80
    ensures VarintAt(a + [tag] + b, |a|) == Ok(tag, |a| + 1)
  {
    assert Varint(tag) == [tag];
    VarintRoundTrip(a, tag, b);
  }

  /** Decoding one record sets its field to its payload. */
  lemma RecordSets<M>(sc: Schema<M>, m: M, num: nat, payload: seq<byte>, m1: M)
    requires 1 <= num <= 15 && sc.kind(num) == BytesField && sc.setBytes(m, num, payload) == Done(m1)
    requires |Record(num, payload)| <= MAX_INT
    ensures Decode(sc, m, Record(num, payload)) == Done(m1)
  {
    hide VarintAt, SkipFrom, PayloadAt;
    RecordReads(num, payload);
    DecodeOne(sc, m, Record(num, payload), m1);
  }

  /** The tag of a record, and its payload. */
  lemma RecordReads(num: nat, payload: seq<byte>)
    requires 1 <= num <= 15 && |Record(num, payload)| <= MAX_INT
    ensures var s := Record(num, payload);
      VarintAt(s, 0) == Ok(num * 8 + 2, 1) && PayloadAt(s, 1) == Ok(payload, |s|)
  {
    hide VarintFrom, Varint;
    var s, tag := Record(num, payload), (num * 8 + 2) as byte;
    assert s == [] + [tag] + (Varint(|payload|) + payload) == [tag] + Varint(|payload|) + payload;
    TagReads([], tag, Varint(|payload|) + payload);
    VarintRoundTrip([tag], |payload|, payload);
    var j := 1 + |Varint(|payload|)|;
    assert s[j..j + |payload|] == payload;
  }

  lemma OptionalSets<M>(sc: Schema<M>, m: M, num: nat, payload: seq<byte>, m1: M)
    requires 1 <= num <= 15 && sc.kind(num) == BytesField && sc.setBytes(m, num, payload) == Done(m1)
    requires payload == [] ==> m1 == m
    requires |Optional(num, payload)| <= MAX_INT
    ensures Decode(sc, m, Optional(num, payload)) == Done(m1)
  {
    if payload != [] { RecordSets(sc, m, num, payload, m1); }
  }

  lemma ParamsRoundTrip(m: ParamsValue)
    requires |EncodeParams(m)| <= MAX_INT
    ensures Decode(PARAMS, ZERO_PARAMS, EncodeParams(m)) == Done(m)
  {
    hide Optional, DecodeFrom;
    var m1 := ZERO_PARAMS.(sysnamesPkgpath := m.sysnamesPkgpath);
    var m2 := m1.(chainDomain := m.chainDomain);
    var m3 := m2.(defaultDeposit := m.defaultDeposit);
    var m4 := m3.(storagePrice := m.storagePrice);
    var e5 := Optional(5, m.storageFeeCollector);
    var e4 := Optional(4, m.storagePrice);
    var e3 := Optional(3, m.defaultDeposit);
    var e2 := Optional(2, m.chainDomain);
    OptionalSets(PARAMS, ZERO_PARAMS, 1, m.sysnamesPkgpath, m1);
    OptionalSets(PARAMS, m1, 2, m.chainDomain, m2);
    OptionalSets(PARAMS, m2, 3, m.defaultDeposit, m3);
    OptionalSets(PARAMS, m3, 4, m.storagePrice, m4);
    OptionalSets(PARAMS, m4, 5, m.storageFeeCollector, m);
    DecodeThen(PARAMS, m3, e4, e5, m4, m);
    DecodeThen(PARAMS, m2, e3, e4 + e5, m3, m);
    DecodeThen(PARAMS, m1, e2, e3 + (e4 + e5), m2, m);
    DecodeThen(PARAMS, ZERO_PARAMS, Optional(1, m.sysnamesPkgpath), e2 + (e3 + (e4 + e5)), m1, m);
  }

  lemma KVPairRoundTrip(m: KVPairValue)
    requires |EncodeKVPair(m)| <= MAX_INT
    ensures Decode(KVPAIR, ZERO_PAIR, EncodeKVPair(m)) == Done(m)
  {
    hide Optional, DecodeFrom;
    var m1 := ZERO_PAIR.(key := m.key);
    OptionalSets(KVPAIR, ZERO_PAIR, 1, m.key, m1);
    OptionalSets(KVPAIR, m1, 2, m.value, m);
    DecodeThen(KVPAIR, ZERO_PAIR, Optional(1, m.key), Optional(2, m.value), m1, m);
  }

  /** A repeated field is appended in order to what the message already holds. */
  lemma {:induction false} PairsAppend(m: GenesisValue, pairs: seq<KVPairValue>)
    requires |EncodePairs(pairs)| <= MAX_INT
    ensures Decode(GENESIS, m, EncodePairs(pairs)) == Done(m.(state := m.state + pairs))
    decreases |pairs|
  {
    hide DecodeFrom, Varint;
    if pairs == [] {
      DecodeEmpty(GENESIS, m);
      assert m.state + [] == m.state;
    } else {
      var m1 := m.(state := m.state + [pairs[0]]);
      KVPairRoundTrip(pairs[0]);
      RecordSets(GENESIS, m, 3, EncodeKVPair(pairs[0]), m1);
      PairsAppend(m1, pairs[1..]);
      assert m.state + [pairs[0]] + pairs[1..] == m.state + pairs;
      DecodeThen(GENESIS, m, Record(3, EncodeKVPair(pairs[0])), EncodePairs(pairs[1..]), m1,
                 m.(state := m.state + pairs));
    }
  }

  lemma DecodeEmpty<M>(sc: Schema<M>, m: M)
    ensures Decode(sc, m, []) == Done(m)
  {
  }

  lemma GenesisRoundTrip(m: GenesisValue)
    requires |EncodeGenesis(m)| <= MAX_INT
    ensures Decode(GENESIS, ZERO_GENESIS, EncodeGenesis(m)) == Done(m)
  {
    hide Optional, DecodeFrom, EncodePairs, EncodeParams, Varint;
    var m1 := ZERO_GENESIS.(params := m.params);
    var m2 := m1.(realmParams := m.realmParams);
    ParamsRoundTrip(m.params);
    RecordSets(GENESIS, ZERO_GENESIS, 1, EncodeParams(m.params), m1);
    OptionalSets(GENESIS, m1, 2, m.realmParams, m2);
    PairsAppend(m2, m.state);
    assert [] + m.state == m.state;
    DecodeThen(GENESIS, m1, Optional(2, m.realmParams), EncodePairs(m.state), m2, m);
    DecodeThen(GENESIS, ZERO_GENESIS, Record(1, EncodeParams(m.params)),
               Optional(2, m.realmParams) + EncodePairs(m.state), m1, m);
  }

  lemma GasSets(m: EvalValue, gas: nat)
    requires 0 < gas < TWO_64
    ensures Decode(EVAL, m, [0x18] + Varint(gas)) == Done(m.(maxGas := gas))
  {
    hide VarintFrom, Varint, SkipFrom;
    var s := [0x18] + Varint(gas);
    assert s == [] + [0x18] + Varint(gas) == [0x18] + Varint(gas) + [];
    TagReads([], 0x18, Varint(gas));
    VarintRoundTrip([0x18], gas, []);
    var m1 := m.(maxGas := gas);
    DecodeOne(EVAL, m, s, m1);
  }

  /** A gas limit cut off after k of its bytes fails, and leaves its low 7k bits behind. */
  lemma CutGasLeaves(m: EvalValue, gas: nat, k: nat)
    requires gas < TWO_64 && k < |Varint(gas)|
    ensures var s := [0x18] + Varint(gas)[..k];
      Decode(EVAL, m, s) == Failed(UnexpectedEOF) && Left(EVAL, m, s) == m.(maxGas := gas % Pow2(7 * k))
  {
    hide VarintFrom, VarintLeft, Varint, SkipFrom, Pow2;
    var tail := Varint(gas)[..k];
    var s := [0x18] + tail;
    assert s == [] + [0x18] + tail && s[1..] == tail;
    TagReads([], 0x18, tail);
    ShlIdentity(gas);
    CutVarintLeaves(s, 1, 0, 0, gas, k);
    ShlIdentity(gas % Pow2(7 * k));
    assert FieldAt(EVAL, m, s, 0) == Stop(UnexpectedEOF);
    assert SpoiltAt(EVAL, m, s, 0) == m.(maxGas := gas % Pow2(7 * k));
    hide FieldAt, SpoiltAt;
  }

  /** The full range of a 64-bit gas limit survives. */
  lemma EvalRoundTrip(m: EvalValue)
    requires |EncodeEval(m)| <= MAX_INT && m.maxGas < TWO_64
    ensures Decode(EVAL, ZERO_EVAL, EncodeEval(m)) == Done(m)
  {
    hide Optional, DecodeFrom, Varint;
    var m1 := ZERO_EVAL.(pkgPath := m.pkgPath);
    var m2 := m1.(expr := m.expr);
    OptionalSets(EVAL, ZERO_EVAL, 1, m.pkgPath, m1);
    OptionalSets(EVAL, m1, 2, m.expr, m2);
    var gas := if m.maxGas == 0 then [] else [0x18] + Varint(m.maxGas);
    if m.maxGas == 0 { DecodeEmpty(EVAL, m2); } else { GasSets(m2, m.maxGas); }
    DecodeThen(EVAL, m1, Optional(2, m.expr), gas, m2, m);
    DecodeThen(EVAL, ZERO_EVAL, Optional(1, m.pkgPath), Optional(2, m.expr) + gas, m1, m);
  }

  lemma {:induction false} ArgsAppend(m: RenderValue, args: seq<seq<byte>>)
    requires |EncodeArgs(args)| <= MAX_INT
    ensures Decode(RENDER, m, EncodeArgs(args)) == Done(m.(args := m.args + args))
    decreases |args|
  {
    hide DecodeFrom, Varint;
    if args == [] {
      DecodeEmpty(RENDER, m);
      assert m.args + [] == m.args;
    } else {
      var m1 := m.(args := m.args + [args[0]]);
      RecordSets(RENDER, m, 2, args[0], m1);
      ArgsAppend(m1, args[1..]);
      assert m.args + [args[0]] + args[1..] == m.args + args;
      DecodeThen(RENDER, m, Record(2, args[0]), EncodeArgs(args[1..]), m1, m.(args := m.args + args));
    }
  }

  lemma RenderRoundTrip(m: RenderValue)
    requires |EncodeRender(m)| <= MAX_INT
    ensures Decode(RENDER, ZERO_RENDER, EncodeRender(m)) == Done(m)
  {
    hide Optional, DecodeFrom, EncodeArgs;
    var m1 := ZERO_RENDER.(pkgPath := m.pkgPath);
    OptionalSets(RENDER, ZERO_RENDER, 1, m.pkgPath, m1);
    ArgsAppend(m1, m.args);
    assert [] + m.args == m.args;
    DecodeThen(RENDER, ZERO_RENDER, Optional(1, m.pkgPath), EncodeArgs(m.args), m1, m);
  }

  lemma NineBytes()
    ensures |Varint(MAX_INT - 10)| == 9
  {
    var a := (MAX_INT - 10) / 0x80 / 0x80 / 0x80;
    assert |Varint(MAX_INT - 10)| == 1 + |Varint((MAX_INT - 10) / 0x80)| == 2 + |Varint((MAX_INT - 10) / 0x80 / 0x80)|;
    assert |Varint((MAX_INT - 10) / 0x80 / 0x80)| == 1 + |Varint(a)|;
    var b := a / 0x80 / 0x80 / 0x80;
    assert |Varint(a)| == 1 + |Varint(a / 0x80)| == 2 + |Varint(a / 0x80 / 0x80)| == 3 + |Varint(b)|;
    assert |Varint(b)| == 1 + |Varint(b / 0x80)| == 2 + |Varint(b / 0x80 / 0x80)| == 3;
  }

  lemma LongLength(b: seq<byte>)
    requires b == [0x0A] + Varint(MAX_INT - 10)
    ensures |b| == 10 && VarintAt(b, 0) == Ok(0x0A, 1) && VarintAt(b, 1) == Ok(MAX_INT - 10, 10)
  {
    hide VarintFrom;
    NineBytes();
    hide Varint;
    TagReads([], 0x0A, Varint(MAX_INT - 10));
    VarintRoundTrip([0x0A], MAX_INT - 10, []);
    assert [] + [0x0A] + Varint(MAX_INT - 10) == b == [0x0A] + Varint(MAX_INT - 10) + [];
  }

  /** Merging is exact only up to which error is reported: a length that runs past the
      end of b overflows an int when b stands behind other bytes. */
  lemma ErrorsCanDiffer(a: seq<byte>, b: seq<byte>)
    requires a == [0x0A, 0] && b == [0x0A] + Varint(MAX_INT - 10)
    ensures Decode(KVPAIR, ZERO_PAIR, a) == Done(ZERO_PAIR)
    ensures Decode(KVPAIR, ZERO_PAIR, b) == Failed(UnexpectedEOF)
    ensures Decode(KVPAIR, ZERO_PAIR, a + b) == Failed(InvalidLength)
  {
    hide VarintFrom, SkipFrom;
    assert Record(1, []) == a;
    hide Varint;
    RecordSets(KVPAIR, ZERO_PAIR, 1, [], ZERO_PAIR);
    LongLength(b);
    assert EndAt(KVPAIR, b, 0) == Some(MAX_INT) && FieldAt(KVPAIR, ZERO_PAIR, b, 0) == Stop(UnexpectedEOF);
    hide EndAt, FieldAt;
    DecodeConcat(KVPAIR, ZERO_PAIR, a, b);
  }
}
