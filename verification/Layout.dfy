/** The fields of an encoded message, one after the other: what is written for a message,
    and what reading any such list of fields makes of one. */
module Layout {
  import opened Utf8
  import opened Io
  import opened WireFormat
  import opened Skipping
  import opened Decoding
  import opened Messages

  /** A field on the wire: its number, and a payload or a number. */
  datatype Field = BytesF(num: nat, payload: seq<byte>) | VarintF(num: nat, value: nat)

  datatype Cutting = Cut(field: Field, next: nat) | NoField

  /** The field that starts at i. */
  function FieldOf(s: seq<byte>, i: nat): (c: Cutting)
    ensures c.Cut? ==> i < c.next <= |s| && (c.field.BytesF? ==> |c.field.payload| <= |s|)
  {
    match VarintAt(s, i)
    case Err(_) => NoField
    case Ok(tag, j) =>
      if !(1 <= tag / 8 < 0x2000_0000) then NoField
      else if tag % 8 == 2 then
        match PayloadAt(s, j) case Err(_) => NoField case Ok(p, k) => Cut(BytesF(tag / 8, p), k)
      else if tag % 8 == 0 then
        match VarintAt(s, j) case Err(_) => NoField case Ok(v, k) => Cut(VarintF(tag / 8, v), k)
      else NoField
  }

  /** All fields from i on, if s is nothing but fields of these two kinds. */
  function FieldsFrom(s: seq<byte>, i: nat): (r: Option<seq<Field>>)
    ensures r.Some? ==> forall f | f in r.value && f.BytesF? :: |f.payload| <= |s|
    decreases if i < |s| then |s| - i else 0
  {
    if i >= |s| then Some([])
    else
      match FieldOf(s, i)
      case NoField => None
      case Cut(f, k) =>
        match FieldsFrom(s, k) case None => None case Some(fs) => Some([f] + fs)
  }

  function FieldsIn(s: seq<byte>): Option<seq<Field>> {
    FieldsFrom(s, 0)
  }

  // ---- What is written ----

  /** The fields that are written: not those that are empty or zero. */
  function Present(fs: seq<Field>): seq<Field> {
    if fs == [] then []
    else
      var absent := match fs[0] case BytesF(_, p) => p == [] case VarintF(_, v) => v == 0;
      (if absent then [] else [fs[0]]) + Present(fs[1..])
  }

  lemma FieldShifts(a: seq<byte>, b: seq<byte>, i: nat)
    requires |a| + |b| <= MAX_INT
    ensures FieldOf(a + b, |a| + i)
         == match FieldOf(b, i) case NoField => NoField case Cut(f, k) => Cut(f, |a| + k)
  {
    hide VarintFrom;
    VarintShifts(a, b, i, 0, 0);
    var tag := VarintAt(b, i);
    if tag.Ok? {
      PayloadShifts(a, b, tag.next);
      VarintShifts(a, b, tag.next, 0, 0);
    }
  }

  lemma {:induction false} FieldsShift(a: seq<byte>, b: seq<byte>, i: nat)
    requires |a| + |b| <= MAX_INT
    ensures FieldsFrom(a + b, |a| + i) == FieldsFrom(b, i)
    decreases if i < |b| then |b| - i else 0
  {
    hide FieldOf;
    if i < |b| {
      FieldShifts(a, b, i);
      var c := FieldOf(b, i);
      if c.Cut? { FieldsShift(a, b, c.next); }
    }
  }

  lemma FieldsAfter(a: seq<byte>, b: seq<byte>, f: Field)
    requires |a| + |b| <= MAX_INT && a != [] && FieldOf(a + b, 0) == Cut(f, |a|)
    ensures FieldsIn(a + b) == match FieldsIn(b) case None => None case Some(fs) => Some([f] + fs)
  {
    hide FieldOf;
    FieldsShift(a, b, 0);
  }

  lemma RecordIsField(num: nat, p: seq<byte>, b: seq<byte>)
    requires 1 <= num <= 15 && |Record(num, p)| + |b| <= MAX_INT
    ensures FieldsIn(Record(num, p) + b)
         == match FieldsIn(b) case None => None case Some(fs) => Some([BytesF(num, p)] + fs)
  {
    hide VarintFrom, Varint;
    var s, tag := Record(num, p) + b, (num * 8 + 2) as byte;
    assert s == [] + [tag] + (Varint(|p|) + p + b) == [tag] + Varint(|p|) + (p + b);
    TagReads([], tag, Varint(|p|) + p + b);
    VarintRoundTrip([tag], |p|, p + b);
    var j := 1 + |Varint(|p|)|;
    assert s[j..j + |p|] == p;
    FieldsAfter(Record(num, p), b, BytesF(num, p));
  }

  /** One field, written or left out, in front of others. */
  lemma OptionalIsField(num: nat, p: seq<byte>, b: seq<byte>, fs: seq<Field>)
    requires 1 <= num <= 15 && |Optional(num, p)| + |b| <= MAX_INT && FieldsIn(b) == Some(Present(fs))
    ensures FieldsIn(Optional(num, p) + b) == Some(Present([BytesF(num, p)] + fs))
  {
    hide FieldsIn, Record;
    assert ([BytesF(num, p)] + fs)[1..] == fs;
    if p == [] {
      assert [] + b == b && [] + Present(fs) == Present(fs);
    } else {
      RecordIsField(num, p, b);
    }
  }

  lemma NoFields()
    ensures FieldsIn([]) == Some(Present([])) == Some([])
  {
  }

  lemma KVPairLayout(m: KVPairValue)
    requires |EncodeKVPair(m)| <= MAX_INT
    ensures FieldsIn(EncodeKVPair(m)) == Some(Present([BytesF(1, m.key), BytesF(2, m.value)]))
  {
    hide Optional, FieldsIn, Present;
    NoFields();
    assert Optional(2, m.value) + [] == Optional(2, m.value);
    OptionalIsField(2, m.value, [], []);
    assert [BytesF(2, m.value)] + [] == [BytesF(2, m.value)];
    OptionalIsField(1, m.key, Optional(2, m.value), [BytesF(2, m.value)]);
    assert [BytesF(1, m.key)] + [BytesF(2, m.value)] == [BytesF(1, m.key), BytesF(2, m.value)];
  }

  lemma ParamsLayout(m: ParamsValue)
    requires |EncodeParams(m)| <= MAX_INT
    ensures FieldsIn(EncodeParams(m))
         == Some(Present([BytesF(1, m.sysnamesPkgpath), BytesF(2, m.chainDomain), BytesF(3, m.defaultDeposit),
                          BytesF(4, m.storagePrice), BytesF(5, m.storageFeeCollector)]))
  {
    hide Optional, FieldsIn, Present;
    var f1, f2, f3 := BytesF(1, m.sysnamesPkgpath), BytesF(2, m.chainDomain), BytesF(3, m.defaultDeposit);
    var f4, f5 := BytesF(4, m.storagePrice), BytesF(5, m.storageFeeCollector);
    var e5, e4, e3 := Optional(5, f5.payload), Optional(4, f4.payload), Optional(3, f3.payload);
    NoFields();
    assert e5 + [] == e5;
    OptionalIsField(5, f5.payload, [], []);
    assert [f5] + [] == [f5];
    OptionalIsField(4, f4.payload, e5, [f5]);
    assert [f4] + [f5] == [f4, f5];
    OptionalIsField(3, f3.payload, e4 + e5, [f4, f5]);
    assert [f3] + [f4, f5] == [f3, f4, f5];
    OptionalIsField(2, f2.payload, e3 + (e4 + e5), [f3, f4, f5]);
    assert [f2] + [f3, f4, f5] == [f2, f3, f4, f5];
    OptionalIsField(1, f1.payload, Optional(2, f2.payload) + (e3 + (e4 + e5)), [f2, f3, f4, f5]);
    assert [f1] + [f2, f3, f4, f5] == [f1, f2, f3, f4, f5];
  }

  lemma GasIsField(gas: nat)
    requires gas < TWO_64
    ensures FieldsIn(if gas == 0 then [] else [0x18] + Varint(gas)) == Some(Present([VarintF(3, gas)]))
  {
    hide VarintFrom, Varint;
    NoFields();
    assert [VarintF(3, gas)][1..] == [];
    if gas == 0 {
      assert [] + [] == Present([VarintF(3, gas)]);
    } else {
      var s := [0x18] + Varint(gas);
      assert s == [] + [0x18] + Varint(gas) == [0x18] + Varint(gas) + [] == s + [];
      TagReads([], 0x18, Varint(gas));
      VarintRoundTrip([0x18], gas, []);
      AtMostTen(gas);
      FieldsAfter(s, [], VarintF(3, gas));
    }
  }

  lemma EvalLayout(m: EvalValue)
    requires |EncodeEval(m)| <= MAX_INT && m.maxGas < TWO_64
    ensures FieldsIn(EncodeEval(m))
         == Some(Present([BytesF(1, m.pkgPath), BytesF(2, m.expr), VarintF(3, m.maxGas)]))
  {
    hide Optional, FieldsIn, Present, Varint;
    var gas := if m.maxGas == 0 then [] else [0x18] + Varint(m.maxGas);
    GasIsField(m.maxGas);
    OptionalIsField(2, m.expr, gas, [VarintF(3, m.maxGas)]);
    assert [BytesF(2, m.expr)] + [VarintF(3, m.maxGas)] == [BytesF(2, m.expr), VarintF(3, m.maxGas)];
    OptionalIsField(1, m.pkgPath, Optional(2, m.expr) + gas, [BytesF(2, m.expr), VarintF(3, m.maxGas)]);
    assert [BytesF(1, m.pkgPath)] + [BytesF(2, m.expr), VarintF(3, m.maxGas)]
        == [BytesF(1, m.pkgPath), BytesF(2, m.expr), VarintF(3, m.maxGas)];
  }

  /** One field for each payload. */
  function Repeated(num: nat, payloads: seq<seq<byte>>): (fs: seq<Field>)
    ensures |fs| == |payloads| && forall k | 0 <= k < |fs| :: fs[k] == BytesF(num, payloads[k])
  {
    if payloads == [] then [] else [BytesF(num, payloads[0])] + Repeated(num, payloads[1..])
  }

  lemma {:induction false} ArgsAreFields(args: seq<seq<byte>>)
    requires |EncodeArgs(args)| <= MAX_INT
    ensures FieldsIn(EncodeArgs(args)) == Some(Repeated(2, args))
  {
    hide FieldsIn, Record;
    NoFields();
    if args != [] {
      ArgsAreFields(args[1..]);
      RecordIsField(2, args[0], EncodeArgs(args[1..]));
    }
  }

  /** Strings of a repeated field are written even when they are empty. */
  lemma RenderLayout(m: RenderValue)
    requires |EncodeRender(m)| <= MAX_INT
    ensures FieldsIn(EncodeRender(m))
         == Some(Present([BytesF(1, m.pkgPath)]) + Repeated(2, m.args))
  {
    hide FieldsIn, Record;
    ArgsAreFields(m.args);
    assert [BytesF(1, m.pkgPath)][1..] == [];
    var fs := Repeated(2, m.args);
    if m.pkgPath == [] {
      assert [] + EncodeArgs(m.args) == EncodeArgs(m.args) && [] + [] + fs == fs;
    } else {
      RecordIsField(1, m.pkgPath, EncodeArgs(m.args));
      assert [BytesF(1, m.pkgPath)] + [] == [BytesF(1, m.pkgPath)];
    }
  }

  /** Each pair is one field, its payload the two fields of the pair. */
  lemma {:induction false} PairsAreFields(pairs: seq<KVPairValue>)
    requires |EncodePairs(pairs)| <= MAX_INT
    ensures var fs := FieldsIn(EncodePairs(pairs));
      && fs.Some? && |fs.value| == |pairs|
      && forall k | 0 <= k < |pairs| ::
           && fs.value[k].BytesF? && fs.value[k].num == 3
           && FieldsIn(fs.value[k].payload) == Some(Present([BytesF(1, pairs[k].key), BytesF(2, pairs[k].value)]))
  {
    hide FieldsIn, Record, Present, EncodeKVPair;
    NoFields();
    if pairs != [] {
      var e := EncodeKVPair(pairs[0]);
      PayloadFits(3, e);
      PairsAreFields(pairs[1..]);
      RecordIsField(3, e, EncodePairs(pairs[1..]));
      KVPairLayout(pairs[0]);
    }
  }

  lemma PayloadFits(num: nat, p: seq<byte>)
    requires 1 <= num <= 15
    ensures |p| < |Record(num, p)|
  {
  }

  /** The parameters come first, present even when they are empty; then the realm
      parameters, if there are any; then one field for each pair, in order. */
  predicate LaysOutGenesis(s: seq<byte>, m: GenesisValue) {
    var fs := FieldsIn(s);
    && fs.Some?
    && var head := 1 + |Present([BytesF(2, m.realmParams)])|;
       && |fs.value| == head + |m.state|
       && fs.value[0].BytesF? && fs.value[0].num == 1
       && FieldsIn(fs.value[0].payload)
          == Some(Present([BytesF(1, m.params.sysnamesPkgpath), BytesF(2, m.params.chainDomain),
                           BytesF(3, m.params.defaultDeposit), BytesF(4, m.params.storagePrice),
                           BytesF(5, m.params.storageFeeCollector)]))
       && fs.value[1..head] == Present([BytesF(2, m.realmParams)])
       && forall k | 0 <= k < |m.state| ::
            var f := fs.value[head + k];
            && f.BytesF? && f.num == 3
            && FieldsIn(f.payload) == Some(Present([BytesF(1, m.state[k].key), BytesF(2, m.state[k].value)]))
  }

  lemma GenesisLayout(m: GenesisValue)
    requires |EncodeGenesis(m)| <= MAX_INT
    ensures LaysOutGenesis(EncodeGenesis(m), m)
  {
    hide FieldsIn, Record, EncodePairs, EncodeParams, Present;
    var e, pairs := EncodeParams(m.params), EncodePairs(m.state);
    PayloadFits(1, e);
    PairsAreFields(m.state);
    ParamsLayout(m.params);
    RecordIsField(1, e, Optional(2, m.realmParams) + pairs);
    RealmLayout(m.realmParams, pairs);
    ThreeParts(BytesF(1, e), Present([BytesF(2, m.realmParams)]), FieldsIn(pairs).value);
  }

  lemma ThreeParts(f: Field, mid: seq<Field>, tail: seq<Field>)
    ensures var fs := [f] + (mid + tail);
      && |fs| == 1 + |mid| + |tail| && fs[0] == f && fs[1..1 + |mid|] == mid
      && forall k | 0 <= k < |tail| :: fs[1 + |mid| + k] == tail[k]
  {
  }

  lemma RealmLayout(realmParams: seq<byte>, pairs: seq<byte>)
    requires |Optional(2, realmParams)| + |pairs| <= MAX_INT && FieldsIn(pairs).Some?
    ensures FieldsIn(Optional(2, realmParams) + pairs)
         == Some(Present([BytesF(2, realmParams)]) + FieldsIn(pairs).value)
  {
    hide FieldsIn, Record;
    assert [BytesF(2, realmParams)][1..] == [];
    var fs := FieldsIn(pairs).value;
    if realmParams == [] {
      assert [] + pairs == pairs && [] + [] + fs == fs;
    } else {
      RecordIsField(2, realmParams, pairs);
      assert [BytesF(2, realmParams)] + [] == [BytesF(2, realmParams)];
    }
  }

  // ---- What is read ----

  /** The payload of the last field of that number, or what was there before. */
  function Last(fs: seq<Field>, num: nat, before: seq<byte>): seq<byte> {
    if fs == [] then before
    else Last(fs[1..], num, if fs[0].BytesF? && fs[0].num == num then fs[0].payload else before)
  }

  function LastValue(fs: seq<Field>, num: nat, before: nat): nat {
    if fs == [] then before
    else LastValue(fs[1..], num, if fs[0].VarintF? && fs[0].num == num then fs[0].value else before)
  }

  /** The payloads of all fields of that number, in order. */
  function Payloads(fs: seq<Field>, num: nat): seq<seq<byte>> {
    if fs == [] then []
    else (if fs[0].BytesF? && fs[0].num == num then [fs[0].payload] else []) + Payloads(fs[1..], num)
  }

  /** Fields 1 to n have payloads. */
  predicate BytesUpTo(fs: seq<Field>, n: nat) {
    forall f | f in fs :: 1 <= f.num <= n ==> f.BytesF?
  }

  /** Each field does to the message what the schema says, one after the other; unknown
      fields do nothing. */
  function Folded<M>(sc: Schema<M>, m: M, fs: seq<Field>): Result<M> {
    if fs == [] then Done(m)
    else
      match (sc.kind(fs[0].num), fs[0])
      case (UnknownField, _) => Folded(sc, m, fs[1..])
      case (BytesField, BytesF(num, p)) =>
        (match sc.setBytes(m, num, p) case Failed(e) => Failed(e) case Done(m1) => Folded(sc, m1, fs[1..]))
      case (VarintField, VarintF(num, v)) => Folded(sc, sc.setVarint(m, num, v), fs[1..])
      case (_, _) => Failed(WrongWireType)
  }

  lemma UnknownFieldReads(s: seq<byte>, i: nat)
    requires i < |s| <= MAX_INT && FieldOf(s, i).Cut?
    ensures SkipFrom(s[i..], 0, 0) == Past(FieldOf(s, i).next - i)
  {
    hide VarintFrom;
    var b := s[i..];
    assert s[..i] + b == s;
    VarintShifts(s[..i], b, 0, 0, 0);
    var tag := VarintAt(b, 0);
    PayloadShifts(s[..i], b, tag.next);
    VarintShifts(s[..i], b, tag.next, 0, 0);
  }

  lemma FieldReads<M>(sc: Schema<M>, m: M, s: seq<byte>, i: nat)
    requires i < |s| <= MAX_INT && FieldOf(s, i).Cut?
    ensures var f, k := FieldOf(s, i).field, FieldOf(s, i).next;
      FieldAt(sc, m, s, i)
      == match (sc.kind(f.num), f)
         case (UnknownField, _) => Next(m, k)
         case (BytesField, BytesF(num, p)) =>
           (match sc.setBytes(m, num, p) case Failed(e) => Stop(e) case Done(m1) => Next(m1, k))
         case (VarintField, VarintF(num, v)) => Next(sc.setVarint(m, num, v), k)
         case (_, _) => Stop(WrongWireType)
  {
    UnknownFieldReads(s, i);
    SmallInt32(VarintAt(s, i).value / 8);
    hide VarintAt, PayloadAt, SkipFrom, ToInt32;
  }

  lemma SmallInt32(x: nat)
    requires x < 0x2000_0000
    ensures ToInt32(x) == x
  {
  }

  lemma {:induction false} DecodeFolds<M>(sc: Schema<M>, m: M, s: seq<byte>, i: nat)
    requires |s| <= MAX_INT && FieldsFrom(s, i).Some?
    ensures DecodeFrom(sc, m, s, i) == Folded(sc, m, FieldsFrom(s, i).value)
    decreases if i < |s| then |s| - i else 0
  {
    hide FieldOf, FieldAt;
    if i < |s| {
      FieldReads(sc, m, s, i);
      var k, fs := FieldOf(s, i).next, FieldsFrom(s, i).value;
      assert fs[1..] == FieldsFrom(s, k).value;
      var r := FieldAt(sc, m, s, i);
      if r.Next? { DecodeFolds(sc, r.message, s, k); }
    }
  }

  // For every list of fields, in any order, repeated or missing, with unknown ones among
  // them: a later field replaces an earlier one, unless it is a repeated one.

  lemma {:induction false} KVPairFolds(m: KVPairValue, fs: seq<Field>)
    ensures Folded(KVPAIR, m, fs)
         == if BytesUpTo(fs, 2) then Done(KVPairValue(Last(fs, 1, m.key), Last(fs, 2, m.value)))
            else Failed(WrongWireType)
    decreases |fs|
  {
    if fs != [] {
      UpToSplits(fs, 2);
      var f := fs[0];
      if f.BytesF? && f.num == 1 {
        KVPairFolds(m.(key := f.payload), fs[1..]);
      } else if f.BytesF? && f.num == 2 {
        KVPairFolds(m.(value := f.payload), fs[1..]);
      } else {
        KVPairFolds(m, fs[1..]);
      }
    }
  }

  lemma UpToSplits(fs: seq<Field>, n: nat)
    requires fs != []
    ensures BytesUpTo(fs, n) <==> (1 <= fs[0].num <= n ==> fs[0].BytesF?) && BytesUpTo(fs[1..], n)
  {
    assert fs == [fs[0]] + fs[1..];
  }

  lemma KVPairReads(m: KVPairValue, s: seq<byte>)
    requires |s| <= MAX_INT && FieldsIn(s).Some?
    ensures var fs := FieldsIn(s).value;
      Decode(KVPAIR, m, s)
      == if BytesUpTo(fs, 2) then Done(KVPairValue(Last(fs, 1, m.key), Last(fs, 2, m.value)))
         else Failed(WrongWireType)
  {
    hide Folded, DecodeFrom;
    DecodeFolds(KVPAIR, m, s, 0);
    KVPairFolds(m, FieldsIn(s).value);
  }

  /** Parameters with the fields fs read into them. */
  function Merged(m: ParamsValue, fs: seq<Field>): ParamsValue {
    ParamsValue(Last(fs, 1, m.sysnamesPkgpath), Last(fs, 2, m.chainDomain), Last(fs, 3, m.defaultDeposit),
                Last(fs, 4, m.storagePrice), Last(fs, 5, m.storageFeeCollector))
  }

  lemma {:induction false} ParamsFolds(m: ParamsValue, fs: seq<Field>)
    ensures Folded(PARAMS, m, fs) == if BytesUpTo(fs, 5) then Done(Merged(m, fs)) else Failed(WrongWireType)
    decreases |fs|
  {
    if fs != [] {
      UpToSplits(fs, 5);
      var f := fs[0];
      if f.BytesF? && 1 <= f.num <= 5 {
        ParamsFolds(SetParams(m, f.num, f.payload).message, fs[1..]);
      } else {
        ParamsFolds(m, fs[1..]);
      }
    }
  }

  lemma ParamsReads(m: ParamsValue, s: seq<byte>)
    requires |s| <= MAX_INT && FieldsIn(s).Some?
    ensures var fs := FieldsIn(s).value;
      Decode(PARAMS, m, s)
      == if BytesUpTo(fs, 5) then
           Done(ParamsValue(Last(fs, 1, m.sysnamesPkgpath), Last(fs, 2, m.chainDomain), Last(fs, 3, m.defaultDeposit),
                            Last(fs, 4, m.storagePrice), Last(fs, 5, m.storageFeeCollector)))
         else Failed(WrongWireType)
  {
    hide Folded, DecodeFrom;
    DecodeFolds(PARAMS, m, s, 0);
    ParamsFolds(m, FieldsIn(s).value);
  }

  /** Fields 1 and 2 have payloads, field 3 is a number. */
  predicate EvalTypes(fs: seq<Field>) {
    forall f | f in fs :: (1 <= f.num <= 2 ==> f.BytesF?) && (f.num == 3 ==> f.VarintF?)
  }

  lemma {:induction false} EvalFolds(m: EvalValue, fs: seq<Field>)
    ensures Folded(EVAL, m, fs)
         == if EvalTypes(fs) then
              Done(EvalValue(Last(fs, 1, m.pkgPath), Last(fs, 2, m.expr), LastValue(fs, 3, m.maxGas)))
            else Failed(WrongWireType)
    decreases |fs|
  {
    if fs != [] {
      assert fs == [fs[0]] + fs[1..];
      var f := fs[0];
      if f.BytesF? && f.num == 1 {
        EvalFolds(m.(pkgPath := f.payload), fs[1..]);
      } else if f.BytesF? && f.num == 2 {
        EvalFolds(m.(expr := f.payload), fs[1..]);
      } else if f.VarintF? && f.num == 3 {
        EvalFolds(m.(maxGas := f.value), fs[1..]);
      } else {
        EvalFolds(m, fs[1..]);
      }
    }
  }

  lemma EvalReads(m: EvalValue, s: seq<byte>)
    requires |s| <= MAX_INT && FieldsIn(s).Some?
    ensures var fs := FieldsIn(s).value;
      Decode(EVAL, m, s)
      == if EvalTypes(fs) then
           Done(EvalValue(Last(fs, 1, m.pkgPath), Last(fs, 2, m.expr), LastValue(fs, 3, m.maxGas)))
         else Failed(WrongWireType)
  {
    hide Folded, DecodeFrom;
    DecodeFolds(EVAL, m, s, 0);
    EvalFolds(m, FieldsIn(s).value);
  }

  lemma {:induction false} RenderFolds(m: RenderValue, fs: seq<Field>)
    ensures Folded(RENDER, m, fs)
         == if BytesUpTo(fs, 2) then Done(RenderValue(Last(fs, 1, m.pkgPath), m.args + Payloads(fs, 2)))
            else Failed(WrongWireType)
    decreases |fs|
  {
    if fs == [] {
      assert m.args + [] == m.args;
    } else {
      UpToSplits(fs, 2);
      var f, rest := fs[0], Payloads(fs[1..], 2);
      assert [] + rest == rest;
      if f.BytesF? && f.num == 1 {
        RenderFolds(m.(pkgPath := f.payload), fs[1..]);
      } else if f.BytesF? && f.num == 2 {
        RenderFolds(m.(args := m.args + [f.payload]), fs[1..]);
        assert m.args + [f.payload] + rest == m.args + ([f.payload] + rest);
      } else {
        RenderFolds(m, fs[1..]);
      }
    }
  }

  lemma RenderReads(m: RenderValue, s: seq<byte>)
    requires |s| <= MAX_INT && FieldsIn(s).Some?
    ensures var fs := FieldsIn(s).value;
      Decode(RENDER, m, s)
      == if BytesUpTo(fs, 2) then Done(RenderValue(Last(fs, 1, m.pkgPath), m.args + Payloads(fs, 2)))
         else Failed(WrongWireType)
  {
    hide Folded, DecodeFrom;
    DecodeFolds(RENDER, m, s, 0);
    RenderFolds(m, FieldsIn(s).value);
  }

  /** Each payload is a list of fields, of which fields 1 to n have payloads. */
  predicate Nest(payloads: seq<seq<byte>>, n: nat) {
    forall p | p in payloads :: FieldsIn(p).Some? && BytesUpTo(FieldsIn(p).value, n)
  }

  /** The fields of all payloads, in order. */
  function Inner(payloads: seq<seq<byte>>): seq<Field>
    requires forall p | p in payloads :: FieldsIn(p).Some?
  {
    if payloads == [] then [] else FieldsIn(payloads[0]).value + Inner(payloads[1..])
  }

  /** The pairs that the payloads are, one each. */
  function Pairs(payloads: seq<seq<byte>>): seq<KVPairValue>
    requires forall p | p in payloads :: FieldsIn(p).Some?
  {
    if payloads == [] then []
    else
      var fs := FieldsIn(payloads[0]).value;
      [KVPairValue(Last(fs, 1, []), Last(fs, 2, []))] + Pairs(payloads[1..])
  }

  lemma {:induction false} LastConcat(a: seq<Field>, b: seq<Field>, num: nat, before: seq<byte>)
    ensures Last(a + b, num, before) == Last(b, num, Last(a, num, before))
  {
    if a == [] {
      assert a + b == b;
    } else {
      assert (a + b)[1..] == a[1..] + b;
      LastConcat(a[1..], b, num, if a[0].BytesF? && a[0].num == num then a[0].payload else before);
    }
  }

  lemma MergedConcat(m: ParamsValue, a: seq<Field>, b: seq<Field>)
    ensures Merged(m, a + b) == Merged(Merged(m, a), b)
  {
    hide Last;
    LastConcat(a, b, 1, m.sysnamesPkgpath);
    LastConcat(a, b, 2, m.chainDomain);
    LastConcat(a, b, 3, m.defaultDeposit);
    LastConcat(a, b, 4, m.storagePrice);
    LastConcat(a, b, 5, m.storageFeeCollector);
  }

  /** A genesis state can be read from these fields. */
  predicate GenesisTypes(fs: seq<Field>) {
    BytesUpTo(fs, 3) && Nest(Payloads(fs, 1), 5) && Nest(Payloads(fs, 3), 2)
  }

  lemma PayloadsStep(fs: seq<Field>, num: nat)
    requires fs != []
    ensures Payloads(fs, num)
         == if fs[0].BytesF? && fs[0].num == num then [fs[0].payload] + Payloads(fs[1..], num)
            else Payloads(fs[1..], num)
  {
    assert [] + Payloads(fs[1..], num) == Payloads(fs[1..], num);
  }

  lemma NestStep(p: seq<byte>, payloads: seq<seq<byte>>, n: nat)
    ensures Nest([p] + payloads, n)
        <==> FieldsIn(p).Some? && BytesUpTo(FieldsIn(p).value, n) && Nest(payloads, n)
  {
    assert forall q | q in [p] + payloads :: q == p || q in payloads;
    assert p in [p] + payloads && forall q | q in payloads :: q in [p] + payloads;
  }

  lemma GenesisTypesStep(fs: seq<Field>)
    requires fs != [] && GenesisTypes(fs)
    ensures var f := fs[0];
      && GenesisTypes(fs[1..]) && (1 <= f.num <= 3 ==> f.BytesF?)
      && (f.num == 1 ==> FieldsIn(f.payload).Some? && BytesUpTo(FieldsIn(f.payload).value, 5))
      && (f.num == 3 ==> FieldsIn(f.payload).Some? && BytesUpTo(FieldsIn(f.payload).value, 2))
  {
    UpToSplits(fs, 3);
    PayloadsStep(fs, 1);
    PayloadsStep(fs, 3);
    var f := fs[0];
    hide FieldsIn, BytesUpTo, Nest, Payloads;
    if f.BytesF? {
      NestStep(f.payload, Payloads(fs[1..], 1), 5);
      NestStep(f.payload, Payloads(fs[1..], 3), 2);
    }
  }

  lemma OnePair(p: seq<byte>)
    requires FieldsIn(p).Some?
    ensures var fs := FieldsIn(p).value; Pairs([p]) == [KVPairValue(Last(fs, 1, []), Last(fs, 2, []))]
  {
    hide FieldsIn, Last;
    assert [p][1..] == [];
  }

  /** One field of a genesis state: parameters are merged into those there are, a pair
      is read by itself and appended. */
  lemma GenesisSets(m: GenesisValue, num: nat, p: seq<byte>)
    requires 1 <= num <= 3 && |p| <= MAX_INT
    requires num == 1 ==> FieldsIn(p).Some? && BytesUpTo(FieldsIn(p).value, 5)
    requires num == 3 ==> FieldsIn(p).Some? && BytesUpTo(FieldsIn(p).value, 2)
    ensures SetGenesis(m, num, p)
         == if num == 1 then Done(m.(params := Merged(m.params, FieldsIn(p).value)))
            else if num == 2 then Done(m.(realmParams := p))
            else Done(m.(state := m.state + Pairs([p])))
  {
    hide DecodeFrom, FieldsIn, BytesUpTo, Last, Pairs;
    if num == 1 { ParamsReads(m.params, p); }
    if num == 3 {
      KVPairReads(ZERO_PAIR, p);
      OnePair(p);
    }
  }

  lemma GenesisNests(fs: seq<Field>)
    requires GenesisTypes(fs)
    ensures Nest(Payloads(fs, 1), 5) && Nest(Payloads(fs, 3), 2)
  {
  }

  /** The genesis state m with the fields fs read into it. */
  function GenesisOf(m: GenesisValue, fs: seq<Field>): GenesisValue
    requires GenesisTypes(fs)
  {
    GenesisNests(fs);
    GenesisValue(Merged(m.params, Inner(Payloads(fs, 1))), Last(fs, 2, m.realmParams),
                 m.state + Pairs(Payloads(fs, 3)))
  }

  lemma GenesisOfNothing(m: GenesisValue)
    ensures GenesisTypes([]) && GenesisOf(m, []) == m
  {
    assert m.state + [] == m.state;
  }

  lemma PairsStep(state: seq<KVPairValue>, p: seq<byte>, payloads: seq<seq<byte>>)
    requires FieldsIn(p).Some? && forall q | q in payloads :: FieldsIn(q).Some?
    ensures state + Pairs([p]) + Pairs(payloads) == state + Pairs([p] + payloads)
  {
    hide FieldsIn, Last;
    assert [p][1..] == [] && ([p] + payloads)[1..] == payloads;
  }

  lemma GenesisOfStep(m: GenesisValue, fs: seq<Field>)
    requires fs != [] && GenesisTypes(fs)
    ensures GenesisTypes(fs[1..])
    ensures var f := fs[0];
      var m1 := if f.num == 1 then m.(params := Merged(m.params, FieldsIn(f.payload).value))
                else if f.num == 2 then m.(realmParams := f.payload)
                else if f.num == 3 then m.(state := m.state + Pairs([f.payload]))
                else m;
      GenesisOf(m, fs) == GenesisOf(m1, fs[1..])
  {
    GenesisTypesStep(fs);
    PayloadsStep(fs, 1);
    PayloadsStep(fs, 3);
    GenesisNests(fs);
    GenesisNests(fs[1..]);
    var f := fs[0];
    if f.num == 1 { MergedConcat(m.params, FieldsIn(f.payload).value, Inner(Payloads(fs[1..], 1))); }
    if f.num == 3 { PairsStep(m.state, f.payload, Payloads(fs[1..], 3)); }
    hide FieldsIn, BytesUpTo, Payloads, GenesisTypes, Merged, Pairs;
  }

  lemma {:induction false} GenesisFolds(m: GenesisValue, fs: seq<Field>)
    requires GenesisTypes(fs) && forall f | f in fs && f.BytesF? :: |f.payload| <= MAX_INT
    ensures Folded(GENESIS, m, fs) == Done(GenesisOf(m, fs))
    decreases |fs|
  {
    hide FieldsIn, BytesUpTo, SetGenesis, GenesisTypes, GenesisOf, Last;
    if fs == [] {
      GenesisOfNothing(m);
    } else {
      GenesisTypesStep(fs);
      GenesisOfStep(m, fs);
      var f := fs[0];
      if 1 <= f.num <= 3 {
        GenesisSets(m, f.num, f.payload);
        GenesisFolds(SetGenesis(m, f.num, f.payload).message, fs[1..]);
      } else {
        GenesisFolds(m, fs[1..]);
      }
    }
  }

  lemma GenesisReads(m: GenesisValue, s: seq<byte>)
    requires |s| <= MAX_INT && FieldsIn(s).Some? && GenesisTypes(FieldsIn(s).value)
    ensures var fs := FieldsIn(s).value;
      && Nest(Payloads(fs, 1), 5) && Nest(Payloads(fs, 3), 2)
      && var inner := Inner(Payloads(fs, 1));
         Decode(GENESIS, m, s)
         == Done(GenesisValue(
                   ParamsValue(Last(inner, 1, m.params.sysnamesPkgpath), Last(inner, 2, m.params.chainDomain),
                               Last(inner, 3, m.params.defaultDeposit), Last(inner, 4, m.params.storagePrice),
                               Last(inner, 5, m.params.storageFeeCollector)),
                   Last(fs, 2, m.realmParams), m.state + Pairs(Payloads(fs, 3))))
  {
    hide Folded, DecodeFrom;
    DecodeFolds(GENESIS, m, s, 0);
    GenesisFolds(m, FieldsIn(s).value);
  }
}
