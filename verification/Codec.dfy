/** The generated codec as it runs: encoders that fill a buffer from back to front,
    decoders that move a cursor and update the message in place. */
module Codec {
  import opened Utf8
  import opened Io
  import opened WireFormat
  import opened Skipping
  import opened Decoding
  import opened Messages
  import opened Layout

  /** s with the bytes from lo on overwritten by e. */
  function Splice(s: seq<byte>, lo: nat, e: seq<byte>): (r: seq<byte>)
    requires lo + |e| <= |s|
    ensures |r| == |s|
  {
    s[..lo] + e + s[lo + |e|..]
  }

  /** Writing e1 and then, just before it, e0. */
  lemma SpliceBefore(s: seq<byte>, lo: nat, e0: seq<byte>, e1: seq<byte>)
    requires lo + |e0| + |e1| <= |s|
    ensures Splice(Splice(s, lo + |e0|, e1), lo, e0) == Splice(s, lo, e0 + e1)
  {
  }

  lemma SplicedPart(s: seq<byte>, lo: nat, e: seq<byte>)
    requires lo + |e| <= |s|
    ensures Splice(s, lo, e)[lo..lo + |e|] == e
  {
  }

  lemma SpliceNothing(s: seq<byte>, lo: nat)
    requires lo <= |s|
    ensures Splice(s, lo, []) == s
  {
  }

  /** Filling from the back: dAtA is `before`, overwritten from i on by e. */
  ghost predicate Filled(dAtA: array<byte>, before: seq<byte>, i: nat, e: seq<byte>)
    reads dAtA
  {
    i + |e| <= |before| && dAtA[..] == Splice(before, i, e)
  }

  method PutVarint(dAtA: array<byte>, i: nat, v: nat, ghost before: seq<byte>, ghost tail: seq<byte>) returns (j: nat)
    requires |Varint(v)| <= i && Filled(dAtA, before, i, tail)
    modifies dAtA
    ensures j == i - |Varint(v)| && Filled(dAtA, before, j, Varint(v) + tail)
  {
    hide Varint;
    ghost var start, e := dAtA[..], Varint(v);
    j := EncodeVarint(dAtA, i, v);
    assert dAtA[..] == Splice(start, j, e);
    SpliceBefore(before, j, e, tail);
  }

  method PutByte(dAtA: array<byte>, i: nat, b: byte, ghost before: seq<byte>, ghost tail: seq<byte>) returns (j: nat)
    requires 1 <= i && Filled(dAtA, before, i, tail)
    modifies dAtA
    ensures j == i - 1 && Filled(dAtA, before, j, [b] + tail)
  {
    ghost var start := dAtA[..];
    j := i - 1;
    dAtA[j] := b;
    assert dAtA[..] == Splice(start, j, [b]);
    SpliceBefore(before, j, [b], tail);
  }

  /** The tag and length in front of a payload of `size` bytes that starts at i. */
  method PutHeader(dAtA: array<byte>, i: nat, num: nat, size: nat, ghost before: seq<byte>, ghost tail: seq<byte>)
    returns (j: nat)
    requires 1 <= num <= 15 && 1 + |Varint(size)| <= i && Filled(dAtA, before, i, tail)
    modifies dAtA
    ensures j == i - |Varint(size)| - 1
    ensures Filled(dAtA, before, j, [(num * 8 + 2) as byte] + Varint(size) + tail)
  {
    hide Varint, Splice;
    j := PutVarint(dAtA, i, size, before, tail);
    j := PutByte(dAtA, j, (num * 8 + 2) as byte, before, Varint(size) + tail);
    assert [(num * 8 + 2) as byte] + (Varint(size) + tail) == [(num * 8 + 2) as byte] + Varint(size) + tail;
  }

  /** A length-delimited field that ends just before i. */
  method PutRecord(dAtA: array<byte>, i: nat, num: nat, payload: seq<byte>,
                   ghost before: seq<byte>, ghost tail: seq<byte>)
    returns (j: nat)
    requires 1 <= num <= 15 && |Record(num, payload)| <= i && Filled(dAtA, before, i, tail)
    modifies dAtA
    ensures j == i - |Record(num, payload)|
    ensures Filled(dAtA, before, j, Record(num, payload) + tail)
  {
    hide Varint;
    ghost var start := dAtA[..];
    j := i - |payload|;
    forall k | 0 <= k < |payload| { dAtA[j + k] := payload[k]; }
    assert dAtA[..] == Splice(start, j, payload);
    SpliceBefore(before, j, payload, tail);
    j := PutHeader(dAtA, j, num, |payload|, before, payload + tail);
    assert [(num * 8 + 2) as byte] + Varint(|payload|) + (payload + tail) == Record(num, payload) + tail;
  }

  method PutOptional(dAtA: array<byte>, i: nat, num: nat, payload: seq<byte>,
                   ghost before: seq<byte>, ghost tail: seq<byte>)
    returns (j: nat)
    requires 1 <= num <= 15 && |Optional(num, payload)| <= i && Filled(dAtA, before, i, tail)
    modifies dAtA
    ensures j == i - |Optional(num, payload)|
    ensures Filled(dAtA, before, j, Optional(num, payload) + tail)
  {
    j := i;
    if |payload| > 0 { j := PutRecord(dAtA, i, num, payload, before, tail); } else { assert [] + tail == tail; }
  }

  /** The size of a field, as the Size methods add it up. */
  function SizeOfRecord(len: nat): nat {
    1 + len + Sov(len)
  }

  lemma RecordSize(num: nat, payload: seq<byte>)
    requires 1 <= num <= 15
    ensures |Record(num, payload)| == SizeOfRecord(|payload|)
  {
    SovIsLength(|payload|);
  }

  method ReadPayload(dAtA: seq<byte>, i: nat) returns (r: Parsed<seq<byte>>)
    requires |dAtA| <= MAX_INT
    ensures r == PayloadAt(dAtA, i)
  {
    hide VarintFrom;
    var length := DecodeVarint(dAtA, i);
    if length.Err? { return Err(length.error); }
    if length.value > MAX_INT { return Err(InvalidLength); }
    var post := length.next + length.value;
    if post > MAX_INT { return Err(InvalidLength); }
    if post > |dAtA| { return Err(UnexpectedEOF); }
    return Ok(dAtA[length.next..post], post);
  }

  /** What was stepped over is one well-formed field; or no well-formed field starts at i. */
  ghost predicate PassesOneField(dAtA: seq<byte>, i: nat, r: Parsed<()>)
    requires i <= |dAtA|
  {
    match r
    case Ok(_, next) => i < next <= |dAtA| && exists item :: WellFormed(item) && Bytes(item) == dAtA[i..next]
    case Err(_) => forall item | WellFormed(item) :: !(Bytes(item) <= dAtA[i..])
  }

  /** The default branch: step over the unknown field that starts at i. */
  method PassUnknown(dAtA: seq<byte>, i: nat) returns (r: Parsed<()>)
    requires i <= |dAtA| <= MAX_INT
    ensures match SkipFrom(dAtA[i..], 0, 0)
            case Bad(e) => r == Err(e)
            case Past(n) =>
              r == if i + n > MAX_INT then Err(InvalidLength)
                   else if i + n > |dAtA| then Err(UnexpectedEOF) else Ok((), i + n)
    ensures PassesOneField(dAtA, i, r)
  {
    hide SkipFrom, WellFormed, Bytes;
    var skipped := SkipField(dAtA[i..]);
    forall item | WellFormed(item) && Bytes(item) <= dAtA[i..]
      ensures skipped == Past(|Bytes(item)|)
    {
      SkipsExactlyOneField(dAtA[i..], |Bytes(item)|);
    }
    if skipped.Bad? { return Err(skipped.error); }
    var next := i + skipped.n;
    if next > MAX_INT { return Err(InvalidLength); }
    if next > |dAtA| { return Err(UnexpectedEOF); }
    SkipsExactlyOneField(dAtA[i..], skipped.n);
    assert dAtA[i..][..skipped.n] == dAtA[i..next];
    return Ok((), next);
  }

  /** The start of every turn of a field loop: a tag that may begin a field. */
  function TagAt(s: seq<byte>, i: nat): Parsed<(int, int)> {
    match VarintAt(s, i)
    case Err(e) => Err(e)
    case Ok(wire, j) =>
      if wire % 8 == 4 then Err(EndGroup)
      else if ToInt32(wire / 8) <= 0 then Err(IllegalTag)
      else Ok((ToInt32(wire / 8), wire % 8), j)
  }

  method ReadTag(dAtA: seq<byte>, i: nat) returns (r: Parsed<(int, int)>)
    ensures r == TagAt(dAtA, i)
  {
    hide VarintFrom;
    var wire := DecodeVarint(dAtA, i);
    if wire.Err? { return Err(wire.error); }
    var num, wireType := ToInt32(wire.value / 8), wire.value % 8;
    if wireType == 4 { return Err(EndGroup); }
    if num <= 0 { return Err(IllegalTag); }
    return Ok((num, wireType), wire.next);
  }

  class KVPair {
    var key: seq<byte>
    var value: seq<byte>

    constructor ()
      ensures Value() == ZERO_PAIR
    {
      key, value := [], [];
    }

    ghost function Value(): KVPairValue
      reads this
    {
      KVPairValue(key, value)
    }

    method Size() returns (n: nat)
      ensures n == |EncodeKVPair(Value())|
    {
      n := 0;
      RecordSize(1, key);
      RecordSize(2, value);
      if |key| > 0 { n := n + SizeOfRecord(|key|); }
      if |value| > 0 { n := n + SizeOfRecord(|value|); }
    }

    method MarshalToSizedBuffer(dAtA: array<byte>, end: nat) returns (n: nat)
      requires |EncodeKVPair(Value())| <= end <= dAtA.Length
      modifies dAtA
      ensures n == |EncodeKVPair(Value())|
      ensures dAtA[..] == Splice(old(dAtA[..]), end - n, EncodeKVPair(Value()))
      ensures n <= MAX_INT ==> FieldsIn(dAtA[end - n..end]) == Some(Present([BytesF(1, key), BytesF(2, value)]))
    {
      hide Optional, FieldsIn, Present;
      ghost var before := dAtA[..];
      var i := PutOptional(dAtA, end, 2, value, before, []);
      i := PutOptional(dAtA, i, 1, key, before, Optional(2, value) + []);
      assert Optional(1, key) + (Optional(2, value) + []) == EncodeKVPair(Value());
      SplicedPart(before, i, EncodeKVPair(Value()));
      if end - i <= MAX_INT { KVPairLayout(Value()); }
      return end - i;
    }

    method Unmarshal(dAtA: seq<byte>) returns (err: Option<WireError>)
      requires |dAtA| <= MAX_INT
      modifies this
      ensures match Decode(KVPAIR, old(Value()), dAtA)
              case Done(v) => err == None && Value() == v
              case Failed(e) => err == Some(e) && Value() == Left(KVPAIR, old(Value()), dAtA)
    {
      hide VarintFrom, SkipFrom, PayloadAt, PassesOneField;
      var i := 0;
      while i < |dAtA|
        invariant 0 <= i <= |dAtA|
        invariant DecodeFrom(KVPAIR, Value(), dAtA, i) == Decode(KVPAIR, old(Value()), dAtA)
        invariant LeftFrom(KVPAIR, Value(), dAtA, i) == Left(KVPAIR, old(Value()), dAtA)
      {
        var tag := ReadTag(dAtA, i);
        if tag.Err? { return Some(tag.error); }
        var num, wireType := tag.value.0, tag.value.1;
        if num == 1 || num == 2 {
          if wireType != 2 { return Some(WrongWireType); }
          var p := ReadPayload(dAtA, tag.next);
          if p.Err? { return Some(p.error); }
          if num == 1 { key := p.value; } else { value := p.value; }
          i := p.next;
        } else {
          var passed := PassUnknown(dAtA, i);
          if passed.Err? { return Some(passed.error); }
          i := passed.next;
        }
      }
      return None;
    }
  }

  class Params {
    var sysnamesPkgpath: seq<byte>
    var chainDomain: seq<byte>
    var defaultDeposit: seq<byte>
    var storagePrice: seq<byte>
    var storageFeeCollector: seq<byte>

    constructor ()
      ensures Value() == ZERO_PARAMS
    {
      sysnamesPkgpath, chainDomain, defaultDeposit, storagePrice, storageFeeCollector := [], [], [], [], [];
    }

    ghost function Value(): ParamsValue
      reads this
    {
      ParamsValue(sysnamesPkgpath, chainDomain, defaultDeposit, storagePrice, storageFeeCollector)
    }

    method Size() returns (n: nat)
      ensures n == |EncodeParams(Value())|
    {
      n := 0;
      RecordSize(1, sysnamesPkgpath);
      RecordSize(2, chainDomain);
      RecordSize(3, defaultDeposit);
      RecordSize(4, storagePrice);
      RecordSize(5, storageFeeCollector);
      hide Record;
      if |sysnamesPkgpath| > 0 { n := n + SizeOfRecord(|sysnamesPkgpath|); }
      if |chainDomain| > 0 { n := n + SizeOfRecord(|chainDomain|); }
      if |defaultDeposit| > 0 { n := n + SizeOfRecord(|defaultDeposit|); }
      if |storagePrice| > 0 { n := n + SizeOfRecord(|storagePrice|); }
      if |storageFeeCollector| > 0 { n := n + SizeOfRecord(|storageFeeCollector|); }
    }

    method MarshalToSizedBuffer(dAtA: array<byte>, end: nat) returns (n: nat)
      requires |EncodeParams(Value())| <= end <= dAtA.Length
      modifies dAtA
      ensures n == |EncodeParams(Value())|
      ensures dAtA[..] == Splice(old(dAtA[..]), end - n, EncodeParams(Value()))
      ensures n <= MAX_INT ==>
                FieldsIn(dAtA[end - n..end])
                == Some(Present([BytesF(1, sysnamesPkgpath), BytesF(2, chainDomain), BytesF(3, defaultDeposit),
                                 BytesF(4, storagePrice), BytesF(5, storageFeeCollector)]))
    {
      hide Optional, Splice, FieldsIn, Present;
      ghost var before := dAtA[..];
      ghost var e1, e2 := Optional(1, sysnamesPkgpath), Optional(2, chainDomain);
      ghost var e3, e4, e5 := Optional(3, defaultDeposit), Optional(4, storagePrice), Optional(5, storageFeeCollector);
      SpliceNothing(before, end);
      var i := PutOptional(dAtA, end, 5, storageFeeCollector, before, []);
      assert e5 + [] == e5;
      i := PutOptional(dAtA, i, 4, storagePrice, before, e5);
      i := PutOptional(dAtA, i, 3, defaultDeposit, before, e4 + e5);
      i := PutOptional(dAtA, i, 2, chainDomain, before, e3 + (e4 + e5));
      i := PutOptional(dAtA, i, 1, sysnamesPkgpath, before, e2 + (e3 + (e4 + e5)));
      SplicedPart(before, i, EncodeParams(Value()));
      if end - i <= MAX_INT { ParamsLayout(Value()); }
      return end - i;
    }

    method Unmarshal(dAtA: seq<byte>) returns (err: Option<WireError>)
      requires |dAtA| <= MAX_INT
      modifies this
      ensures match Decode(PARAMS, old(Value()), dAtA)
              case Done(v) => err == None && Value() == v
              case Failed(e) => err == Some(e) && Value() == Left(PARAMS, old(Value()), dAtA)
    {
      hide VarintFrom, SkipFrom, PayloadAt, PassesOneField;
      var i := 0;
      while i < |dAtA|
        invariant 0 <= i <= |dAtA|
        invariant DecodeFrom(PARAMS, Value(), dAtA, i) == Decode(PARAMS, old(Value()), dAtA)
        invariant LeftFrom(PARAMS, Value(), dAtA, i) == Left(PARAMS, old(Value()), dAtA)
      {
        var tag := ReadTag(dAtA, i);
        if tag.Err? { return Some(tag.error); }
        var num, wireType := tag.value.0, tag.value.1;
        if 1 <= num <= 5 {
          if wireType != 2 { return Some(WrongWireType); }
          var p := ReadPayload(dAtA, tag.next);
          if p.Err? { return Some(p.error); }
          match num {
            case 1 => sysnamesPkgpath := p.value;
            case 2 => chainDomain := p.value;
            case 3 => defaultDeposit := p.value;
            case 4 => storagePrice := p.value;
            case _ => storageFeeCollector := p.value;
          }
          i := p.next;
        } else {
          var passed := PassUnknown(dAtA, i);
          if passed.Err? { return Some(passed.error); }
          i := passed.next;
        }
      }
      return None;
    }
  }

  /** The gas limit, left out when it is zero. */
  method PutGas(dAtA: array<byte>, i: nat, gas: nat, ghost before: seq<byte>) returns (j: nat)
    requires 1 + |Varint(gas)| <= i || gas == 0
    requires Filled(dAtA, before, i, [])
    modifies dAtA
    ensures var e := if gas == 0 then [] else [0x18] + Varint(gas);
      j == i - |e| && Filled(dAtA, before, j, e)
  {
    hide Varint, Splice;
    j := i;
    if gas != 0 {
      j := PutVarint(dAtA, j, gas, before, []);
      j := PutByte(dAtA, j, 0x18, before, Varint(gas) + []);
      assert [0x18] + (Varint(gas) + []) == [0x18] + Varint(gas);
    }
  }

  class QueryEvalRequest {
    var pkgPath: seq<byte>
    var expr: seq<byte>
    var maxGas: nat

    constructor ()
      ensures Value() == ZERO_EVAL
    {
      pkgPath, expr, maxGas := [], [], 0;
    }

    ghost function Value(): EvalValue
      reads this
    {
      EvalValue(pkgPath, expr, maxGas)
    }

    method Size() returns (n: nat)
      ensures n == |EncodeEval(Value())|
    {
      n := 0;
      RecordSize(1, pkgPath);
      RecordSize(2, expr);
      SovIsLength(maxGas);
      hide Record, Sov;
      if |pkgPath| > 0 { n := n + SizeOfRecord(|pkgPath|); }
      if |expr| > 0 { n := n + SizeOfRecord(|expr|); }
      if maxGas != 0 { n := n + 1 + Sov(maxGas); }
    }

    method MarshalToSizedBuffer(dAtA: array<byte>, end: nat) returns (n: nat)
      requires |EncodeEval(Value())| <= end <= dAtA.Length
      modifies dAtA
      ensures n == |EncodeEval(Value())|
      ensures dAtA[..] == Splice(old(dAtA[..]), end - n, EncodeEval(Value()))
      ensures n <= MAX_INT && maxGas < TWO_64 ==>
                FieldsIn(dAtA[end - n..end]) == Some(Present([BytesF(1, pkgPath), BytesF(2, expr), VarintF(3, maxGas)]))
    {
      hide Optional, Varint, Splice, FieldsIn, Present;
      ghost var before := dAtA[..];
      ghost var gas := if maxGas == 0 then [] else [0x18] + Varint(maxGas);
      SpliceNothing(before, end);
      var i := PutGas(dAtA, end, maxGas, before);
      i := PutOptional(dAtA, i, 2, expr, before, gas);
      i := PutOptional(dAtA, i, 1, pkgPath, before, Optional(2, expr) + gas);
      SplicedPart(before, i, EncodeEval(Value()));
      if end - i <= MAX_INT && maxGas < TWO_64 { EvalLayout(Value()); }
      return end - i;
    }

    /** The varint loop, which adds up maxGas in place. */
    method ReadMaxGas(dAtA: seq<byte>, start: nat) returns (i: nat, err: Option<WireError>)
      modifies this`maxGas
      ensures match VarintAt(dAtA, start)
              case Ok(v, next) => err == None && maxGas == v && i == next
              case Err(e) => err == Some(e) && maxGas == VarintLeft(dAtA, start, 0, 0)
    {
      hide Shl;
      maxGas := 0;
      i := start;
      var shift: nat := 0;
      while true
        invariant maxGas < TWO_64
        invariant VarintFrom(dAtA, i, shift, maxGas) == VarintAt(dAtA, start)
        invariant VarintLeft(dAtA, i, shift, maxGas) == VarintLeft(dAtA, start, 0, 0)
        decreases 64 - shift
      {
        if shift >= 64 { return i, Some(IntOverflow); }
        if i >= |dAtA| { return i, Some(UnexpectedEOF); }
        var b := dAtA[i];
        i := i + 1;
        maxGas := (maxGas + Shl((b as int) % 0x80, shift)) % TWO_64;
        if b < 0x80 { return i, None; }
        shift := shift + 7;
      }
    }

    /** One turn of the field loop. */
    method UnmarshalField(dAtA: seq<byte>, i: nat) returns (next: nat, err: Option<WireError>)
      requires i < |dAtA| <= MAX_INT
      modifies this
      ensures match FieldAt(EVAL, old(Value()), dAtA, i)
              case Next(m, k) => err == None && Value() == m && next == k
              case Stop(e) => err == Some(e) && Value() == SpoiltAt(EVAL, old(Value()), dAtA, i)
    {
      hide VarintFrom, VarintLeft, SkipFrom, PayloadAt, PassesOneField;
      var tag := ReadTag(dAtA, i);
      if tag.Err? { return i, Some(tag.error); }
      var num, wireType := tag.value.0, tag.value.1;
      if num == 1 || num == 2 {
        if wireType != 2 { return i, Some(WrongWireType); }
        var p := ReadPayload(dAtA, tag.next);
        if p.Err? { return i, Some(p.error); }
        if num == 1 { pkgPath := p.value; } else { expr := p.value; }
        return p.next, None;
      } else if num == 3 {
        if wireType != 0 { return i, Some(WrongWireType); }
        next, err := ReadMaxGas(dAtA, tag.next);
      } else {
        var passed := PassUnknown(dAtA, i);
        if passed.Err? { return i, Some(passed.error); }
        return passed.next, None;
      }
    }

    method Unmarshal(dAtA: seq<byte>) returns (err: Option<WireError>)
      requires |dAtA| <= MAX_INT
      modifies this
      ensures match Decode(EVAL, old(Value()), dAtA)
              case Done(v) => err == None && Value() == v
              case Failed(e) => err == Some(e) && Value() == Left(EVAL, old(Value()), dAtA)
    {
      hide FieldAt, SpoiltAt;
      var i := 0;
      while i < |dAtA|
        invariant 0 <= i <= |dAtA|
        invariant DecodeFrom(EVAL, Value(), dAtA, i) == Decode(EVAL, old(Value()), dAtA)
        invariant LeftFrom(EVAL, Value(), dAtA, i) == Left(EVAL, old(Value()), dAtA)
      {
        i, err := UnmarshalField(dAtA, i);
        if err.Some? { return; }
      }
      return None;
    }
  }

  class QueryRenderRequest {
    var pkgPath: seq<byte>
    var args: seq<seq<byte>>

    constructor ()
      ensures Value() == ZERO_RENDER
    {
      pkgPath, args := [], [];
    }

    ghost function Value(): RenderValue
      reads this
    {
      RenderValue(pkgPath, args)
    }

    method Size() returns (n: nat)
      ensures n == |EncodeRender(Value())|
    {
      n := 0;
      RecordSize(1, pkgPath);
      if |pkgPath| > 0 { n := n + SizeOfRecord(|pkgPath|); }
      hide Record, Sov;
      for k := 0 to |args|
        invariant n + |EncodeArgs(args[k..])| == |EncodeRender(Value())|
      {
        RecordSize(2, args[k]);
        assert args[k..][1..] == args[k + 1..];
        n := n + SizeOfRecord(|args[k]|);
      }
    }

    method MarshalToSizedBuffer(dAtA: array<byte>, end: nat) returns (n: nat)
      requires |EncodeRender(Value())| <= end <= dAtA.Length
      modifies dAtA
      ensures n == |EncodeRender(Value())|
      ensures dAtA[..] == Splice(old(dAtA[..]), end - n, EncodeRender(Value()))
      ensures n <= MAX_INT ==>
                FieldsIn(dAtA[end - n..end]) == Some(Present([BytesF(1, pkgPath)]) + Repeated(2, args))
    {
      hide Optional, Record, Splice, FieldsIn, Present, Repeated;
      ghost var before := dAtA[..];
      SpliceNothing(before, end);
      var i, k := end, |args|;
      while k > 0
        invariant 0 <= k <= |args| && i == end - |EncodeArgs(args[k..])|
        invariant Filled(dAtA, before, i, EncodeArgs(args[k..]))
      {
        k := k - 1;
        assert args[k..][1..] == args[k + 1..];
        ArgsSuffix(args, k);
        i := PutRecord(dAtA, i, 2, args[k], before, EncodeArgs(args[k + 1..]));
      }
      assert args[0..] == args;
      i := PutOptional(dAtA, i, 1, pkgPath, before, EncodeArgs(args));
      SplicedPart(before, i, EncodeRender(Value()));
      if end - i <= MAX_INT { RenderLayout(Value()); }
      return end - i;
    }

    method Unmarshal(dAtA: seq<byte>) returns (err: Option<WireError>)
      requires |dAtA| <= MAX_INT
      modifies this
      ensures match Decode(RENDER, old(Value()), dAtA)
              case Done(v) => err == None && Value() == v
              case Failed(e) => err == Some(e) && Value() == Left(RENDER, old(Value()), dAtA)
    {
      hide VarintFrom, SkipFrom, PayloadAt, PassesOneField;
      var i := 0;
      while i < |dAtA|
        invariant 0 <= i <= |dAtA|
        invariant DecodeFrom(RENDER, Value(), dAtA, i) == Decode(RENDER, old(Value()), dAtA)
        invariant LeftFrom(RENDER, Value(), dAtA, i) == Left(RENDER, old(Value()), dAtA)
      {
        var tag := ReadTag(dAtA, i);
        if tag.Err? { return Some(tag.error); }
        var num, wireType := tag.value.0, tag.value.1;
        if num == 1 || num == 2 {
          if wireType != 2 { return Some(WrongWireType); }
          var p := ReadPayload(dAtA, tag.next);
          if p.Err? { return Some(p.error); }
          if num == 1 { pkgPath := p.value; } else { args := args + [p.value]; }
          i := p.next;
        } else {
          var passed := PassUnknown(dAtA, i);
          if passed.Err? { return Some(passed.error); }
          i := passed.next;
        }
      }
      return None;
    }
  }

  lemma {:induction false} ArgsSuffix(args: seq<seq<byte>>, k: nat)
    requires k <= |args|
    ensures |EncodeArgs(args[k..])| <= |EncodeArgs(args)|
  {
    if k > 0 {
      assert args[1..][k - 1..] == args[k..];
      ArgsSuffix(args[1..], k - 1);
    } else {
      assert args[0..] == args;
    }
  }

  ghost function PairValues(pairs: seq<KVPair>): (v: seq<KVPairValue>)
    reads pairs
    ensures |v| == |pairs| && forall k | 0 <= k < |v| :: v[k] == pairs[k].Value()
  {
    if pairs == [] then [] else [pairs[0].Value()] + PairValues(pairs[1..])
  }

  lemma PairValuesSnoc(pairs: seq<KVPair>, pair: KVPair)
    ensures PairValues(pairs + [pair]) == PairValues(pairs) + [pair.Value()]
  {
  }

  class GenesisState {
    const params: Params
    var realmParams: seq<byte>
    var state: seq<KVPair>

    constructor ()
      ensures Value() == ZERO_GENESIS && fresh(params) && state == []
    {
      params := new Params();
      realmParams, state := [], [];
    }

    ghost function Value(): GenesisValue
      reads this, params, state
    {
      GenesisValue(params.Value(), realmParams, PairValues(state))
    }

    method Size() returns (n: nat)
      ensures n == |EncodeGenesis(Value())|
    {
      hide Record, Sov, EncodeParams, EncodeKVPair;
      ghost var v := Value();
      var l := params.Size();
      RecordSize(1, EncodeParams(v.params));
      n := SizeOfRecord(l);
      RecordSize(2, realmParams);
      if |realmParams| > 0 { n := n + SizeOfRecord(|realmParams|); }
      for k := 0 to |state|
        invariant n + |EncodePairs(v.state[k..])| == |EncodeGenesis(v)|
      {
        l := state[k].Size();
        RecordSize(3, EncodeKVPair(v.state[k]));
        assert v.state[k..][1..] == v.state[k + 1..];
        n := n + SizeOfRecord(l);
      }
    }

    method MarshalToSizedBuffer(dAtA: array<byte>, end: nat) returns (n: nat)
      requires |EncodeGenesis(Value())| <= end <= dAtA.Length
      modifies dAtA
      ensures n == |EncodeGenesis(Value())|
      ensures dAtA[..] == Splice(old(dAtA[..]), end - n, EncodeGenesis(Value()))
      ensures n <= MAX_INT ==> LaysOutGenesis(dAtA[end - n..end], Value())
    {
      hide Optional, Record, EncodeParams, EncodePairs, Splice, LaysOutGenesis;
      ghost var before, v := dAtA[..], Value();
      SpliceNothing(before, end);
      PairsFit(v);
      var i := PutState(dAtA, end, before);
      i := PutOptional(dAtA, i, 2, realmParams, before, EncodePairs(v.state));
      i := PutParams(params, dAtA, i, before, Optional(2, realmParams) + EncodePairs(v.state));
      SplicedPart(before, i, EncodeGenesis(v));
      if end - i <= MAX_INT { GenesisLayout(v); }
      return end - i;
    }

    /** The pairs, from the last to the first, in front of end. */
    method PutState(dAtA: array<byte>, end: nat, ghost before: seq<byte>) returns (i: nat)
      requires |EncodePairs(Value().state)| <= end && Filled(dAtA, before, end, [])
      modifies dAtA
      ensures i == end - |EncodePairs(Value().state)| && Filled(dAtA, before, i, EncodePairs(Value().state))
    {
      hide Record, EncodeKVPair, Splice;
      ghost var pairs := Value().state;
      i := end;
      var k := |state|;
      while k > 0
        invariant 0 <= k <= |state| && i == end - |EncodePairs(pairs[k..])|
        invariant Filled(dAtA, before, i, EncodePairs(pairs[k..]))
      {
        k := k - 1;
        assert pairs[k..][1..] == pairs[k + 1..];
        PairsSuffix(pairs, k);
        i := PutPair(state[k], dAtA, i, before, EncodePairs(pairs[k + 1..]));
      }
      assert pairs[0..] == pairs;
    }

    method Marshal() returns (dAtA: array<byte>)
      ensures fresh(dAtA) && dAtA[..] == EncodeGenesis(Value())
    {
      hide EncodeGenesis;
      var size := Size();
      dAtA := new byte[size];
      var n := MarshalToSizedBuffer(dAtA, size);
    }

    /** Appends an empty pair and decodes into it, in place. */
    method AppendPair(p: seq<byte>) returns (err: Option<WireError>)
      requires |p| <= MAX_INT
      modifies this`state
      ensures |state| == |old(state)| + 1 && old(state) <= state && fresh(state[|old(state)|])
      ensures match Decode(KVPAIR, ZERO_PAIR, p)
              case Done(v) => err == None && PairValues(state) == old(PairValues(state)) + [v]
              case Failed(e) =>
                err == Some(e) && PairValues(state) == old(PairValues(state)) + [Left(KVPAIR, ZERO_PAIR, p)]
    {
      hide DecodeFrom, PairValues;
      ghost var before := state;
      var pair := new KVPair();
      state := state + [pair];
      err := pair.Unmarshal(p);
      PairValuesSnoc(before, pair);
    }

    /** One known field: params are merged into, state grows by one pair. */
    method SetField(num: int, p: seq<byte>) returns (err: Option<WireError>)
      requires 1 <= num <= 3 && |p| <= MAX_INT
      modifies this, params
      ensures old(state) <= state && fresh(set pair | pair in state[|old(state)|..])
      ensures match SetGenesis(old(Value()), num, p)
              case Done(v) => err == None && Value() == v
              case Failed(e) => err == Some(e) && Value() == SpoilGenesis(old(Value()), num, p)
    {
      hide DecodeFrom, PairValues;
      err := None;
      match num {
        case 1 => err := params.Unmarshal(p);
        case 2 => realmParams := p;
        case _ => err := AppendPair(p);
      }
    }

    /** One turn of the field loop. */
    method UnmarshalField(dAtA: seq<byte>, i: nat) returns (next: nat, err: Option<WireError>)
      requires i < |dAtA| <= MAX_INT
      modifies this, params
      ensures old(state) <= state && fresh(set pair | pair in state[|old(state)|..])
      ensures match FieldAt(GENESIS, old(Value()), dAtA, i)
              case Next(m, k) => err == None && Value() == m && next == k
              case Stop(e) => err == Some(e) && Value() == SpoiltAt(GENESIS, old(Value()), dAtA, i)
    {
      hide VarintFrom, SkipFrom, PayloadAt, SetGenesis, SpoilGenesis, PairValues, PassesOneField;
      next := i;
      var tag := ReadTag(dAtA, i);
      if tag.Err? { return i, Some(tag.error); }
      var num, wireType := tag.value.0, tag.value.1;
      if 1 <= num <= 3 {
        if wireType != 2 { return i, Some(WrongWireType); }
        var p := ReadPayload(dAtA, tag.next);
        if p.Err? { return i, Some(p.error); }
        err := SetField(num, p.value);
        return p.next, err;
      } else {
        var passed := PassUnknown(dAtA, i);
        if passed.Err? { return i, Some(passed.error); }
        return passed.next, None;
      }
    }

    method Unmarshal(dAtA: seq<byte>) returns (err: Option<WireError>)
      requires |dAtA| <= MAX_INT
      modifies this, params
      ensures fresh(set pair | pair in state && pair !in old(state))
      ensures match Decode(GENESIS, old(Value()), dAtA)
              case Done(v) => err == None && Value() == v
              case Failed(e) => err == Some(e) && Value() == Left(GENESIS, old(Value()), dAtA)
    {
      hide FieldAt, SpoiltAt, PairValues;
      var i := 0;
      while i < |dAtA|
        invariant 0 <= i <= |dAtA|
        invariant old(state) <= state && fresh(set pair | pair in state[|old(state)|..])
        invariant DecodeFrom(GENESIS, Value(), dAtA, i) == Decode(GENESIS, old(Value()), dAtA)
        invariant LeftFrom(GENESIS, Value(), dAtA, i) == Left(GENESIS, old(Value()), dAtA)
      {
        i, err := UnmarshalField(dAtA, i);
        if err.Some? { return; }
      }
      return None;
    }
  }

  /** One key-value pair, written as a nested message in front of what is there. */
  method PutPair(pair: KVPair, dAtA: array<byte>, i: nat, ghost before: seq<byte>, ghost tail: seq<byte>)
    returns (j: nat)
    requires |Record(3, EncodeKVPair(pair.Value()))| <= i && Filled(dAtA, before, i, tail)
    modifies dAtA
    ensures j == i - |Record(3, EncodeKVPair(pair.Value()))|
    ensures Filled(dAtA, before, j, Record(3, EncodeKVPair(pair.Value())) + tail)
  {
    hide EncodeKVPair, Varint, Splice;
    ghost var e := EncodeKVPair(pair.Value());
    var size := pair.MarshalToSizedBuffer(dAtA, i);
    SpliceBefore(before, i - size, e, tail);
    j := PutHeader(dAtA, i - size, 3, size, before, e + tail);
    assert [0x1A] + Varint(size) + (e + tail) == Record(3, e) + tail;
  }

  method PutParams(params: Params, dAtA: array<byte>, i: nat, ghost before: seq<byte>, ghost tail: seq<byte>)
    returns (j: nat)
    requires |Record(1, EncodeParams(params.Value()))| <= i && Filled(dAtA, before, i, tail)
    modifies dAtA
    ensures j == i - |Record(1, EncodeParams(params.Value()))|
    ensures Filled(dAtA, before, j, Record(1, EncodeParams(params.Value())) + tail)
  {
    hide EncodeParams, Varint, Splice;
    ghost var e := EncodeParams(params.Value());
    var size := params.MarshalToSizedBuffer(dAtA, i);
    SpliceBefore(before, i - size, e, tail);
    j := PutHeader(dAtA, i - size, 1, size, before, e + tail);
    assert [0x0A] + Varint(size) + (e + tail) == Record(1, e) + tail;
  }

  lemma PairsFit(m: GenesisValue)
    ensures |EncodePairs(m.state)| <= |EncodeGenesis(m)|
  {
  }

  lemma {:induction false} PairsSuffix(pairs: seq<KVPairValue>, k: nat)
    requires k <= |pairs|
    ensures |EncodePairs(pairs[k..])| <= |EncodePairs(pairs)|
  {
    if k > 0 {
      assert pairs[1..][k - 1..] == pairs[k..];
      PairsSuffix(pairs[1..], k - 1);
    } else {
      assert pairs[0..] == pairs;
    }
  }

  /** A client that writes a genesis state and reads it back. */
  method WriteAndRead(m: GenesisState) returns (copy: GenesisState)
    requires |EncodeGenesis(m.Value())| <= MAX_INT
    ensures fresh(copy) && copy.Value() == m.Value()
  {
    hide EncodeGenesis, DecodeFrom;
    var dAtA := m.Marshal();
    copy := new GenesisState();
    GenesisRoundTrip(m.Value());
    var err := copy.Unmarshal(dAtA[..]);
  }
}
