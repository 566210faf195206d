/** What a generated Unmarshal computes, for any message described by a schema: the
    field loop as a function, and the laws every message obeys. */
module Decoding {
  import opened Utf8
  import opened Io
  import opened WireFormat
  import opened Skipping

  datatype Result<+M> = Done(message: M) | Failed(error: WireError)

  datatype Kind = BytesField | VarintField | UnknownField

  /** Which field numbers a message knows and what their contents do to it; and what is
      left in it of contents that cannot be decoded, of a payload or of a varint. */
  datatype Schema<!M> = Schema(
    kind: int -> Kind,
    setBytes: (M, int, seq<byte>) -> Result<M>,
    setVarint: (M, int, nat) -> M,
    spoilBytes: (M, int, seq<byte>) -> M,
    spoilVarint: (M, int, nat) -> M)

  datatype Step<+M> = Next(message: M, next: nat) | Stop(error: WireError)

  /** A length prefix at i and the payload it announces, with the 64-bit checks. */
  function PayloadAt(s: seq<byte>, i: nat): (r: Parsed<seq<byte>>)
    ensures r.Ok? ==> i < r.next <= |s| && |r.value| <= |s|
  {
    match VarintAt(s, i)
    case Err(e) => Err(e)
    case Ok(length, j) =>
      if length > MAX_INT || j + length > MAX_INT then Err(InvalidLength)
      else if j + length > |s| then Err(UnexpectedEOF)
      else Ok(s[j..j + length], j + length)
  }

  function FieldAt<M>(sc: Schema<M>, m: M, s: seq<byte>, i: nat): (r: Step<M>)
    requires i < |s|
    ensures r.Next? ==> i < r.next <= |s|
  {
    match VarintAt(s, i)
    case Err(e) => Stop(e)
    case Ok(wire, j) =>
      var num, wireType := ToInt32(wire / 8), wire % 8;
      if wireType == 4 then Stop(EndGroup)
      else if num <= 0 then Stop(IllegalTag)
      else
        match sc.kind(num)
        case BytesField =>
          if wireType != 2 then Stop(WrongWireType)
          else
            (match PayloadAt(s, j)
             case Err(e) => Stop(e)
             case Ok(payload, k) =>
               match sc.setBytes(m, num, payload)
               case Failed(e) => Stop(e)
               case Done(m') => Next(m', k))
        case VarintField =>
          if wireType != 0 then Stop(WrongWireType)
          else
            (match VarintAt(s, j)
             case Err(e) => Stop(e)
             case Ok(v, k) => Next(sc.setVarint(m, num, v), k))
        case UnknownField =>
          match SkipFrom(s[i..], 0, 0)
          case Bad(e) => Stop(e)
          case Past(n) =>
            if i + n > MAX_INT then Stop(InvalidLength)
            else if i + n > |s| then Stop(UnexpectedEOF)
            else Next(m, i + n)
  }

  function DecodeFrom<M>(sc: Schema<M>, m: M, s: seq<byte>, i: nat): Result<M>
    decreases if i < |s| then |s| - i else 0
  {
    if i >= |s| then Done(m)
    else
      match FieldAt(sc, m, s, i)
      case Stop(e) => Failed(e)
      case Next(m', k) => DecodeFrom(sc, m', s, k)
  }

  function Decode<M>(sc: Schema<M>, m: M, s: seq<byte>): Result<M> {
    DecodeFrom(sc, m, s, 0)
  }

  /** The message once the field at i has turned out not to be decodable. */
  function SpoiltAt<M>(sc: Schema<M>, m: M, s: seq<byte>, i: nat): M
    requires i < |s|
  {
    match VarintAt(s, i)
    case Err(_) => m
    case Ok(wire, j) =>
      var num, wireType := ToInt32(wire / 8), wire % 8;
      if wireType == 4 || num <= 0 then m
      else
        match sc.kind(num)
        case UnknownField => m
        case VarintField => if wireType == 0 then sc.spoilVarint(m, num, VarintLeft(s, j, 0, 0)) else m
        case BytesField =>
          if wireType != 2 then m
          else
            match PayloadAt(s, j)
            case Err(_) => m
            case Ok(payload, _) => sc.spoilBytes(m, num, payload)
  }

  /** What a decoding that fails leaves in the message. */
  function LeftFrom<M>(sc: Schema<M>, m: M, s: seq<byte>, i: nat): M
    decreases if i < |s| then |s| - i else 0
  {
    if i >= |s| then m
    else
      match FieldAt(sc, m, s, i)
      case Stop(_) => SpoiltAt(sc, m, s, i)
      case Next(m', k) => LeftFrom(sc, m', s, k)
  }

  function Left<M>(sc: Schema<M>, m: M, s: seq<byte>): M {
    LeftFrom(sc, m, s, 0)
  }

  // ---- Lengths that reach past the end ----

  /** Where the field at i says that it ends, which may be past the end of s: after the
      payload its length announces, or, for an unknown field, where the skipper stops. */
  function EndAt<M>(sc: Schema<M>, s: seq<byte>, i: nat): Option<nat>
    requires i < |s|
  {
    match VarintAt(s, i)
    case Err(_) => None
    case Ok(wire, j) =>
      var num, wireType := ToInt32(wire / 8), wire % 8;
      if wireType == 4 || num <= 0 then None
      else
        match sc.kind(num)
        case VarintField => None
        case BytesField =>
          (match VarintAt(s, j)
           case Err(_) => None
           case Ok(length, k) => if wireType == 2 && length <= MAX_INT then Some(k + length) else None)
        case UnknownField =>
          match SkipFrom(s[i..], 0, 0)
          case Bad(_) => None
          case Past(n) => Some(i + n)
  }

  /** The field at i ends past the end of s, and with `offset` bytes in front of s it
      would end past the largest int. */
  predicate OverrunAt<M>(sc: Schema<M>, s: seq<byte>, i: nat, offset: nat)
    requires i < |s|
  {
    var end := EndAt(sc, s, i);
    end.Some? && |s| < end.value <= MAX_INT < offset + end.value
  }

  /** Decoding s into m from i on comes to such a field. */
  predicate Overruns<M>(sc: Schema<M>, m: M, s: seq<byte>, i: nat, offset: nat)
    decreases if i < |s| then |s| - i else 0
  {
    i < |s| &&
    match FieldAt(sc, m, s, i)
    case Stop(_) => OverrunAt(sc, s, i, offset)
    case Next(m', k) => Overruns(sc, m', s, k, offset)
  }

  // ---- A field read inside a prefix is read the same in the whole ----

  lemma PayloadEmbeds(a: seq<byte>, x: seq<byte>, b: seq<byte>, i: nat)
    requires |a| + |x| + |b| <= MAX_INT && PayloadAt(x, i).Ok?
    ensures var r := PayloadAt(x, i); PayloadAt(a + x + b, |a| + i) == Ok(r.value, |a| + r.next)
  {
    hide VarintFrom;
    VarintEmbeds(a, x, b, i, 0, 0);
    var r := VarintAt(x, i);
    assert (a + x + b)[|a| + r.next..|a| + r.next + r.value] == x[r.next..r.next + r.value];
  }

  lemma FieldEmbeds<M>(sc: Schema<M>, m: M, a: seq<byte>, x: seq<byte>, b: seq<byte>, i: nat)
    requires |a| + |x| + |b| <= MAX_INT && i < |x| && FieldAt(sc, m, x, i).Next?
    ensures var r := FieldAt(sc, m, x, i); FieldAt(sc, m, a + x + b, |a| + i) == Next(r.message, |a| + r.next)
  {
    hide VarintFrom, PayloadAt, SkipFrom;
    VarintEmbeds(a, x, b, i, 0, 0);
    var wire, j := VarintAt(x, i).value, VarintAt(x, i).next;
    match sc.kind(ToInt32(wire / 8))
    case BytesField => PayloadEmbeds(a, x, b, j);
    case VarintField => VarintEmbeds(a, x, b, j, 0, 0);
    case UnknownField =>
      SkipEmbeds([], x[i..], b, 0, 0);
      assert [] + x[i..] + b == (a + x + b)[|a| + i..];
  }

  /** Once all of `a` has been decoded, decoding a + b goes on where b starts. */
  lemma {:induction false} DecodeReaches<M>(sc: Schema<M>, m: M, a: seq<byte>, b: seq<byte>, i: nat)
    requires |a| + |b| <= MAX_INT && i <= |a| && DecodeFrom(sc, m, a, i).Done?
    ensures DecodeFrom(sc, m, a + b, i) == DecodeFrom(sc, DecodeFrom(sc, m, a, i).message, a + b, |a|)
    decreases |a| - i
  {
    hide FieldAt;
    if i < |a| {
      FieldEmbeds(sc, m, [], a, b, i);
      assert [] + a + b == a + b;
      var r := FieldAt(sc, m, a, i);
      DecodeReaches(sc, r.message, a, b, r.next);
    }
  }

  // ---- A suffix decodes as it does alone ----

  lemma {:induction false} VarintShifts(a: seq<byte>, b: seq<byte>, i: nat, shift: nat, acc: nat)
    requires acc < TWO_64
    ensures VarintFrom(a + b, |a| + i, shift, acc) ==
      match VarintFrom(b, i, shift, acc) case Err(e) => Err(e) case Ok(v, n) => Ok(v, |a| + n)
    decreases 64 - shift
  {
    hide Shl;
    if shift < 64 && i < |b| {
      assert (a + b)[|a| + i] == b[i];
      var sum := (acc + Shl((b[i] as int) % 0x80, shift)) % TWO_64;
      if b[i] >= 0x80 { VarintShifts(a, b, i + 1, shift + 7, sum); }
    }
  }

  function Shifted<M>(r: Step<M>, offset: nat): Step<M> {
    match r
    case Next(m, n) => Next(m, offset + n)
    case Stop(e) => Stop(e)
  }

  lemma PayloadShifts(a: seq<byte>, b: seq<byte>, i: nat)
    requires |a| + |b| <= MAX_INT
    ensures PayloadAt(a + b, |a| + i) ==
      match VarintAt(b, i)
      case Err(e) => Err(e)
      case Ok(length, j) =>
        if length > MAX_INT || |a| + j + length > MAX_INT then Err(InvalidLength)
        else if j + length > |b| then Err(UnexpectedEOF)
        else Ok(b[j..j + length], |a| + j + length)
  {
    hide VarintFrom;
    VarintShifts(a, b, i, 0, 0);
    var v := VarintAt(b, i);
    if v.Ok? && v.next + v.value <= |b| {
      assert (a + b)[|a| + v.next..|a| + v.next + v.value] == b[v.next..v.next + v.value];
    }
  }

  /** A field of b behind a: as in b alone, but for a length that overruns. */
  ghost predicate FieldShifted<M>(sc: Schema<M>, m: M, a: seq<byte>, b: seq<byte>, i: nat)
    requires i < |b|
  {
    && |a| + i < |a + b|
    && FieldAt(sc, m, a + b, |a| + i)
         == (if OverrunAt(sc, b, i, |a|) then Stop(InvalidLength) else Shifted(FieldAt(sc, m, b, i), |a|))
    && (OverrunAt(sc, b, i, |a|) ==> FieldAt(sc, m, b, i) == Stop(UnexpectedEOF))
  }

  lemma FieldShifts<M>(sc: Schema<M>, m: M, a: seq<byte>, b: seq<byte>, i: nat)
    requires |a| + |b| <= MAX_INT && i < |b|
    ensures FieldShifted(sc, m, a, b, i)
  {
    var tag := VarintAt(b, i);
    if tag.Err? {
      NoFieldShifts(sc, m, a, b, i);
    } else {
      hide FieldShifted, VarintAt;
      match sc.kind(ToInt32(tag.value / 8))
      case BytesField => BytesFieldShifts(sc, m, a, b, i);
      case VarintField => VarintFieldShifts(sc, m, a, b, i);
      case UnknownField => UnknownFieldShifts(sc, m, a, b, i);
    }
  }

  lemma NoFieldShifts<M>(sc: Schema<M>, m: M, a: seq<byte>, b: seq<byte>, i: nat)
    requires |a| + |b| <= MAX_INT && i < |b| && VarintAt(b, i).Err?
    ensures FieldShifted(sc, m, a, b, i)
  {
    hide VarintFrom, SkipFrom, PayloadAt;
    VarintShifts(a, b, i, 0, 0);
  }

  lemma BytesFieldShifts<M>(sc: Schema<M>, m: M, a: seq<byte>, b: seq<byte>, i: nat)
    requires |a| + |b| <= MAX_INT && i < |b|
    requires var tag := VarintAt(b, i); tag.Ok? && sc.kind(ToInt32(tag.value / 8)) == BytesField
    ensures FieldShifted(sc, m, a, b, i)
  {
    hide VarintFrom, SkipFrom, ToInt32;
    VarintShifts(a, b, i, 0, 0);
    PayloadShifts(a, b, VarintAt(b, i).next);
  }

  lemma VarintFieldShifts<M>(sc: Schema<M>, m: M, a: seq<byte>, b: seq<byte>, i: nat)
    requires |a| + |b| <= MAX_INT && i < |b|
    requires var tag := VarintAt(b, i); tag.Ok? && sc.kind(ToInt32(tag.value / 8)) == VarintField
    ensures FieldShifted(sc, m, a, b, i)
  {
    hide VarintFrom, SkipFrom, PayloadAt, ToInt32;
    VarintShifts(a, b, i, 0, 0);
    VarintShifts(a, b, VarintAt(b, i).next, 0, 0);
  }

  lemma UnknownFieldShifts<M>(sc: Schema<M>, m: M, a: seq<byte>, b: seq<byte>, i: nat)
    requires |a| + |b| <= MAX_INT && i < |b|
    requires var tag := VarintAt(b, i); tag.Ok? && sc.kind(ToInt32(tag.value / 8)) == UnknownField
    ensures FieldShifted(sc, m, a, b, i)
  {
    hide VarintFrom, SkipFrom, PayloadAt, ToInt32;
    VarintShifts(a, b, i, 0, 0);
    assert (a + b)[|a| + i..] == b[i..];
  }

  lemma {:induction false} DecodeShifts<M>(sc: Schema<M>, m: M, a: seq<byte>, b: seq<byte>, i: nat)
    requires |a| + |b| <= MAX_INT && i <= |b|
    ensures DecodeFrom(sc, m, a + b, |a| + i)
         == if Overruns(sc, m, b, i, |a|) then Failed(InvalidLength) else DecodeFrom(sc, m, b, i)
    ensures Overruns(sc, m, b, i, |a|) ==> DecodeFrom(sc, m, b, i) == Failed(UnexpectedEOF)
    decreases |b| - i
  {
    hide FieldAt, OverrunAt;
    if i < |b| {
      FieldShifts(sc, m, a, b, i);
      var r := FieldAt(sc, m, b, i);
      if r.Next? { DecodeShifts(sc, r.message, a, b, r.next); }
    }
  }

  lemma {:induction false} OverrunsFurther<M>(sc: Schema<M>, m: M, s: seq<byte>, i: nat, k: nat, n: nat)
    requires k <= n && Overruns(sc, m, s, i, k)
    ensures Overruns(sc, m, s, i, n)
    decreases if i < |s| then |s| - i else 0
  {
    hide FieldAt, EndAt;
    var r := FieldAt(sc, m, s, i);
    if r.Next? { OverrunsFurther(sc, r.message, s, r.next, k, n); }
  }

  // ---- The laws ----

  /** Tags of one byte that begin no field: an end tag, and field number zero. */
  lemma NoFieldBegins<M>(sc: Schema<M>, m: M, tag: byte, rest: seq<byte>)
    requires tag < 0x80
    ensures tag % 8 == 4 ==> Decode(sc, m, [tag] + rest) == Failed(EndGroup)
    ensures tag < 8 && tag != 4 ==> Decode(sc, m, [tag] + rest) == Failed(IllegalTag)
  {
    TagStarts([tag] + rest, 0);
    hide VarintFrom, SkipFrom, PayloadAt;
  }

  /** A buffer that holds one field. */
  lemma DecodeOne<M>(sc: Schema<M>, m: M, s: seq<byte>, m1: M)
    requires s != [] && FieldAt(sc, m, s, 0) == Next(m1, |s|)
    ensures Decode(sc, m, s) == Done(m1)
  {
    hide FieldAt;
    assert DecodeFrom(sc, m1, s, |s|) == Done(m1);
  }

  /** Decoding is a merge: decoding a + b is decoding b into what a gave, if and only if
      no length in b overruns behind a. If one does, both fail, with different errors. */
  lemma DecodeConcat<M>(sc: Schema<M>, m: M, a: seq<byte>, b: seq<byte>)
    requires |a| + |b| <= MAX_INT && Decode(sc, m, a).Done?
    ensures var joined, apart := Decode(sc, m, a + b), Decode(sc, Decode(sc, m, a).message, b);
      var overruns := Overruns(sc, Decode(sc, m, a).message, b, 0, |a|);
      && (joined == apart <==> !overruns)
      && (overruns ==> joined == Failed(InvalidLength) && apart == Failed(UnexpectedEOF))
  {
    DecodeReaches(sc, m, a, b, 0);
    DecodeShifts(sc, Decode(sc, m, a).message, a, b, 0);
  }

  lemma {:induction false} VarintLeftShifts(a: seq<byte>, b: seq<byte>, i: nat, shift: nat, acc: nat)
    requires acc < TWO_64
    ensures VarintLeft(a + b, |a| + i, shift, acc) == VarintLeft(b, i, shift, acc)
    decreases 64 - shift
  {
    hide Shl;
    if shift < 64 && i < |b| {
      assert (a + b)[|a| + i] == b[i];
      var sum := (acc + Shl((b[i] as int) % 0x80, shift)) % TWO_64;
      if b[i] >= 0x80 { VarintLeftShifts(a, b, i + 1, shift + 7, sum); }
    }
  }

  lemma SpoiltShifts<M>(sc: Schema<M>, m: M, a: seq<byte>, b: seq<byte>, i: nat)
    requires |a| + |b| <= MAX_INT && i < |b| && FieldAt(sc, m, b, i).Stop?
    ensures SpoiltAt(sc, m, a + b, |a| + i) == SpoiltAt(sc, m, b, i)
  {
    hide VarintFrom, SkipFrom;
    VarintShifts(a, b, i, 0, 0);
    var tag := VarintAt(b, i);
    if tag.Ok? {
      PayloadShifts(a, b, tag.next);
      VarintLeftShifts(a, b, tag.next, 0, 0);
    }
  }

  lemma {:induction false} LeftShifts<M>(sc: Schema<M>, m: M, a: seq<byte>, b: seq<byte>, i: nat)
    requires |a| + |b| <= MAX_INT && i <= |b|
    ensures LeftFrom(sc, m, a + b, |a| + i) == LeftFrom(sc, m, b, i)
    decreases |b| - i
  {
    hide FieldAt, OverrunAt, SpoiltAt;
    if i < |b| {
      FieldShifts(sc, m, a, b, i);
      var r := FieldAt(sc, m, b, i);
      if r.Next? { LeftShifts(sc, r.message, a, b, r.next); } else { SpoiltShifts(sc, m, a, b, i); }
    }
  }

  lemma {:induction false} LeftReaches<M>(sc: Schema<M>, m: M, a: seq<byte>, b: seq<byte>, i: nat)
    requires |a| + |b| <= MAX_INT && i <= |a| && DecodeFrom(sc, m, a, i).Done?
    ensures LeftFrom(sc, m, a + b, i) == LeftFrom(sc, DecodeFrom(sc, m, a, i).message, a + b, |a|)
    decreases |a| - i
  {
    hide FieldAt, SpoiltAt;
    if i < |a| {
      FieldEmbeds(sc, m, [], a, b, i);
      assert [] + a + b == a + b;
      var r := FieldAt(sc, m, a, i);
      LeftReaches(sc, r.message, a, b, r.next);
    }
  }

  /** What a failed decoding leaves in the message is the same for the parts as for the
      whole, overrun or not. */
  lemma LeftConcat<M>(sc: Schema<M>, m: M, a: seq<byte>, b: seq<byte>)
    requires |a| + |b| <= MAX_INT && Decode(sc, m, a).Done?
    ensures Left(sc, m, a + b) == Left(sc, Decode(sc, m, a).message, b)
  {
    LeftReaches(sc, m, a, b, 0);
    LeftShifts(sc, Decode(sc, m, a).message, a, b, 0);
  }

  /** An unknown field: well formed, with a field number the message does not know. */
  predicate IsUnknown<M>(sc: Schema<M>, item: Item) {
    && WellFormed(item)
    && var wire := VarintAt(item.tag, 0).value;
       var num := ToInt32(wire / 8);
       0 < num && sc.kind(num) == UnknownField
  }

  lemma UnknownAlone<M>(sc: Schema<M>, m: M, item: Item)
    requires IsUnknown(sc, item) && |Bytes(item)| <= MAX_INT
    ensures Decode(sc, m, Bytes(item)) == Done(m)
  {
    hide VarintFrom, SkipFrom;
    var s := Bytes(item);
    SkipsItem([], item, [], 0);
    assert [] + s + [] == s == s[0..];
    TagFirst(item);
    assert SkipFrom(s, 0, 0) == Past(|s|);
    DecodeOne(sc, m, s, m);
  }

  lemma TagFirst(item: Item)
    requires WellFormed(item)
    ensures Bytes(item) != [] && VarintAt(Bytes(item), 0).Ok?
    ensures VarintAt(Bytes(item), 0).value == VarintAt(item.tag, 0).value
    ensures VarintAt(item.tag, 0).value % 8 != 4
  {
    hide VarintFrom;
    var rest := Bytes(item)[|item.tag|..];
    VarintEmbeds([], item.tag, rest, 0, 0, 0);
    assert [] + item.tag + rest == Bytes(item);
  }

  /** Inserting an unknown field between two fields changes nothing, except which error
      is reported for a length that overruns only because of the bytes inserted. */
  lemma UnknownIgnored<M>(sc: Schema<M>, m: M, a: seq<byte>, item: Item, b: seq<byte>)
    requires |a| + |Bytes(item)| + |b| <= MAX_INT
    requires IsUnknown(sc, item) && Decode(sc, m, a).Done?
    ensures var with, without := Decode(sc, m, a + Bytes(item) + b), Decode(sc, m, a + b);
      var m1 := Decode(sc, m, a).message;
      && (without.Done? ==> with == without)
      && (with == without
          <==> Overruns(sc, m1, b, 0, |a|) || !Overruns(sc, m1, b, 0, |a| + |Bytes(item)|))
      && (with != without ==> with == Failed(InvalidLength) && without == Failed(UnexpectedEOF))
  {
    hide DecodeFrom, Overruns, Bytes, IsUnknown;
    var m1, x := Decode(sc, m, a).message, Bytes(item);
    UnknownAlone(sc, m1, item);
    DecodeConcat(sc, m, a, x);
    DecodeConcat(sc, m, a + x, b);
    DecodeConcat(sc, m, a, b);
    if Overruns(sc, m1, b, 0, |a|) { OverrunsFurther(sc, m1, b, 0, |a|, |a + x|); }
  }

  /** Decoding two parts one after the other. */
  lemma DecodeThen<M>(sc: Schema<M>, m: M, a: seq<byte>, b: seq<byte>, m1: M, m2: M)
    requires |a| + |b| <= MAX_INT
    requires Decode(sc, m, a) == Done(m1) && Decode(sc, m1, b) == Done(m2)
    ensures Decode(sc, m, a + b) == Done(m2)
  {
    DecodeConcat(sc, m, a, b);
  }
}
