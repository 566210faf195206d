/** skipGenesis, skipParams and skipQuery (one generated body): step over one field
    that the message does not know, whole groups included. */
module Skipping {
  import opened Utf8
  import opened Io
  import opened WireFormat

  /** One turn of the loop: where it leaves the cursor and the group depth. */
  datatype Turn = Turn(next: nat, depth: nat) | Fault(error: WireError)

  datatype Skipped = Past(n: nat) | Bad(error: WireError)

  /** A cursor that wrapped around to a negative number is an invalid length. */
  function Checked(next: nat, depth: nat): Turn {
    if next > MAX_INT then Fault(InvalidLength) else Turn(next, depth)
  }

  function TurnAt(s: seq<byte>, i: nat, depth: nat): (t: Turn)
    ensures t.Turn? ==> i < t.next
  {
    match VarintAt(s, i)
    case Err(e) => Fault(e)
    case Ok(wire, j) =>
      match wire % 8
      case 0 => (match VarintAt(s, j) case Err(e) => Fault(e) case Ok(_, k) => Checked(k, depth))
      case 1 => Checked(j + 8, depth)
      case 2 =>
        (match VarintAt(s, j)
         case Err(e) => Fault(e)
         case Ok(length, k) => if length > MAX_INT then Fault(InvalidLength) else Checked(k + length, depth))
      case 3 => Checked(j, depth + 1)
      case 4 => if depth == 0 then Fault(EndGroup) else Checked(j, depth - 1)
      case 5 => Checked(j + 4, depth)
      case _ => Fault(IllegalWireType)
  }

  function SkipFrom(s: seq<byte>, i: nat, depth: nat): (r: Skipped)
    ensures r.Past? ==> i < r.n
    decreases if i < |s| then |s| - i else 0
  {
    if i >= |s| then Bad(UnexpectedEOF)
    else
      match TurnAt(s, i, depth)
      case Fault(e) => Bad(e)
      case Turn(n, d) => if d == 0 then Past(n) else SkipFrom(s, n, d)
  }

  method TakeTurn(dAtA: seq<byte>, start: nat, depth0: nat) returns (t: Turn)
    ensures t == TurnAt(dAtA, start, depth0)
  {
    hide VarintFrom;
    var i: nat, depth: nat := start, depth0;
    var tag := DecodeVarint(dAtA, i);
    if tag.Err? { return Fault(tag.error); }
    i := tag.next;
    match tag.value % 8 {
      case 0 =>
        var v := DecodeVarint(dAtA, i);
        if v.Err? { return Fault(v.error); }
        i := v.next;
      case 1 =>
        i := i + 8;
      case 2 =>
        var length := DecodeVarint(dAtA, i);
        if length.Err? { return Fault(length.error); }
        if length.value > MAX_INT { return Fault(InvalidLength); }
        i := length.next + length.value;
      case 3 =>
        depth := depth + 1;
      case 4 =>
        if depth == 0 { return Fault(EndGroup); }
        depth := depth - 1;
      case 5 =>
        i := i + 4;
      case _ =>
        return Fault(IllegalWireType);
    }
    if i > MAX_INT { return Fault(InvalidLength); }
    return Turn(i, depth);
  }

  method SkipField(dAtA: seq<byte>) returns (r: Skipped)
    requires |dAtA| <= MAX_INT
    ensures r == SkipFrom(dAtA, 0, 0)
  {
    hide TurnAt;
    var l := |dAtA|;
    var i: nat, depth: nat := 0, 0;
    while i < l
      invariant SkipFrom(dAtA, i, depth) == SkipFrom(dAtA, 0, 0)
    {
      var t := TakeTurn(dAtA, i, depth);
      if t.Fault? { return Bad(t.error); }
      i, depth := t.next, t.depth;
      if depth == 0 { return Past(i); }
    }
    return Bad(UnexpectedEOF);
  }

  // ---- The language it accepts ----

  /** A field on the wire: one of the scalar wire types, or a group of fields. */
  datatype Item =
    | VarintItem(tag: seq<byte>, value: seq<byte>)
    | Fixed64Item(tag: seq<byte>, value: seq<byte>)
    | LengthItem(tag: seq<byte>, length: seq<byte>, payload: seq<byte>)
    | GroupItem(tag: seq<byte>, items: seq<Item>, close: seq<byte>)
    | Fixed32Item(tag: seq<byte>, value: seq<byte>)

  /** t is one varint, no more and no less; it need not be the shortest one. */
  predicate IsVarint(t: seq<byte>) {
    var r := VarintAt(t, 0);
    r.Ok? && r.next == |t|
  }

  predicate HasWireType(tag: seq<byte>, wireType: nat) {
    IsVarint(tag) && VarintAt(tag, 0).value % 8 == wireType
  }

  /** Groups nest; the field numbers of a start and an end tag are not compared. */
  predicate WellFormed(item: Item) {
    match item
    case VarintItem(tag, value) => HasWireType(tag, 0) && IsVarint(value)
    case Fixed64Item(tag, value) => HasWireType(tag, 1) && |value| == 8
    case LengthItem(tag, length, payload) =>
      HasWireType(tag, 2) && IsVarint(length) && VarintAt(length, 0).value == |payload|
    case GroupItem(tag, items, close) =>
      HasWireType(tag, 3) && HasWireType(close, 4) && forall it | it in items :: WellFormed(it)
    case Fixed32Item(tag, value) => HasWireType(tag, 5) && |value| == 4
  }

  function Bytes(item: Item): seq<byte>
    decreases item, 1
  {
    match item
    case VarintItem(tag, value) => tag + value
    case Fixed64Item(tag, value) => tag + value
    case LengthItem(tag, length, payload) => tag + length + payload
    case GroupItem(tag, items, close) => tag + AllBytes(items) + close
    case Fixed32Item(tag, value) => tag + value
  }

  function AllBytes(items: seq<Item>): seq<byte>
    decreases items, 0
  {
    if items == [] then [] else Bytes(items[0]) + AllBytes(items[1..])
  }

  /** What was read inside x reads the same when x stands inside a longer buffer. */
  lemma {:induction false} VarintEmbeds(a: seq<byte>, x: seq<byte>, b: seq<byte>, i: nat, shift: nat, acc: nat)
    requires acc < TWO_64 && VarintFrom(x, i, shift, acc).Ok?
    ensures var r := VarintFrom(x, i, shift, acc);
      VarintFrom(a + x + b, |a| + i, shift, acc) == Ok(r.value, |a| + r.next)
    decreases 64 - shift
  {
    hide Shl;
    assert (a + x + b)[|a| + i] == x[i];
    var sum := (acc + Shl((x[i] as int) % 0x80, shift)) % TWO_64;
    if x[i] >= 0x80 { VarintEmbeds(a, x, b, i + 1, shift + 7, sum); }
  }

  lemma TurnEmbeds(a: seq<byte>, x: seq<byte>, b: seq<byte>, i: nat, depth: nat)
    requires |a| + |x| <= MAX_INT
    requires var t := TurnAt(x, i, depth); t.Turn? && t.next <= |x|
    ensures var t := TurnAt(x, i, depth);
      TurnAt(a + x + b, |a| + i, depth) == Turn(|a| + t.next, t.depth)
  {
    hide VarintFrom;
    VarintEmbeds(a, x, b, i, 0, 0);
    var tag := VarintAt(x, i);
    if tag.value % 8 == 0 || tag.value % 8 == 2 { VarintEmbeds(a, x, b, tag.next, 0, 0); }
  }

  lemma {:induction false} SkipEmbeds(a: seq<byte>, x: seq<byte>, b: seq<byte>, i: nat, depth: nat)
    requires |a| + |x| <= MAX_INT
    requires var r := SkipFrom(x, i, depth); r.Past? && r.n <= |x|
    ensures SkipFrom(a + x + b, |a| + i, depth) == Past(|a| + SkipFrom(x, i, depth).n)
    decreases if i < |x| then |x| - i else 0
  {
    hide TurnAt;
    var t := TurnAt(x, i, depth);
    if t.depth != 0 {
      if t.next < |x| {
        SkipEmbeds(a, x, b, t.next, t.depth);
      }
    }
    TurnEmbeds(a, x, b, i, depth);
  }

  /** Skipping one item at depth d: done if d is 0, else on to the next item. */
  ghost function After(s: seq<byte>, i: nat, depth: nat): Skipped {
    if depth == 0 then Past(i) else SkipFrom(s, i, depth)
  }

  /** A scalar item takes exactly one turn. */
  lemma ScalarTurn(item: Item, depth: nat)
    requires WellFormed(item) && !item.GroupItem? && |Bytes(item)| <= MAX_INT
    ensures TurnAt(Bytes(item), 0, depth) == Turn(|Bytes(item)|, depth)
  {
    hide VarintFrom;
    var rest := if item.LengthItem? then item.length + item.payload else item.value;
    VarintEmbeds([], item.tag, rest, 0, 0, 0);
    assert [] + item.tag + rest == Bytes(item);
    if item.VarintItem? {
      VarintEmbeds(item.tag, item.value, [], 0, 0, 0);
      assert item.tag + item.value + [] == Bytes(item);
    }
    if item.LengthItem? {
      VarintEmbeds(item.tag, item.length, item.payload, 0, 0, 0);
    }
  }

  /** A start or end tag moves the depth by one. */
  lemma TagTurn(a: seq<byte>, tag: seq<byte>, b: seq<byte>, depth: nat)
    requires |a| + |tag| <= MAX_INT
    requires HasWireType(tag, 3) || (HasWireType(tag, 4) && 0 < depth)
    ensures TurnAt(a + tag + b, |a|, depth)
         == Turn(|a| + |tag|, if HasWireType(tag, 3) then depth + 1 else depth - 1)
  {
    hide VarintFrom;
    VarintEmbeds(a, tag, b, 0, 0, 0);
  }

  lemma FourWays(a: seq<byte>, tag: seq<byte>, inner: seq<byte>, close: seq<byte>, b: seq<byte>)
    ensures var s := a + (tag + inner + close) + b;
      && s == a + tag + (inner + close + b)
      && s == (a + tag) + inner + (close + b)
      && s == (a + tag + inner) + close + b
  {
  }

  lemma SkipTurn(s: seq<byte>, i: nat, depth: nat)
    requires i < |s| && TurnAt(s, i, depth).Turn?
    ensures var t := TurnAt(s, i, depth); SkipFrom(s, i, depth) == After(s, t.next, t.depth)
  {
  }

  /** The skipper steps over exactly one well-formed field. */
  lemma {:induction false} SkipsItem(a: seq<byte>, item: Item, b: seq<byte>, depth: nat)
    requires WellFormed(item) && |a| + |Bytes(item)| <= MAX_INT
    ensures SkipFrom(a + Bytes(item) + b, |a|, depth) == After(a + Bytes(item) + b, |a| + |Bytes(item)|, depth)
    decreases item, 1
  {
    hide TurnAt, SkipFrom, HasWireType;
    ItemNonEmpty(item);
    var x := Bytes(item);
    var s := a + x + b;
    if item.GroupItem? {
      var tag, inner, close := item.tag, AllBytes(item.items), item.close;
      FourWays(a, tag, inner, close, b);
      TagTurn(a, tag, inner + close + b, depth);
      SkipTurn(s, |a|, depth);
      SkipsItems(a + tag, item.items, close + b, depth + 1);
      TagTurn(a + tag + inner, close, b, depth + 1);
      SkipTurn(s, |a + tag + inner|, depth + 1);
    } else {
      ScalarTurn(item, depth);
      TurnEmbeds(a, x, b, 0, depth);
      SkipTurn(s, |a|, depth);
    }
  }

  lemma ItemNonEmpty(item: Item)
    requires WellFormed(item)
    ensures Bytes(item) != [] && item.tag != []
    ensures item.GroupItem? ==> HasWireType(item.tag, 3) && HasWireType(item.close, 4) && item.close != []
    ensures item.GroupItem? ==> !HasWireType(item.close, 3)
  {
  }

  lemma {:induction false} SkipsItems(a: seq<byte>, items: seq<Item>, b: seq<byte>, depth: nat)
    requires (forall it | it in items :: WellFormed(it)) && |a| + |AllBytes(items)| <= MAX_INT && 0 < depth
    ensures SkipFrom(a + AllBytes(items) + b, |a|, depth)
         == SkipFrom(a + AllBytes(items) + b, |a| + |AllBytes(items)|, depth)
    decreases items, 0
  {
    hide SkipFrom, WellFormed, Bytes;
    if items != [] {
      var x, y := Bytes(items[0]), AllBytes(items[1..]);
      SkipsItem(a, items[0], y + b, depth);
      SkipsItems(a + x, items[1..], b, depth);
      assert a + x + (y + b) == a + AllBytes(items) + b == (a + x) + y + b;
    }
  }

  /** In bytes, for a tag of one byte: what is stepped over for each wire type. */
  lemma SkipsEachType(tag: byte, v: nat, p: seq<byte>, rest: seq<byte>)
    requires tag < 0x80 && v < TWO_64 && |p| <= MAX_INT - 11
    ensures tag % 8 == 0 ==> SkipFrom([tag] + Varint(v) + rest, 0, 0) == Past(1 + |Varint(v)|)
    ensures tag % 8 == 1 && |p| == 8 ==> SkipFrom([tag] + p + rest, 0, 0) == Past(9)
    ensures tag % 8 == 2 ==> SkipFrom([tag] + Varint(|p|) + p + rest, 0, 0) == Past(1 + |Varint(|p|)| + |p|)
    ensures tag % 8 == 3 ==> SkipFrom([tag, 0x0C] + rest, 0, 0) == Past(2)
    ensures tag % 8 == 4 ==> SkipFrom([tag] + rest, 0, 0) == Bad(EndGroup)
    ensures tag % 8 == 5 && |p| == 4 ==> SkipFrom([tag] + p + rest, 0, 0) == Past(5)
    ensures tag % 8 >= 6 ==> SkipFrom([tag] + rest, 0, 0) == Bad(IllegalWireType)
  {
    hide VarintFrom, Varint;
    match tag % 8
    case 0 =>
      TagStarts([tag] + Varint(v) + rest, 0);
      VarintRoundTrip([tag], v, rest);
      AtMostTen(v);
    case 2 =>
      TagStarts([tag] + Varint(|p|) + p + rest, 0);
      VarintRoundTrip([tag], |p|, p + rest);
      assert [tag] + Varint(|p|) + (p + rest) == [tag] + Varint(|p|) + p + rest;
      AtMostTen(|p|);
    case 3 =>
      TagStarts([tag, 0x0C] + rest, 0);
      TagStarts([tag, 0x0C] + rest, 1);
    case 4 => TagStarts([tag] + rest, 0);
    case 6 => TagStarts([tag] + rest, 0);
    case 7 => TagStarts([tag] + rest, 0);
    case _ => TagStarts([tag] + p + rest, 0);
  }

  /** A byte below 128 is a varint. */
  lemma TagStarts(s: seq<byte>, i: nat)
    requires i < |s| && s[i] < 0x80
    ensures VarintAt(s, i) == Ok(s[i], i + 1)
  {
    ShlIdentity(s[i]);
  }

  // ---- ... and nothing else ----

  /** The bytes a varint was read from are a varint by themselves. */
  lemma VarintAlone(s: seq<byte>, i: nat)
    requires VarintAt(s, i).Ok?
    ensures var r := VarintAt(s, i); VarintAt(s[i..r.next], 0) == Ok(r.value, r.next - i)
  {
    VarintCut(s, i, VarintAt(s, i).next, i, 0, 0);
  }

  lemma {:induction false} VarintCut(s: seq<byte>, lo: nat, hi: nat, i: nat, shift: nat, acc: nat)
    requires acc < TWO_64 && lo <= i && hi <= |s|
    requires var r := VarintFrom(s, i, shift, acc); r.Ok? && r.next == hi
    ensures VarintFrom(s[lo..hi], i - lo, shift, acc) == Ok(VarintFrom(s, i, shift, acc).value, hi - lo)
    decreases 64 - shift
  {
    hide Shl;
    assert s[lo..hi][i - lo] == s[i];
    var sum := (acc + Shl((s[i] as int) % 0x80, shift)) % TWO_64;
    if s[i] >= 0x80 { VarintCut(s, lo, hi, i + 1, shift + 7, sum); }
  }

  /** A turn that keeps the depth has read a scalar item. */
  lemma ScalarAt(s: seq<byte>, i: nat, depth: nat) returns (item: Item)
    requires var t := TurnAt(s, i, depth); t.Turn? && t.depth == depth && t.next <= |s|
    ensures WellFormed(item) && Bytes(item) == s[i..TurnAt(s, i, depth).next]
  {
    hide VarintFrom;
    var n := TurnAt(s, i, depth).next;
    VarintAlone(s, i);
    var j := VarintAt(s, i).next;
    var tag, wireType := s[i..j], VarintAt(s, i).value % 8;
    assert tag + s[j..n] == s[i..n];
    if wireType == 0 {
      VarintAlone(s, j);
      item := VarintItem(tag, s[j..n]);
    } else if wireType == 1 {
      item := Fixed64Item(tag, s[j..n]);
    } else if wireType == 2 {
      VarintAlone(s, j);
      var k := VarintAt(s, j).next;
      item := LengthItem(tag, s[j..k], s[k..n]);
      assert tag + s[j..k] + s[k..n] == s[i..n];
    } else {
      item := Fixed32Item(tag, s[j..n]);
    }
  }

  /** A turn that changes the depth has read a start or an end tag. */
  lemma TagAt(s: seq<byte>, i: nat, depth: nat)
    requires var t := TurnAt(s, i, depth); t.Turn? && t.depth != depth
    ensures var t := TurnAt(s, i, depth);
      && t.next <= |s|
      && HasWireType(s[i..t.next], if t.depth > depth then 3 else 4)
      && t.depth == if t.depth > depth then depth + 1 else depth - 1
  {
    hide VarintFrom;
    VarintAlone(s, i);
  }

  /** Inside a group, a successful skip has read whole items up to an end tag. */
  lemma {:induction false} ParseItems(s: seq<byte>, i: nat, depth: nat)
    returns (items: seq<Item>, close: seq<byte>, k: nat)
    requires 0 < depth && SkipFrom(s, i, depth).Past? && SkipFrom(s, i, depth).n <= |s|
    ensures i < k <= |s| && (forall it | it in items :: WellFormed(it)) && HasWireType(close, 4)
    ensures s[i..k] == AllBytes(items) + close
    ensures SkipFrom(s, i, depth) == After(s, k, depth - 1)
    decreases if i < |s| then |s| - i else 0
  {
    hide TurnAt, VarintFrom, HasWireType;
    SkipTurn(s, i, depth);
    var t := TurnAt(s, i, depth);
    if t.depth == depth {
      var item := ScalarAt(s, i, depth);
      items, close, k := ParseItems(s, t.next, depth);
      Prepend(s, i, t.next, k, item, items, close);
      items := [item] + items;
    } else {
      TagAt(s, i, depth);
      if t.depth < depth {
        items, close, k := [], s[i..t.next], t.next;
      } else {
        var item, j := ParseGroup(s, i, depth);
        items, close, k := ParseItems(s, j, depth);
        Prepend(s, i, j, k, item, items, close);
        items := [item] + items;
      }
    }
  }

  lemma Prepend(s: seq<byte>, i: nat, j: nat, k: nat, item: Item, items: seq<Item>, close: seq<byte>)
    requires i <= j <= k <= |s| && Bytes(item) == s[i..j] && s[j..k] == AllBytes(items) + close
    ensures s[i..k] == AllBytes([item] + items) + close
  {
    hide Bytes;
    assert ([item] + items)[1..] == items;
    assert s[i..k] == s[i..j] + s[j..k];
  }

  lemma {:induction false} ParseGroup(s: seq<byte>, i: nat, depth: nat) returns (item: Item, k: nat)
    requires TurnAt(s, i, depth).Turn? && TurnAt(s, i, depth).depth == depth + 1
    requires i < |s| && SkipFrom(s, i, depth).Past? && SkipFrom(s, i, depth).n <= |s|
    ensures i < k <= |s| && WellFormed(item) && Bytes(item) == s[i..k]
    ensures SkipFrom(s, i, depth) == After(s, k, depth)
    decreases |s| - i, 0
  {
    hide TurnAt, VarintFrom, HasWireType;
    SkipTurn(s, i, depth);
    TagAt(s, i, depth);
    var n := TurnAt(s, i, depth).next;
    var items, close;
    items, close, k := ParseItems(s, n, depth + 1);
    item := GroupItem(s[i..n], items, close);
    assert s[i..n] + s[n..k] == s[i..k];
    assert s[i..n] + AllBytes(items) + close == s[i..n] + (AllBytes(items) + close);
  }

  /** On any buffer, skipping n bytes that are there succeeds exactly when those n
      bytes are one well-formed field. */
  lemma SkipsExactlyOneField(s: seq<byte>, n: nat)
    requires |s| <= MAX_INT && n <= |s|
    ensures SkipFrom(s, 0, 0) == Past(n) <==> exists item :: WellFormed(item) && Bytes(item) == s[..n]
  {
    hide SkipFrom, WellFormed, Bytes;
    if SkipFrom(s, 0, 0) == Past(n) {
      var item := ParseField(s);
      assert WellFormed(item) && Bytes(item) == s[..n];
    }
    if item :| WellFormed(item) && Bytes(item) == s[..n] {
      assert [] + s[..n] + s[n..] == s;
      SkipsItem([], item, s[n..], 0);
    }
  }

  lemma ParseField(s: seq<byte>) returns (item: Item)
    requires SkipFrom(s, 0, 0).Past? && SkipFrom(s, 0, 0).n <= |s|
    ensures WellFormed(item) && Bytes(item) == s[..SkipFrom(s, 0, 0).n]
  {
    hide TurnAt, WellFormed;
    SkipTurn(s, 0, 0);
    var t := TurnAt(s, 0, 0);
    if t.depth == 0 {
      item := ScalarAt(s, 0, 0);
      assert s[0..t.next] == s[..t.next];
    } else {
      TagAt(s, 0, 0);
      var k;
      item, k := ParseGroup(s, 0, 0);
      assert s[0..k] == s[..k];
    }
  }
}
