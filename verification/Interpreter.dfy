/** The schema interpreter as it runs: a decode state that moves forward, and loops over actions and packets. */
module Interpreter {
  import opened Bytes
  import opened Packing
  import opened Schema

  /** m_Data with m_DataLeft (what it points at), and m_DataOffset. */
  class DecodeState {
    var data: bytes
    var offset: nat

    ghost function Now(): View
      reads this
    {
      View(data, offset)
    }

    constructor (data: bytes, offset: nat)
      ensures Now() == View(data, offset)
    {
      this.data, this.offset := data, offset;
    }

    method Advance(n: nat)
      requires n <= |data|
      modifies this
      ensures Now() == View(old(data)[n..], old(offset) + n)
    {
      data, offset := data[n..], offset + n;
    }
  }

  // ---------- sizes ----------

  method GetConstantSize(t: Type) returns (size: nat)
    ensures size == ConstantSize(t)
    decreases t, 0
  {
    match t
    case Unsigned(width, count, minCount, _) => size := if count != minCount then 0 else count * width;
    case Text(length, minLength) => size := if minLength != length then 0 else length;
    case Float(count) => size := count * 4;
    case Double(count) => size := count * 8;
    case Length => size := 4;
    case UnixTime => size := 4;
    case Struct(count, minCount, actions) =>
      if count != minCount {
        return 0;
      }
      size := SumOfFields(actions);
      size := size * count;
  }

  /** The loop over fields, in Struct::GetConstantSize and in Packet::ParseNode. */
  method SumOfFields(actions: seq<Action>) returns (size: nat)
    ensures size == FieldBytes(actions)
    decreases actions, 1
  {
    size := 0;
    for i := 0 to |actions|
      invariant AllConstant(actions[i..]) == AllConstant(actions)
      invariant size + FieldSum(actions[i..]) == FieldSum(actions)
    {
      assert actions[i..][1..] == actions[i + 1..];
      var n := FieldSize(actions[i]);
      if actions[i].Field? && n == 0 {
        return 0;
      }
      size := size + n;
    }
    assert actions[|actions|..] == [];
  }

  method FieldSize(a: Action) returns (size: nat)
    ensures size == ActionSize(a)
    decreases a, 1
  {
    size := 0;
    if a.Field? {
      size := GetConstantSize(a.typ);
    }
  }

  // ---------- leaves ----------

  /** unsignedType::Fill: the numbers it stores, and its result. */
  method FillUnsigned(width: nat, count: nat, minCount: nat, fixed: Option<uint32>, s: bytes) returns (size: int, stored: seq<nat>)
    requires 1 <= width <= 4
    ensures size == LeafSize(Unsigned(width, count, minCount, fixed), s)
    ensures size > 0 ==>
              && width * |stored| == size
              && forall n | 0 <= n < |stored| :: width * n + width <= |s| && stored[n] == Number(s[width * n..width * n + width])
  {
    stored := [];
    if width * minCount > |s| {
      return 0, stored;
    }
    var num := |s| / width;
    if num > count {
      num := count;
    }
    TimesDivide(|s|, width, num);
    for n := 0 to num
      invariant |stored| == n
      invariant forall k | 0 <= k < n :: width * k + width <= |s| && stored[k] == Number(s[width * k..width * k + width])
    {
      TimesMonotone(width, n + 1, num);
      assert width * (n + 1) == width * n + width;
      var value := ReadNumber(s[width * n..width * n + width]);
      stored := stored + [value];
    }
    if fixed.Some? && num > 0 && stored[0] != fixed.value {
      assert s[width * 0..width * 0 + width] == s[..width];
      return -1, stored;
    }
    if num > 0 {
      assert s[width * 0..width * 0 + width] == s[..width];
    }
    size := width * num;
  }

  /** The byte-by-byte assembly of a value of 1 to 4 bytes. */
  method ReadNumber(s: bytes) returns (value: nat)
    requires 1 <= |s| <= 4
    ensures value == Number(s)
  {
    var b0: nat := s[0];
    value := b0;
    var b1: nat, b2: nat, b3: nat := 0, 0, 0;
    if |s| > 1 {
      b1 := s[1];
      value := value + 0x100 * b1;
    }
    if |s| > 2 {
      b2 := s[2];
      value := value + 0x1_0000 * b2;
    }
    if |s| > 3 {
      b3 := s[3];
      value := value + 0x100_0000 * b3;
    }
    NumberUnfolds(s, b0, b1, b2, b3);
  }

  lemma NumberUnfolds(s: bytes, b0: nat, b1: nat, b2: nat, b3: nat)
    requires 1 <= |s| <= 4 && s[0] == b0
    requires b1 == if |s| > 1 then s[1] else 0
    requires b2 == if |s| > 2 then s[2] else 0
    requires b3 == if |s| > 3 then s[3] else 0
    ensures Number(s) == b0 + 0x100 * b1 + 0x1_0000 * b2 + 0x100_0000 * b3
  {
    assert Number(s) == b0 + 256 * Number(s[1..]);
    if |s| > 1 {
      assert Number(s[1..]) == b1 + 256 * Number(s[1..][1..]);
      if |s| > 2 {
        assert Number(s[1..][1..]) == b2 + 256 * Number(s[1..][1..][1..]);
        if |s| > 3 {
          assert Number(s[1..][1..][1..]) == b3 + 256 * Number(s[1..][1..][1..][1..]);
        }
      }
    }
  }

  method FillLeaf(t: Type, s: bytes) returns (size: int)
    requires !t.Struct? && (t.Unsigned? ==> 1 <= t.width <= 4)
    ensures size == LeafSize(t, s)
  {
    match t
    case Unsigned(width, count, minCount, fixed) =>
      var stored;
      size, stored := FillUnsigned(width, count, minCount, fixed, s);
    case Text(length, minLength) =>
      if |s| < minLength {
        return 0;
      }
      size := length;
      if size > |s| {
        size := |s|;
      }
    case Float(count) => size := if |s| < count * 4 then 0 else count * 4;
    case Double(count) => size := if |s| < count * 8 then 0 else count * 8;
    case Length =>
      if |s| < 4 {
        return 0;
      }
      var value := (U32(s) + 4) % UINT32_RANGE;
      size := if value != |s| % UINT32_RANGE then 0 else 4;
    case UnixTime => size := if |s| < 4 then 0 else 4;
  }

  // ---------- the interpreter ----------

  /** Widths are those of the built-in types, at every depth. */
  predicate WidthsOk(t: Type)
    decreases t, 0
  {
    match t
    case Unsigned(width, _, _, _) => 1 <= width <= 4
    case Struct(_, _, actions) => WidthsOkAll(actions)
    case _ => true
  }

  predicate WidthsOkOne(a: Action)
    decreases a, 1
  {
    a.Field? ==> WidthsOk(a.typ)
  }

  predicate WidthsOkAll(actions: seq<Action>)
    decreases actions, 2
  {
    forall i | 0 <= i < |actions| :: WidthsOkOne(actions[i])
  }

  method FillType(t: Type, state: DecodeState) returns (r: Filled)
    requires WidthsOk(t)
    ensures r == Fill(t, state.Now())
    decreases t, 0
  {
    match t
    case Struct(_, _, actions) =>
      r := FillStruct(actions, state);
    case _ =>
      var n := FillLeaf(t, state.data);
      r := Filled(n, if n > 0 then [Value(state.offset, state.data[..n])] else []);
  }

  /** Field::Process and the other actions. */
  method Process(a: Action, state: DecodeState) returns (ok: bool, values: seq<Value>)
    requires WidthsOkOne(a)
    modifies state
    ensures var p := ProcessOne(a, old(state.Now())); ok == p.ok && values == p.values && state.Now() == p.view
    decreases a, 1
  {
    match a
    case Field(t) =>
      var r := FillType(t, state);
      ok, values := r.size > 0, r.values;
      if ok {
        state.Advance(r.size);
      }
    case Transform =>
      values := [];
      var out := Unpacked(state.data);
      ok := out.Some?;
      if ok {
        state.data, state.offset := out.value, 0;
      }
    case Annotate =>
      ok, values := true, [];
  }

  /** Struct::Fill: actions on a copy of the state, until one fails. */
  method FillStruct(actions: seq<Action>, state: DecodeState) returns (r: Filled)
    requires WidthsOkAll(actions)
    ensures r == RunStruct(actions, state.Now())
    decreases actions, 2
  {
    var sub := new DecodeState(state.data, state.offset);
    ghost var start, total := state.Now(), RunActions(actions, state.Now());
    var values: seq<Value> := [];
    var i, ok := 0, true;
    assert actions[0..] == actions;
    assert Behind([], total) == total;
    while ok && i < |actions|
      invariant i <= |actions| && fresh(sub) && state.Now() == start
      invariant if ok then Behind(values, RunActions(actions[i..], sub.Now())) == total
                else values == total.values && sub.Now() == total.view
      decreases ok, |actions| - i
    {
      var before := values;
      ghost var rest := actions[i..];
      assert rest[1..] == actions[i + 1..];
      var more;
      ok, more := Process(actions[i], sub);
      values := before + more;
      if ok {
        BehindTwice(before, more, RunActions(rest[1..], sub.Now()));
      }
      i := i + 1;
    }
    r := Filled(|state.data| - |sub.data|, values);
  }

  lemma BehindTwice(a: seq<Value>, b: seq<Value>, p: Processed)
    ensures Behind(a, Behind(b, p)) == Behind(a + b, p)
  {
    assert a + (b + p.values) == (a + b) + p.values;
  }

  predicate PacketOk(p: Packet) {
    Loadable(p) && WidthsOkAll(p.actions) && forall i | 0 <= i < |p.subpackets| :: WidthsOkAll(p.subpackets[i])
  }

  /** Packet::Fill: the header, then the first subpacket that uses up what is left. */
  method FillWhole(p: Packet, state: DecodeState) returns (r: PacketFill)
    requires PacketOk(p)
    ensures r == FillPacket(p, state.Now())
  {
    var header := FillStruct(p.actions, state);
    if header.size < 0 {
      return PacketFill(0, None, header.values);
    }
    var n := SumOfFields(p.actions);
    if p.subpackets != [] && header.size != n {
      return PacketFill(0, None, header.values);
    }
    r := PacketFill(header.size, None, header.values);
    if p.subpackets == [] {
      return;
    }
    var rest := new DecodeState(state.data[n..], state.offset + n);
    var i := 0;
    while i < |p.subpackets|
      invariant i <= |p.subpackets| && fresh(rest) && rest.Now() == View(state.data[n..], state.offset + n)
      invariant FirstFull(p.subpackets, 0, rest.Now()) == FirstFull(p.subpackets, i, rest.Now())
    {
      var amount := FillStruct(p.subpackets[i], rest);
      if amount.size == |rest.data| {
        return PacketFill(header.size + |rest.data|, Some(i), header.values + amount.values);
      }
      i := i + 1;
    }
  }

  /** ProtocolDefinition::Process: the first packet that uses up all the data. */
  method ProcessData(packets: seq<Packet>, data: bytes) returns (found: Option<nat>)
    requires forall i | 0 <= i < |packets| :: Loadable(packets[i]) && PacketOk(packets[i])
    ensures found == Recognise(packets, data)
  {
    var state := new DecodeState(data, 0);
    for i := 0 to |packets|
      invariant fresh(state) && state.Now() == View(data, 0)
      invariant Recognise(packets, data) == RecogniseFrom(packets, i, data)
    {
      var r := FillWhole(packets[i], state);
      if r.size == |data| {
        return Some(i);
      }
    }
    found := None;
  }
}
