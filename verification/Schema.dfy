/** Packet schemas, what decoding by a schema gives, and what constant sizes promise about it. */
module Schema {
  import opened Bytes
  import opened RomPacker
  import opened Packing

  datatype Type =
    | Unsigned(width: nat, count: nat, minCount: nat, fixed: Option<uint32>)
    | Text(length: nat, minLength: nat)
    | Float(count: nat)
    | Double(count: nat)
    | Length
    | UnixTime
    | Struct(count: nat, minCount: nat, actions: seq<Action>)

  datatype Action =
    | Field(typ: Type)
    | Transform
    | Annotate

  /** A decoded leaf: where it was found, and its bytes. */
  datatype Value = Value(offset: nat, raw: bytes)

  /** The undecoded bytes, and their offset for display. */
  datatype View = View(data: bytes, offset: nat)

  /** What a Fill returns, and the leaves it stored. */
  datatype Filled = Filled(size: int, values: seq<Value>)

  /** What a Process leaves behind. */
  datatype Processed = Processed(ok: bool, view: View, values: seq<Value>)

  /** Little-endian number of up to 4 bytes. */
  function Number(s: bytes): nat {
    if s == [] then 0 else s[0] + 256 * Number(s[1..])
  }

  // ---------- decoding ----------

  /** How many bytes a leaf takes; 0 or less when it does not decode. */
  function LeafSize(t: Type, s: bytes): (n: int)
    requires !t.Struct?
    ensures n <= |s|
  {
    match t
    case Unsigned(width, count, minCount, fixed) =>
      if width * minCount > |s| || width == 0 then 0
      else
        var num := if |s| / width > count then count else |s| / width;
        TimesDivide(|s|, width, num);
        if fixed.Some? && num > 0 && Number(s[..width]) != fixed.value then -1
        else width * num
    case Text(length, minLength) =>
      if |s| < minLength then 0 else if length > |s| then |s| else length
    case Float(count) => if |s| < 4 * count then 0 else 4 * count
    case Double(count) => if |s| < 8 * count then 0 else 8 * count
    case Length => if |s| < 4 || (U32(s) + 4) % UINT32_RANGE != |s| % UINT32_RANGE then 0 else 4
    case UnixTime => if |s| < 4 then 0 else 4
  }

  lemma TimesDivide(n: nat, width: nat, num: nat)
    requires 0 < width && num <= n / width
    ensures width <= n || num == 0
    ensures width * num <= n
  {
    assert width * num <= width * (n / width);
    if n < width {
      assert n / width == 0;
    }
  }

  function Fill(t: Type, v: View): (r: Filled)
    ensures r.size <= |v.data|
    decreases t, 0
  {
    match t
    case Struct(_, _, actions) =>
      var p := RunActions(actions, v);
      Filled(|v.data| - |p.view.data|, p.values)
    case _ =>
      var n := LeafSize(t, v.data);
      Filled(n, if n > 0 then [Value(v.offset, v.data[..n])] else [])
  }

  function ProcessOne(a: Action, v: View): Processed
    decreases a, 1
  {
    match a
    case Field(t) =>
      var f := Fill(t, v);
      if f.size <= 0 then Processed(false, v, f.values)
      else Processed(true, View(v.data[f.size..], v.offset + f.size), f.values)
    case Transform =>
      (match Unpacked(v.data)
       case Some(out) => Processed(true, View(out, 0), [])
       case None => Processed(false, v, []))
    case Annotate => Processed(true, v, [])
  }

  /** Actions in order, until one fails. */
  function RunActions(actions: seq<Action>, v: View): Processed
    decreases actions, 2
  {
    if actions == [] then Processed(true, v, [])
    else
      var p := ProcessOne(actions[0], v);
      if !p.ok then p else Behind(p.values, RunActions(actions[1..], p.view))
  }

  function Behind(values: seq<Value>, p: Processed): Processed {
    p.(values := values + p.values)
  }

  // ---------- constant sizes ----------

  function ConstantSize(t: Type): nat
    decreases t, 0
  {
    match t
    case Unsigned(width, count, minCount, _) => if count != minCount then 0 else count * width
    case Text(length, minLength) => if minLength != length then 0 else length
    case Float(count) => count * 4
    case Double(count) => count * 8
    case Length => 4
    case UnixTime => 4
    case Struct(count, minCount, actions) => if count != minCount then 0 else FieldBytes(actions) * count
  }

  /** The sum of the fields' sizes; 0 as soon as one of them is not constant. */
  function FieldBytes(actions: seq<Action>): nat
    decreases actions, 1
  {
    if AllConstant(actions) then FieldSum(actions) else 0
  }

  function ActionSize(a: Action): nat
    decreases a, 1
  {
    if a.Field? then ConstantSize(a.typ) else 0
  }

  predicate AllConstant(actions: seq<Action>)
    decreases actions, 0
  {
    actions == [] || ((actions[0].Field? ==> ActionSize(actions[0]) > 0) && AllConstant(actions[1..]))
  }

  function FieldSum(actions: seq<Action>): nat
    decreases actions, 0
  {
    if actions == [] then 0 else ActionSize(actions[0]) + FieldSum(actions[1..])
  }

  /** No transformation at any depth. */
  predicate Untransformed(t: Type)
    decreases t, 0
  {
    t.Struct? ==> UntransformedAll(t.actions)
  }

  predicate UntransformedOne(a: Action)
    decreases a, 1
  {
    !a.Transform? && (a.Field? ==> Untransformed(a.typ))
  }

  predicate UntransformedAll(actions: seq<Action>)
    decreases actions, 0
  {
    actions == [] || (UntransformedOne(actions[0]) && UntransformedAll(actions[1..]))
  }

  // ---------- layout: where constant-size fields lie, and when they match ----------

  /** The leaf's own check on its bytes; `left` is what remains of the packet from here. */
  predicate LeafMatches(t: Type, s: bytes)
    requires !t.Struct?
  {
    && ConstantSize(t) <= |s|
    && (t.Unsigned? && t.fixed.Some? ==> t.width <= |s| && Number(s[..t.width]) == t.fixed.value)
    && (t.Length? ==> (U32(s) + 4) % UINT32_RANGE == |s| % UINT32_RANGE)
  }

  /** Every leaf at every depth is there and passes its check, each field right behind the one before; no struct is repeated. */
  predicate Matches(t: Type, s: bytes)
    decreases t, 0
  {
    match t
    case Struct(count, _, actions) => count == 1 && MatchesAll(actions, s)
    case _ => LeafMatches(t, s)
  }

  predicate MatchesOne(a: Action, s: bytes)
    decreases a, 1
  {
    a.Field? ==> Matches(a.typ, s) && ConstantSize(a.typ) <= |s|
  }

  predicate MatchesAll(actions: seq<Action>, s: bytes)
    decreases actions, 0
  {
    actions == [] || (MatchesOne(actions[0], s) && MatchesAll(actions[1..], s[ActionSize(actions[0])..]))
  }

  lemma UnsignedTakesItsSize(width: nat, count: nat, fixed: Option<uint32>, s: bytes)
    requires width > 0 && count > 0
    ensures var t := Unsigned(width, count, count, fixed);
            && LeafSize(t, s) <= count * width
            && (LeafSize(t, s) == count * width <==> LeafMatches(t, s))
  {
    assert count * width == width * count;
    if width * count <= |s| {
      DivideAtLeast(|s|, width, count);
      assert width <= width * count;
    }
  }

  lemma LeafTakesItsSize(t: Type, s: bytes)
    requires !t.Struct? && ConstantSize(t) > 0
    ensures LeafSize(t, s) <= ConstantSize(t)
    ensures LeafSize(t, s) == ConstantSize(t) <==> LeafMatches(t, s)
  {
    hide Number;
    if t.Unsigned? {
      CountsPositive(t.width, t.count);
      UnsignedTakesItsSize(t.width, t.count, t.fixed, s);
    }
  }

  lemma CountsPositive(width: nat, count: nat)
    requires count * width > 0
    ensures width > 0 && count > 0
  {
  }

  lemma QuotientBound(n: nat, width: nat)
    requires 0 < width
    ensures n < width * (n / width + 1)
  {
    assert n == width * (n / width) + n % width;
  }

  lemma TimesMonotone(width: nat, a: nat, b: nat)
    ensures a <= b ==> width * a <= width * b
  {
  }

  lemma DivideAtLeast(n: nat, width: nat, count: nat)
    requires 0 < width && width * count <= n
    ensures count <= n / width
  {
    QuotientBound(n, width);
    TimesMonotone(width, n / width + 1, count);
  }

  // ---------- leaves of variable size ----------

  /** With enough bytes, a string takes all there are, up to its length. */
  lemma TextTakes(length: nat, minLength: nat, s: bytes)
    ensures var n := LeafSize(Text(length, minLength), s);
            if |s| < minLength then n == 0 else n <= length && n <= |s| && (n == length || n == |s|)
  {
  }

  /** The fixed value of a list of numbers, compared with its first entry. */
  predicate WrongValue(width: nat, count: nat, fixed: Option<uint32>, s: bytes) {
    fixed.Some? && 0 < count && width <= |s| && Number(s[..width]) != fixed.value
  }

  /** With enough bytes and the right first value, a list of numbers takes all whole entries there are, up to its count. */
  lemma UnsignedTakes(width: nat, count: nat, minCount: nat, fixed: Option<uint32>, s: bytes) returns (entries: nat)
    requires 0 < width
    ensures entries <= count && width * entries <= |s| && (entries == count || |s| - width * entries < width)
    ensures LeafSize(Unsigned(width, count, minCount, fixed), s) ==
            if |s| < width * minCount then 0
            else if WrongValue(width, count, fixed, s) then -1
            else width * entries
  {
    hide Number;
    entries := if |s| / width > count then count else |s| / width;
    TimesDivide(|s|, width, entries);
    QuotientBound(|s|, width);
  }

  /** The leaf's own limits on what it uses up completely. */
  predicate TakesAll(t: Type, s: bytes) {
    match t
    case Unsigned(width, count, minCount, fixed) =>
      && 0 < width && |s| % width == 0 && minCount <= |s| / width <= count
      && !WrongValue(width, count, fixed, s)
    case Text(length, minLength) => minLength <= |s| <= length
    case Float(count) => |s| == 4 * count
    case Double(count) => |s| == 8 * count
    case Length => |s| == 4 && U32(s) == 0
    case UnixTime => |s| == 4
    case Struct(_, _, _) => false
  }

  /** A leaf uses up exactly the bytes within its limits, whatever its size may be. */
  lemma LeafTakesAllExactly(t: Type, s: bytes)
    requires !t.Struct? && s != []
    ensures LeafSize(t, s) == |s| <==> TakesAll(t, s)
  {
    hide Number, U32;
    match t
    case Unsigned(width, count, minCount, fixed) =>
      if width > 0 {
        var entries := UnsignedTakes(width, count, minCount, fixed, s);
        hide LeafSize, WrongValue;
        EntriesFill(|s|, width, entries, count, minCount);
      }
    case _ =>
  }

  lemma EntriesFill(n: nat, width: nat, entries: nat, count: nat, minCount: nat)
    requires 0 < width && entries <= count && width * entries <= n && (entries == count || n - width * entries < width)
    ensures width * entries == n <==> n % width == 0 && n / width <= count
    ensures n % width == 0 ==> (width * minCount <= n <==> minCount <= n / width)
  {
    var q := n / width;
    assert n == width * q + n % width;
    TimesMonotone(width, q + 1, entries);
    TimesMonotone(width, entries + 1, q);
    TimesMonotone(width, minCount, q);
    TimesMonotone(width, q + 1, minCount);
    if width * entries == n {
      QuotientOf(n, width, entries, 0);
    }
  }

  /** A type of constant size never takes more than that, and takes all of it exactly when every leaf matches. */
  lemma {:induction false} ConstantSizeMeansMatch(t: Type, v: View)
    requires ConstantSize(t) > 0 && Untransformed(t)
    ensures Fill(t, v).size <= ConstantSize(t)
    ensures Fill(t, v).size == ConstantSize(t) <==> Matches(t, v.data)
    decreases t, 0
  {
    hide LeafSize, LeafMatches;
    match t
    case Struct(count, minCount, actions) =>
      StructSize(count, minCount, actions);
      FieldsMeanMatch(actions, v);
    case _ =>
      LeafTakesItsSize(t, v.data);
  }

  lemma StructSize(count: nat, minCount: nat, actions: seq<Action>)
    requires ConstantSize(Struct(count, minCount, actions)) > 0
    ensures AllConstant(actions) && count >= 1 && FieldSum(actions) > 0
    ensures ConstantSize(Struct(count, minCount, actions)) >= FieldSum(actions)
    ensures ConstantSize(Struct(count, minCount, actions)) == FieldSum(actions) <==> count == 1
  {
    var n := FieldBytes(actions);
    assert count == minCount && ConstantSize(Struct(count, minCount, actions)) == n * count;
    hide FieldBytes, ConstantSize;
    TimesAtLeast(n, count);
  }

  lemma TimesAtLeast(n: nat, count: nat)
    ensures n * count > 0 ==> n > 0 && count >= 1 && n * count >= n && (n * count == n <==> count == 1)
  {
    if n > 0 && count > 1 {
      assert n * count == n + n * (count - 1);
      assert n * (count - 1) >= n;
    }
  }

  lemma {:induction false} FieldsMeanMatch(actions: seq<Action>, v: View)
    requires AllConstant(actions) && UntransformedAll(actions)
    ensures var p := RunActions(actions, v);
            && |p.view.data| <= |v.data|
            && |v.data| - |p.view.data| <= FieldSum(actions)
            && (|v.data| - |p.view.data| == FieldSum(actions) <==> MatchesAll(actions, v.data))
            && (MatchesAll(actions, v.data) ==> p.ok && p.view == View(v.data[FieldSum(actions)..], v.offset + FieldSum(actions)))
    decreases actions, 0
  {
    if actions != [] {
      var a, rest := actions[0], actions[1..];
      ActionMeansMatch(a, v);
      var p := ProcessOne(a, v);
      if p.ok {
        FieldsMeanMatch(rest, p.view);
        if MatchesOne(a, v.data) && MatchesAll(rest, p.view.data) {
          assert p.view.data[FieldSum(rest)..] == v.data[FieldSum(actions)..];
        }
      }
    }
  }

  lemma {:induction false} ActionMeansMatch(a: Action, v: View)
    requires (a.Field? ==> ActionSize(a) > 0) && UntransformedOne(a)
    ensures var p := ProcessOne(a, v);
            && |p.view.data| <= |v.data| && |v.data| - |p.view.data| <= ActionSize(a)
            && (|v.data| - |p.view.data| == ActionSize(a) <==> MatchesOne(a, v.data))
            && (MatchesOne(a, v.data) ==> p.ok && p.view == View(v.data[ActionSize(a)..], v.offset + ActionSize(a)))
            && (!p.ok ==> p.view == v)
    decreases a, 1
  {
    match a
    case Field(t) => ConstantSizeMeansMatch(t, v);
    case _ =>
  }

  // ---------- what is decoded ----------

  /** The leaves of a matching type, each at its constant offset. */
  function Leaves(t: Type, v: View): seq<Value>
    requires Matches(t, v.data) && ConstantSize(t) <= |v.data|
    decreases t, 0
  {
    match t
    case Struct(_, _, actions) => LeavesAll(actions, v)
    case _ => [Value(v.offset, v.data[..ConstantSize(t)])]
  }

  function LeavesOne(a: Action, v: View): seq<Value>
    requires MatchesOne(a, v.data)
    decreases a, 1
  {
    if a.Field? then Leaves(a.typ, v) else []
  }

  function LeavesAll(actions: seq<Action>, v: View): seq<Value>
    requires MatchesAll(actions, v.data)
    decreases actions, 0
  {
    if actions == [] then []
    else
      var n := ActionSize(actions[0]);
      LeavesOne(actions[0], v) + LeavesAll(actions[1..], View(v.data[n..], v.offset + n))
  }

  /** When everything matches, exactly the leaves of the layout have been stored, in order. */
  lemma {:induction false} MatchStoresLeaves(t: Type, v: View)
    requires ConstantSize(t) > 0 && Untransformed(t) && Matches(t, v.data) && ConstantSize(t) <= |v.data|
    ensures Fill(t, v).values == Leaves(t, v)
    decreases t, 0
  {
    match t
    case Struct(_, _, actions) => MatchStoresAll(actions, v);
    case _ => LeafTakesItsSize(t, v.data);
  }

  lemma {:induction false} MatchStoresOne(a: Action, v: View)
    requires (a.Field? ==> ActionSize(a) > 0) && UntransformedOne(a) && MatchesOne(a, v.data)
    ensures ProcessOne(a, v).values == LeavesOne(a, v)
    decreases a, 1
  {
    match a
    case Field(t) =>
      ConstantSizeMeansMatch(t, v);
      MatchStoresLeaves(t, v);
    case _ =>
  }

  lemma {:induction false} MatchStoresAll(actions: seq<Action>, v: View)
    requires AllConstant(actions) && UntransformedAll(actions) && MatchesAll(actions, v.data)
    ensures RunActions(actions, v).values == LeavesAll(actions, v)
    decreases actions, 0
  {
    if actions != [] {
      ActionMeansMatch(actions[0], v);
      MatchStoresOne(actions[0], v);
      MatchStoresAll(actions[1..], ProcessOne(actions[0], v).view);
    }
  }

  // ---------- packets ----------

  datatype Packet = Packet(actions: seq<Action>, subpackets: seq<seq<Action>>)

  /** m_NumPacketBytes, as the schema loader computes it. */
  function HeaderBytes(p: Packet): nat {
    FieldBytes(p.actions)
  }

  /** The loader refuses subpackets behind a header without a constant size. */
  predicate Loadable(p: Packet) {
    p.subpackets != [] ==> HeaderBytes(p) > 0
  }

  function RunStruct(actions: seq<Action>, v: View): Filled {
    var p := RunActions(actions, v);
    Filled(|v.data| - |p.view.data|, p.values)
  }

  datatype PacketFill = PacketFill(size: int, subpacket: Option<nat>, values: seq<Value>)

  /** The first subpacket, from the `i`-th, that uses up all of the view. */
  function FirstFull(subpackets: seq<seq<Action>>, i: nat, v: View): (r: Option<nat>)
    requires i <= |subpackets|
    ensures r.Some? ==> i <= r.value < |subpackets| && RunStruct(subpackets[r.value], v).size == |v.data|
    decreases |subpackets| - i
  {
    if i == |subpackets| then None
    else if RunStruct(subpackets[i], v).size == |v.data| then Some(i)
    else FirstFull(subpackets, i + 1, v)
  }

  function FillPacket(p: Packet, v: View): PacketFill
    requires Loadable(p)
  {
    var header := RunStruct(p.actions, v);
    if header.size < 0 then PacketFill(0, None, header.values)
    else if p.subpackets == [] then PacketFill(header.size, None, header.values)
    else if header.size != HeaderBytes(p) then PacketFill(0, None, header.values)
    else
      var rest := View(v.data[HeaderBytes(p)..], v.offset + HeaderBytes(p));
      match FirstFull(p.subpackets, 0, rest)
      case Some(i) => PacketFill(|v.data|, Some(i), header.values + RunStruct(p.subpackets[i], rest).values)
      case None => PacketFill(header.size, None, header.values)
  }

  /** The first packet that uses up all the data. */
  function Recognise(packets: seq<Packet>, data: bytes): Option<nat>
    requires forall i | 0 <= i < |packets| :: Loadable(packets[i])
  {
    RecogniseFrom(packets, 0, data)
  }

  function RecogniseFrom(packets: seq<Packet>, i: nat, data: bytes): Option<nat>
    requires i <= |packets|
    requires forall i | 0 <= i < |packets| :: Loadable(packets[i])
    decreases |packets| - i
  {
    if i == |packets| then None
    else if FillPacket(packets[i], View(data, 0)).size == |data| then Some(i)
    else RecogniseFrom(packets, i + 1, data)
  }

  /**
   * The header check of a packet with subpackets: it passes exactly when every header field is there, every fixed
   * value is right and the length field gives what is left.
   */
  lemma HeaderCheckMeansMatch(p: Packet, v: View)
    requires Loadable(p) && p.subpackets != [] && UntransformedAll(p.actions)
    ensures RunStruct(p.actions, v).size == HeaderBytes(p) <==> MatchesAll(p.actions, v.data)
    ensures RunStruct(p.actions, v).size <= HeaderBytes(p)
  {
    FieldsMeanMatch(p.actions, v);
  }

  // ---------- who is recognised ----------

  /** The `k`-th struct is the first of them to use up all of the view. */
  ghost predicate IsFirstFull(subpackets: seq<seq<Action>>, v: View, k: nat) {
    && k < |subpackets| && RunStruct(subpackets[k], v).size == |v.data|
    && forall h | 0 <= h < k :: RunStruct(subpackets[h], v).size != |v.data|
  }

  lemma {:induction false} FirstFullFrom(subpackets: seq<seq<Action>>, i: nat, v: View)
    requires i <= |subpackets|
    requires forall h | 0 <= h < i :: RunStruct(subpackets[h], v).size != |v.data|
    ensures var r := FirstFull(subpackets, i, v);
            if r.Some? then IsFirstFull(subpackets, v, r.value)
            else forall h | 0 <= h < |subpackets| :: RunStruct(subpackets[h], v).size != |v.data|
    decreases |subpackets| - i
  {
    hide RunStruct;
    if i < |subpackets| && RunStruct(subpackets[i], v).size != |v.data| {
      FirstFullFrom(subpackets, i + 1, v);
    }
  }

  /**
   * A packet with subpackets takes all its data exactly when its header matches and nothing is behind it, or some
   * subpacket uses that up; the subpacket it then names is the first to do so. Without subpackets its own fields decide.
   */
  lemma PacketTakesAllExactly(p: Packet, v: View)
    requires Loadable(p) && UntransformedAll(p.actions)
    ensures p.subpackets == [] && RunStruct(p.actions, v).size >= 0 ==> FillPacket(p, v).size == RunStruct(p.actions, v).size
    ensures p.subpackets == [] ==> FillPacket(p, v).subpacket == None
    ensures p.subpackets != [] && MatchesAll(p.actions, v.data) ==>
              var n := HeaderBytes(p);
              && n <= |v.data|
              && var rest := View(v.data[n..], v.offset + n);
                 && (FillPacket(p, v).size == |v.data| <==>
                      (rest.data == [] ||
                       exists k | 0 <= k < |p.subpackets| :: RunStruct(p.subpackets[k], rest).size == |rest.data|))
                 && (forall k: nat :: FillPacket(p, v).subpacket == Some(k) <==> IsFirstFull(p.subpackets, rest, k))
                 && (forall k: nat :: FillPacket(p, v).subpacket == Some(k) ==>
                      FillPacket(p, v).values == LeavesAll(p.actions, v) + RunStruct(p.subpackets[k], rest).values)
    ensures p.subpackets != [] && !MatchesAll(p.actions, v.data) ==>
              FillPacket(p, v).size == 0 && FillPacket(p, v).subpacket == None
  {
    hide RunActions, MatchesAll, FieldSum, FieldBytes, FirstFull, LeavesAll;
    if p.subpackets != [] {
      HeaderCheckMeansMatch(p, v);
      var n := HeaderBytes(p);
      if MatchesAll(p.actions, v.data) {
        HeaderDecodes(p, v);
        var rest := View(v.data[n..], v.offset + n);
        FirstFullFrom(p.subpackets, 0, rest);
        assert forall k: nat, h: nat :: IsFirstFull(p.subpackets, rest, k) && IsFirstFull(p.subpackets, rest, h) ==> k == h;
      }
    }
  }

  lemma HeaderDecodes(p: Packet, v: View)
    requires Loadable(p) && UntransformedAll(p.actions) && p.subpackets != [] && MatchesAll(p.actions, v.data)
    ensures HeaderBytes(p) <= |v.data| && RunStruct(p.actions, v).values == LeavesAll(p.actions, v)
  {
    FieldsMeanMatch(p.actions, v);
    MatchStoresAll(p.actions, v);
  }

  /** The `j`-th packet is the first of them to take all the data. */
  ghost predicate IsFirstTaker(packets: seq<Packet>, data: bytes, j: nat)
    requires forall i | 0 <= i < |packets| :: Loadable(packets[i])
  {
    && j < |packets| && FillPacket(packets[j], View(data, 0)).size == |data|
    && forall i | 0 <= i < j :: FillPacket(packets[i], View(data, 0)).size != |data|
  }

  lemma {:induction false} RecognisedFrom(packets: seq<Packet>, i: nat, data: bytes)
    requires forall i | 0 <= i < |packets| :: Loadable(packets[i])
    requires i <= |packets|
    requires forall h | 0 <= h < i :: FillPacket(packets[h], View(data, 0)).size != |data|
    ensures var r := RecogniseFrom(packets, i, data);
            if r.Some? then IsFirstTaker(packets, data, r.value)
            else forall h | 0 <= h < |packets| :: FillPacket(packets[h], View(data, 0)).size != |data|
    decreases |packets| - i
  {
    hide FillPacket;
    if i < |packets| && FillPacket(packets[i], View(data, 0)).size != |data| {
      RecognisedFrom(packets, i + 1, data);
    }
  }

  /** The packet recognised is the first that takes all the data, and nothing is recognised exactly when none does. */
  lemma RecognisedExactly(packets: seq<Packet>, data: bytes)
    requires forall i | 0 <= i < |packets| :: Loadable(packets[i])
    ensures forall j: nat :: Recognise(packets, data) == Some(j) <==> IsFirstTaker(packets, data, j)
    ensures Recognise(packets, data) == None <==>
              forall i | 0 <= i < |packets| :: FillPacket(packets[i], View(data, 0)).size != |data|
  {
    hide FillPacket, RecogniseFrom;
    RecognisedFrom(packets, 0, data);
    assert forall j: nat, h: nat :: IsFirstTaker(packets, data, j) && IsFirstTaker(packets, data, h) ==> j == h;
  }

  /** Packet `j` is recognised by its subpacket `k` if no packet before it takes the data and no subpacket before it the rest. */
  ghost predicate RecognisedAs(packets: seq<Packet>, j: nat, k: nat, data: bytes)
    requires forall i | 0 <= i < |packets| :: Loadable(packets[i])
    requires j < |packets| && k < |packets[j].subpackets| && HeaderBytes(packets[j]) <= |data|
  {
    var p, n := packets[j], HeaderBytes(packets[j]);
    var rest := View(data[n..], n);
    && FillPacket(p, View(data, 0)).size == |data|
    && (exists i :: i <= j && Recognise(packets, data) == Some(i) && IsFirstTaker(packets, data, i))
    && ((forall i | 0 <= i < j :: FillPacket(packets[i], View(data, 0)).size != |data|) ==>
         Recognise(packets, data) == Some(j))
    && (exists h :: h <= k && FillPacket(p, View(data, 0)).subpacket == Some(h) && IsFirstFull(p.subpackets, rest, h))
    && ((forall h | 0 <= h < k :: RunStruct(p.subpackets[h], rest).size != |rest.data|) ==>
         FillPacket(p, View(data, 0)).subpacket == Some(k))
  }

  /**
   * A packet whose header matches and one of whose subpackets uses up the rest is recognised, and by that subpacket,
   * unless an earlier packet takes all the data or an earlier subpacket the rest; then by the first such.
   */
  lemma SubpacketRecognised(packets: seq<Packet>, j: nat, k: nat, data: bytes)
    requires forall i | 0 <= i < |packets| :: Loadable(packets[i])
    requires j < |packets| && k < |packets[j].subpackets|
    requires var p := packets[j]; UntransformedAll(p.actions) && MatchesAll(p.actions, data)
    requires var n := HeaderBytes(packets[j]);
             n <= |data| && RunStruct(packets[j].subpackets[k], View(data[n..], n)).size == |data| - n
    ensures RecognisedAs(packets, j, k, data)
  {
    hide RunStruct, FillPacket, MatchesAll, UntransformedAll, Recognise, HeaderBytes;
    var p, n := packets[j], HeaderBytes(packets[j]);
    var rest := View(data[n..], n);
    PacketTakesAllExactly(p, View(data, 0));
    FirstFullFrom(p.subpackets, 0, rest);
    var h := FirstFull(p.subpackets, 0, rest);
    assert IsFirstFull(p.subpackets, rest, h.value);
    RecognisedExactly(packets, data);
    var i := Recognise(packets, data);
    assert IsFirstTaker(packets, data, i.value);
    if forall i | 0 <= i < j :: FillPacket(packets[i], View(data, 0)).size != |data| {
      assert IsFirstTaker(packets, data, j);
    }
    if forall h | 0 <= h < k :: RunStruct(p.subpackets[h], rest).size != |rest.data| {
      assert IsFirstFull(p.subpackets, rest, k);
    }
  }

  // ---------- a field of variable size ----------

  /**
   * Constant fields and one leaf of any size behind them: the struct uses up all its bytes exactly when what the fields
   * leave is nothing, or within the leaf's limits. Then the leaf holds all of it.
   */
  lemma VariableTail(fields: seq<Action>, t: Type, v: View)
    requires AllConstant(fields) && UntransformedAll(fields) && MatchesAll(fields, v.data) && !t.Struct?
    ensures var n := FieldSum(fields);
            && n <= |v.data|
            && var tail := v.data[n..];
               && (RunStruct(fields + [Field(t)], v).size == |v.data| <==> tail == [] || TakesAll(t, tail))
               && (tail != [] && TakesAll(t, tail) ==>
                    RunStruct(fields + [Field(t)], v).values == LeavesAll(fields, v) + [Value(v.offset + n, tail)])
  {
    hide LeafSize, TakesAll, LeavesAll, MatchesAll, FieldSum, AllConstant, UntransformedAll, RunActions;
    var n := FieldSum(fields);
    FieldsMeanMatch(fields, v);
    MatchStoresAll(fields, v);
    var rest := View(v.data[n..], v.offset + n);
    if rest.data != [] {
      LeafTakesAllExactly(t, rest.data);
    }
    TailRun(t, rest);
    RunActionsConcat(fields, [Field(t)], v);
  }

  /** Constant fields, then a leaf that does not match: decoding stops in front of it, whatever comes behind. */
  lemma FirstMismatchStops(fields: seq<Action>, t: Type, more: seq<Action>, v: View)
    requires AllConstant(fields) && UntransformedAll(fields) && MatchesAll(fields, v.data)
    requires !t.Struct? && ConstantSize(t) > 0
    requires FieldSum(fields) <= |v.data| ==> !LeafMatches(t, v.data[FieldSum(fields)..])
    ensures RunStruct(fields + ([Field(t)] + more), v) == Filled(FieldSum(fields), LeavesAll(fields, v))
  {
    var n := FieldSum(fields);
    FieldsMeanMatch(fields, v);
    MatchStoresAll(fields, v);
    var rest := View(v.data[n..], v.offset + n);
    MismatchTakesNothing(t, rest.data);
    LeafFill(t, rest);
    hide LeafMatches, LeafSize, Fill, FieldSum, LeavesAll, MatchesAll;
    assert ([Field(t)] + more)[0] == Field(t);
    assert RunActions([Field(t)] + more, rest) == Processed(false, rest, []);
    hide RunActions;
    RunActionsConcat(fields, [Field(t)] + more, v);
  }

  lemma MismatchTakesNothing(t: Type, s: bytes)
    requires !t.Struct? && ConstantSize(t) > 0 && !LeafMatches(t, s)
    ensures LeafSize(t, s) <= 0
  {
    hide Number, U32;
    LeafTakesItsSize(t, s);
    match t
    case Unsigned(width, count, minCount, fixed) =>
      assert width * minCount == count * width;
      if width * count <= |s| && width > 0 {
        DivideAtLeast(|s|, width, count);
      }
    case _ =>
  }

  lemma TailRun(t: Type, v: View)
    requires !t.Struct?
    ensures var n, p := LeafSize(t, v.data), RunActions([Field(t)], v);
            && |v.data| - |p.view.data| == (if n <= 0 then 0 else n)
            && (0 < n == |v.data| ==> p.values == [Value(v.offset, v.data)])
  {
    var n, p := LeafSize(t, v.data), ProcessOne(Field(t), v);
    LeafFill(t, v);
    hide LeafSize, Fill;
    assert [Field(t)][0] == Field(t) && [Field(t)][1..] == [];
    assert RunActions([], p.view) == Processed(true, p.view, []);
    assert p.values + [] == p.values;
    assert v.data[..|v.data|] == v.data;
    var whole := RunActions([Field(t)], v);
    assert whole == if p.ok then Processed(true, p.view, p.values) else p;
    hide RunActions;
  }

  lemma LeafFill(t: Type, v: View)
    requires !t.Struct?
    ensures var n := LeafSize(t, v.data); Fill(t, v) == Filled(n, if n > 0 then [Value(v.offset, v.data[..n])] else [])
  {
    hide LeafSize;
    match t
    case Struct(_, _, _) =>
    case _ =>
  }

  /** So a packet ending in such a leaf is recognised, by its own fields or by a subpacket's, at every size in the limits. */
  lemma VariablePacketRecognised(packets: seq<Packet>, j: nat, k: nat, fields: seq<Action>, t: Type, data: bytes)
    requires forall i | 0 <= i < |packets| :: Loadable(packets[i])
    requires j < |packets| && !t.Struct? && AllConstant(fields) && UntransformedAll(fields)
    requires var p := packets[j];
             if p.subpackets == [] then
               && p.actions == fields + [Field(t)] && MatchesAll(fields, data)
               && FieldSum(fields) <= |data| && TakesAll(t, data[FieldSum(fields)..])
             else
               && k < |p.subpackets| && p.subpackets[k] == fields + [Field(t)]
               && UntransformedAll(p.actions) && MatchesAll(p.actions, data) && HeaderBytes(p) <= |data|
               && var rest := data[HeaderBytes(p)..];
                  && MatchesAll(fields, rest) && FieldSum(fields) <= |rest| && TakesAll(t, rest[FieldSum(fields)..])
    ensures if packets[j].subpackets != [] then RecognisedAs(packets, j, k, data)
            else exists i :: i <= j && Recognise(packets, data) == Some(i) && IsFirstTaker(packets, data, i)
    ensures packets[j].subpackets == [] && (forall i | 0 <= i < j :: FillPacket(packets[i], View(data, 0)).size != |data|) ==>
              Recognise(packets, data) == Some(j)
  {
    hide RunStruct, Recognise, RecognisedAs, MatchesAll, TakesAll, FieldSum, LeavesAll, AllConstant, UntransformedAll;
    var p := packets[j];
    if p.subpackets == [] {
      VariableTail(fields, t, View(data, 0));
      RecognisedExactly(packets, data);
      var i := Recognise(packets, data);
      assert FillPacket(p, View(data, 0)).size == |data|;
      hide FillPacket;
      assert IsFirstTaker(packets, data, i.value);
      if forall i | 0 <= i < j :: FillPacket(packets[i], View(data, 0)).size != |data| {
        assert IsFirstTaker(packets, data, j);
      }
    } else {
      hide FillPacket;
      var n := HeaderBytes(p);
      VariableTail(fields, t, View(data[n..], n));
      SubpacketRecognised(packets, j, k, data);
    }
  }

  // ---------- packed data ----------

  lemma {:induction false} RunActionsConcat(a: seq<Action>, b: seq<Action>, v: View)
    ensures var p := RunActions(a, v);
            RunActions(a + b, v) == if p.ok then Behind(p.values, RunActions(b, p.view)) else p
    decreases |a|
  {
    hide ProcessOne;
    if a == [] {
      assert a + b == b;
      assert [] + RunActions(b, v).values == RunActions(b, v).values;
    } else {
      assert (a + b)[1..] == a[1..] + b;
      var one := ProcessOne(a[0], v);
      if one.ok {
        RunActionsConcat(a[1..], b, one.view);
        var p := RunActions(a[1..], one.view);
        assert one.values + (p.values + RunActions(b, p.view).values) == (one.values + p.values) + RunActions(b, p.view).values;
      }
    }
  }

  /**
   * A subpacket of plain fields, the transformation and a packed body is accepted, and its body's leaves are those of
   * the original bytes.
   */
  lemma PackedBodyPasses(pre: seq<Action>, body: seq<Action>, header: bytes, packed: bytes, original: bytes, at: nat)
    requires AllConstant(pre) && UntransformedAll(pre) && |header| == FieldSum(pre)
    requires MatchesAll(pre, header + packed)
    requires Unpacked(packed) == Some(original)
    requires AllConstant(body) && UntransformedAll(body) && |original| == FieldSum(body)
    requires MatchesAll(body, original)
    ensures var v := View(header + packed, at);
            RunStruct(pre + [Transform] + body, v) ==
            Filled(|v.data|, LeavesAll(pre, v) + LeavesAll(body, View(original, 0)))
  {
    var v := View(header + packed, at);
    FieldsMeanMatch(pre, v);
    MatchStoresAll(pre, v);
    assert v.data[|header|..] == packed;
    var inner := View(original, 0);
    FieldsMeanMatch(body, inner);
    MatchStoresAll(body, inner);
    assert original[|original|..] == [];
    hide RunActions;
    assert pre + [Transform] + body == pre + ([Transform] + body);
    RunActionsConcat(pre, [Transform] + body, v);
    TransformFirst(body, View(packed, at + |header|), original);
  }

  lemma TransformFirst(body: seq<Action>, v: View, original: bytes)
    requires Unpacked(v.data) == Some(original)
    ensures RunActions([Transform] + body, v) == RunActions(body, View(original, 0))
  {
    var rest := RunActions(body, View(original, 0));
    assert ([Transform] + body)[1..] == body;
    assert [] + rest.values == rest.values;
  }

  /** Bytes that are no complete stream end the struct at the transformation: no field behind it is decoded. */
  lemma FailedUnpackStops(pre: seq<Action>, body: seq<Action>, header: bytes, packed: bytes, at: nat)
    requires AllConstant(pre) && UntransformedAll(pre) && |header| == FieldSum(pre)
    requires MatchesAll(pre, header + packed)
    requires packed != [] && Unpacked(packed) == None
    ensures var v := View(header + packed, at);
            RunStruct(pre + [Transform] + body, v) == Filled(|header|, LeavesAll(pre, v))
  {
    var v := View(header + packed, at);
    FieldsMeanMatch(pre, v);
    MatchStoresAll(pre, v);
    assert v.data[|header|..] == packed;
    var inner := View(packed, at + |header|);
    assert RunActions([Transform] + body, inner) == Processed(false, inner, []) by {
      assert ([Transform] + body)[0] == Transform;
    }
    hide RunActions;
    assert pre + [Transform] + body == pre + ([Transform] + body);
    RunActionsConcat(pre, [Transform] + body, v);
  }

  /** Such a packet, packed by the packer itself, is recognised whole, whatever else the schema holds. */
  lemma PackedPacketRecognised(packets: seq<Packet>, j: nat, k: nat, pre: seq<Action>, body: seq<Action>,
                               outer: bytes, header: bytes, original: bytes)
    requires forall i | 0 <= i < |packets| :: Loadable(packets[i])
    requires j < |packets| && k < |packets[j].subpackets| && packets[j].subpackets[k] == pre + [Transform] + body
    requires 19 <= |original| <= ESTIMATE
    requires UntransformedAll(packets[j].actions) && |outer| == HeaderBytes(packets[j])
    requires MatchesAll(packets[j].actions, outer + header + Packed(original))
    requires AllConstant(pre) && UntransformedAll(pre) && |header| == FieldSum(pre)
    requires MatchesAll(pre, header + Packed(original))
    requires AllConstant(body) && UntransformedAll(body) && |original| == FieldSum(body)
    requires MatchesAll(body, original)
    ensures RecognisedAs(packets, j, k, outer + header + Packed(original))
  {
    hide Packed, RunActions, RunStruct, FillPacket, Recognise, RecognisedAs, MatchesAll, AllConstant, FieldSum, LeavesAll;
    hide HeaderBytes, UntransformedAll;
    var packed := Packed(original);
    var data := outer + header + packed;
    UnpackedPacked(original);
    PackedBodyPasses(pre, body, header, packed, original, |outer|);
    BehindFirst(outer, header, packed);
    SubpacketRecognised(packets, j, k, data);
  }

  lemma BehindFirst(a: bytes, b: bytes, c: bytes)
    ensures (a + b + c)[|a|..] == b + c
  {
  }
}
