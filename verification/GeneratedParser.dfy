/** The recogniser the code generator emits for a schema, as tests on a frame, against the interpreter. */
module GeneratedParser {
  import opened Bytes
  import opened Frames
  import opened Packing
  import opened Schema

  /** `s` from `n` on; nothing once that is past its end. */
  function Drop(s: bytes, n: nat): bytes {
    if n <= |s| then s[n..] else []
  }

  /**
   * The condition generated for the fixed values among a struct's own fields. It compares memory at constant offsets
   * without looking at the frame's size, so a field past the end of the frame may pass.
   */
  predicate FixedValuesMatch(actions: seq<Action>, s: bytes)
    decreases |actions|
  {
    actions == [] || (
      && (IsFixed(actions[0]) && actions[0].typ.width <= |s| ==>
           Number(s[..actions[0].typ.width]) == actions[0].typ.fixed.value)
      && FixedValuesMatch(actions[1..], Drop(s, ActionSize(actions[0]))))
  }

  predicate IsFixed(a: Action) {
    a.Field? && a.typ.Unsigned? && a.typ.fixed.Some?
  }

  predicate IsLength(a: Action) {
    a.Field? && a.typ.Length?
  }

  /** Without fixed values nothing is generated. */
  predicate HasFixed(actions: seq<Action>) {
    exists i | 0 <= i < |actions| :: IsFixed(actions[i])
  }

  /** Where the first length field lies. */
  function LengthOffset(actions: seq<Action>): Option<nat>
    decreases |actions|
  {
    if actions == [] then None
    else if IsLength(actions[0]) then Some(0)
    else
      match LengthOffset(actions[1..])
      case Some(n) => Some(ActionSize(actions[0]) + n)
      case None => None
  }

  /** The length field of a frame, when the frame is long enough to have one. */
  predicate LengthFieldIs(at: Option<nat>, data: bytes, n: int) {
    at.Some? && at.value + 4 <= |data| ==> U32(data[at.value..]) == n
  }

  /** The generated test for a packet on a whole frame. */
  predicate OuterTest(p: Packet, f: bytes) {
    && IsFrame(f) && HasFixed(p.actions)
    && var data, n, at := f[HEADER..], FieldSum(p.actions), LengthOffset(p.actions);
       && (n > 0 ==> if at.None? then |f| == HEADER + n
                     else |f| >= HEADER + n && LengthFieldIs(at, data, |f| - HEADER - n))
       && FixedValuesMatch(p.actions, data)
  }

  /** The generated test for one of its subpackets, once the packet's has passed. */
  predicate InnerTest(p: Packet, actions: seq<Action>, f: bytes)
    requires HEADER <= |f|
  {
    && HasFixed(actions)
    && var data, at := f[HEADER..], LengthOffset(p.actions);
       && (FieldSum(actions) > 0 && Transform !in actions && AllConstant(actions) ==>
            LengthFieldIs(at, data, FieldSum(actions)))
       && FixedValuesMatch(actions, Drop(data, FieldSum(p.actions)))
  }

  // ---------- schemas the two readings agree on ----------

  /** No fixed value and no length field at any depth, every struct once. */
  predicate Plain(t: Type)
    decreases t, 0
  {
    match t
    case Unsigned(_, _, _, fixed) => fixed.None?
    case Length => false
    case Struct(count, _, actions) => count == 1 && PlainAll(actions)
    case _ => true
  }

  predicate PlainOne(a: Action)
    decreases a, 1
  {
    !a.Transform? && (a.Field? ==> ConstantSize(a.typ) > 0 && Plain(a.typ))
  }

  predicate PlainAll(actions: seq<Action>)
    decreases actions, 0
  {
    actions == [] || (PlainOne(actions[0]) && PlainAll(actions[1..]))
  }

  /** A field of constant size whose only check is a fixed value of its own. */
  predicate Simple(a: Action) {
    PlainOne(a) || (IsFixed(a) && ConstantSize(a.typ) > 0)
  }

  predicate AllSimple(actions: seq<Action>) {
    forall a :: a in actions ==> Simple(a)
  }

  /** A header whose length field comes last. */
  predicate SimpleHeader(actions: seq<Action>) {
    |actions| > 0 && IsLength(actions[|actions| - 1]) && AllSimple(actions[..|actions| - 1])
  }

  // ---------- the agreement ----------

  lemma {:induction false} PlainMatches(t: Type, s: bytes)
    requires Plain(t) && 0 < ConstantSize(t) <= |s|
    ensures Matches(t, s)
    decreases t, 0
  {
    match t
    case Struct(_, _, actions) => PlainAllMatches(actions, s);
    case _ =>
  }

  lemma {:induction false} PlainAllMatches(actions: seq<Action>, s: bytes)
    requires PlainAll(actions) && FieldSum(actions) <= |s|
    ensures AllConstant(actions) && MatchesAll(actions, s)
    decreases actions, 0
  {
    if actions != [] {
      PlainOneMatches(actions[0], s);
      PlainAllMatches(actions[1..], s[ActionSize(actions[0])..]);
    }
  }

  lemma {:induction false} PlainOneMatches(a: Action, s: bytes)
    requires PlainOne(a) && ActionSize(a) <= |s|
    ensures MatchesOne(a, s)
    decreases a, 1
  {
    if a.Field? {
      PlainMatches(a.typ, s);
    }
  }

  lemma SimpleMatches(a: Action, s: bytes)
    requires Simple(a) && ActionSize(a) <= |s|
    requires IsFixed(a) && a.typ.width <= |s| ==> Number(s[..a.typ.width]) == a.typ.fixed.value
    ensures MatchesOne(a, s)
  {
    hide Number;
    if PlainOne(a) {
      PlainOneMatches(a, s);
    } else {
      WidthFits(a.typ.width, a.typ.count);
    }
  }

  lemma WidthFits(width: nat, count: nat)
    ensures count * width > 0 ==> width <= count * width
  {
  }

  /** Simple fields whose fixed values pass the generated condition match, as far as the bytes reach. */
  lemma {:induction false} SimpleFieldsMatch(actions: seq<Action>, s: bytes)
    requires AllSimple(actions) && FixedValuesMatch(actions, s) && FieldSum(actions) <= |s|
    ensures MatchesAll(actions, s)
    decreases |actions|
  {
    hide Simple, Number;
    if actions != [] {
      assert actions[0] in actions;
      SimpleMatches(actions[0], s);
      SimpleFieldsMatch(actions[1..], s[ActionSize(actions[0])..]);
    }
  }

  lemma {:induction false} SimpleIsUntransformed(actions: seq<Action>)
    requires AllSimple(actions)
    ensures AllConstant(actions) && UntransformedAll(actions) && Transform !in actions
    decreases |actions|
  {
    if actions != [] {
      assert actions[0] in actions;
      PlainIsUntransformed(actions[0]);
      SimpleIsUntransformed(actions[1..]);
    }
  }

  lemma {:induction false} PlainIsUntransformed(a: Action)
    requires Simple(a)
    ensures UntransformedOne(a) && (a.Field? ==> ActionSize(a) > 0)
    decreases a, 1
  {
    if PlainOne(a) && a.Field? && a.typ.Struct? {
      assert Plain(a.typ);
      PlainAllUntransformed(a.typ.actions);
    }
  }

  lemma {:induction false} PlainAllUntransformed(actions: seq<Action>)
    requires PlainAll(actions)
    ensures UntransformedAll(actions)
    decreases actions, 0
  {
    if actions != [] {
      PlainIsUntransformed(actions[0]);
      PlainAllUntransformed(actions[1..]);
    }
  }

  lemma {:induction false} MatchesConcat(a: seq<Action>, b: seq<Action>, s: bytes)
    requires MatchesAll(a, s) && FieldSum(a) <= |s| && MatchesAll(b, s[FieldSum(a)..])
    ensures MatchesAll(a + b, s) && FieldSum(a + b) == FieldSum(a) + FieldSum(b)
    decreases |a|
  {
    if a == [] {
      assert a + b == b && s[0..] == s;
    } else {
      assert (a + b)[1..] == a[1..] + b;
      var rest := s[ActionSize(a[0])..];
      assert rest[FieldSum(a[1..])..] == s[FieldSum(a)..];
      MatchesConcat(a[1..], b, rest);
    }
  }

  lemma {:induction false} FixedOfPrefix(a: seq<Action>, b: seq<Action>, s: bytes)
    requires FixedValuesMatch(a + b, s) && FieldSum(a) <= |s|
    ensures FixedValuesMatch(a, s) && FixedValuesMatch(b, s[FieldSum(a)..])
    decreases |a|
  {
    hide Number;
    if a == [] {
      assert a + b == b && s[0..] == s;
    } else {
      assert (a + b)[1..] == a[1..] + b;
      var rest := s[ActionSize(a[0])..];
      FixedOfPrefix(a[1..], b, rest);
      assert rest[FieldSum(a[1..])..] == s[FieldSum(a)..];
    }
  }

  lemma {:induction false} MatchesParts(a: seq<Action>, b: seq<Action>, s: bytes)
    requires MatchesAll(a + b, s)
    ensures FieldSum(a) <= |s| && MatchesAll(a, s) && MatchesAll(b, s[FieldSum(a)..])
    decreases |a|
  {
    if a == [] {
      assert a + b == b && s[0..] == s;
    } else {
      assert (a + b)[1..] == a[1..] + b;
      var rest := s[ActionSize(a[0])..];
      MatchesParts(a[1..], b, rest);
      assert rest[FieldSum(a[1..])..] == s[FieldSum(a)..];
    }
  }

  /** The length field lies behind the fields before it. */
  lemma {:induction false} LengthFieldAt(a: seq<Action>, l: Action, b: seq<Action>)
    requires IsLength(l) && AllSimple(a) && AllSimple(b)
    ensures LengthOffset(a + [l] + b) == Some(FieldSum(a))
    ensures FieldSum(a + [l] + b) == FieldSum(a) + 4 + FieldSum(b)
    ensures AllConstant(a + [l] + b) && UntransformedAll(a + [l] + b)
    decreases |a|
  {
    var all := a + [l] + b;
    if a == [] {
      assert all[0] == l && all[1..] == b;
      SimpleIsUntransformed(b);
    } else {
      assert all[0] == a[0] && a[0] in a;
      assert all[1..] == a[1..] + [l] + b;
      PlainIsUntransformed(a[0]);
      LengthFieldAt(a[1..], l, b);
    }
  }

  /** What the packet's generated test says of the length field. */
  lemma OuterTestLength(p: Packet, a: seq<Action>, l: Action, b: seq<Action>, f: bytes)
    requires p.actions == a + [l] + b && IsLength(l) && AllSimple(a) && AllSimple(b)
    requires OuterTest(p, f)
    ensures var data, n := f[HEADER..], FieldSum(a);
            && FieldSum(p.actions) == n + 4 + FieldSum(b) <= |data| < UINT32_RANGE
            && U32(data[n..]) == |data| - FieldSum(p.actions)
  {
    LengthFieldAt(a, l, b);
  }

  lemma HeaderMatches(a: seq<Action>, l: Action, b: seq<Action>, data: bytes)
    requires IsLength(l) && AllSimple(a) && AllSimple(b) && FieldSum(b) == 0
    requires FieldSum(a) + 4 <= |data| && U32(data[FieldSum(a)..]) == |data| - FieldSum(a) - 4
    requires FixedValuesMatch(a + ([l] + b), data)
    ensures MatchesAll(a + ([l] + b), data)
  {
    hide AllSimple, U32;
    var n := FieldSum(a);
    var rest := data[n..];
    FixedOfPrefix(a, [l] + b, data);
    SimpleFieldsMatch(a, data);
    LengthMatches(l, rest);
    FixedOfPrefix([l], b, rest);
    SimpleFieldsMatch(b, rest[4..]);
    MatchesConcat([l], b, rest);
    MatchesConcat(a, [l] + b, data);
  }

  lemma LengthRefused(l: Action, s: bytes, k: nat)
    requires IsLength(l) && 0 < k && 4 <= |s| < UINT32_RANGE && U32(s) + 4 + k == |s|
    ensures !MatchesOne(l, s)
  {
    hide U32;
    var n: nat := U32(s) + 4;
    assert n % UINT32_RANGE == n;
  }

  lemma HeaderRefused(a: seq<Action>, l: Action, b: seq<Action>, data: bytes)
    requires IsLength(l) && FieldSum(b) > 0
    requires FieldSum(a) + 4 + FieldSum(b) <= |data| < UINT32_RANGE
    requires U32(data[FieldSum(a)..]) == |data| - FieldSum(a) - 4 - FieldSum(b)
    ensures !MatchesAll(a + ([l] + b), data)
  {
    hide U32, FieldSum, MatchesOne;
    LengthRefused(l, data[FieldSum(a)..], FieldSum(b));
    if MatchesAll(a + ([l] + b), data) {
      MatchesParts(a, [l] + b, data);
      assert false;
    }
  }

  /**
   * A frame that passes the packet's generated test has a header the interpreter accepts exactly when no field follows
   * the length field: the test counts from the end of the header, the interpreter from the end of the length field.
   */
  lemma LengthMustComeLast(p: Packet, a: seq<Action>, l: Action, b: seq<Action>, f: bytes)
    requires p.actions == a + [l] + b && IsLength(l) && AllSimple(a) && AllSimple(b)
    requires OuterTest(p, f)
    ensures MatchesAll(p.actions, f[HEADER..]) <==> FieldSum(b) == 0
    ensures Loadable(p) && p.subpackets != [] && FieldSum(b) > 0 ==> FillPacket(p, View(f[HEADER..], 0)).size == 0
  {
    var data := f[HEADER..];
    OuterTestLength(p, a, l, b, f);
    LengthFieldAt(a, l, b);
    assert a + [l] + b == a + ([l] + b);
    assert FixedValuesMatch(p.actions, data);
    hide OuterTest, U32, FixedValuesMatch, MatchesAll, AllSimple, UntransformedAll, FieldSum;
    if FieldSum(b) == 0 {
      HeaderMatches(a, l, b, data);
    } else {
      HeaderRefused(a, l, b, data);
      if Loadable(p) && p.subpackets != [] {
        HeaderCheckMeansMatch(p, View(data, 0));
      }
    }
  }

  /** A frame that passes the packet's generated test has a header the interpreter accepts. */
  lemma OuterTestMatches(p: Packet, f: bytes)
    requires SimpleHeader(p.actions) && OuterTest(p, f)
    ensures var data := f[HEADER..];
            && UntransformedAll(p.actions) && HeaderBytes(p) == FieldSum(p.actions) <= |data|
            && MatchesAll(p.actions, data)
            && LengthOffset(p.actions) == Some(HeaderBytes(p) - 4)
            && U32(data[HeaderBytes(p) - 4..]) == |data| - HeaderBytes(p)
  {
    var a, l := p.actions[..|p.actions| - 1], p.actions[|p.actions| - 1];
    assert p.actions == a + [l] + [];
    LengthFieldAt(a, l, []);
    LengthMustComeLast(p, a, l, [], f);
  }

  lemma LengthMatches(last: Action, s: bytes)
    requires IsLength(last) && 4 <= |s| && U32(s) == |s| - 4
    ensures MatchesAll([last], s)
  {
    assert [last][1..] == [];
  }

  /**
   * Every frame that passes the generated tests for a packet and one of its subpackets is used up by that subpacket
   * in the interpreter, and recognised.
   */
  lemma GeneratedTestsAreSound(packets: seq<Packet>, j: nat, k: nat, f: bytes)
    requires forall i | 0 <= i < |packets| :: Loadable(packets[i])
    requires j < |packets| && k < |packets[j].subpackets|
    requires SimpleHeader(packets[j].actions) && AllSimple(packets[j].subpackets[k])
    requires OuterTest(packets[j], f) && InnerTest(packets[j], packets[j].subpackets[k], f)
    ensures var p, data := packets[j], f[HEADER..];
            && HeaderBytes(p) <= |data|
            && RecognisedAs(packets, j, k, data)
            && var rest := View(data[HeaderBytes(p)..], HeaderBytes(p));
               && MatchesAll(p.subpackets[k], rest.data)
               && RunStruct(p.subpackets[k], rest) == Filled(|rest.data|, LeavesAll(p.subpackets[k], rest))
  {
    var p, sub, data := packets[j], packets[j].subpackets[k], f[HEADER..];
    OuterTestMatches(p, f);
    SimpleIsUntransformed(sub);
    var rest := View(data[HeaderBytes(p)..], HeaderBytes(p));
    FixedTakesSpace(sub);
    assert FieldSum(sub) == |rest.data|;
    SimpleFieldsMatch(sub, rest.data);
    FieldsMeanMatch(sub, rest);
    MatchStoresAll(sub, rest);
    SubpacketRecognised(packets, j, k, data);
  }

  lemma {:induction false} FixedTakesSpace(actions: seq<Action>)
    requires AllSimple(actions) && HasFixed(actions)
    ensures FieldSum(actions) > 0
    decreases |actions|
  {
    assert actions[0] in actions;
    if !IsFixed(actions[0]) {
      var i :| 0 <= i < |actions| && IsFixed(actions[i]);
      assert actions[1..][i - 1] == actions[i];
      FixedTakesSpace(actions[1..]);
    }
  }

  // ---------- and they refuse nothing that matches ----------

  /** Fields that match in the interpreter pass the generated condition. */
  lemma {:induction false} MatchingFieldsPass(actions: seq<Action>, s: bytes)
    requires MatchesAll(actions, s)
    ensures FixedValuesMatch(actions, s)
    decreases |actions|
  {
    hide Number;
    if actions != [] {
      var a := actions[0];
      MatchingFieldsPass(actions[1..], s[ActionSize(a)..]);
      MatchingFieldPasses(a, s);
      assert Drop(s, ActionSize(a)) == s[ActionSize(a)..];
    }
  }

  lemma MatchingFieldPasses(a: Action, s: bytes)
    requires MatchesOne(a, s)
    ensures IsFixed(a) && a.typ.width <= |s| ==> Number(s[..a.typ.width]) == a.typ.fixed.value
    ensures ActionSize(a) <= |s|
  {
    hide Number;
    if IsFixed(a) {
      assert LeafMatches(a.typ, s);
    }
  }

  lemma LengthTold(l: Action, s: bytes)
    requires IsLength(l) && MatchesOne(l, s) && |s| < UINT32_RANGE
    ensures 4 <= |s| && U32(s) == |s| - 4
  {
    var n: int := U32(s);
    hide U32;
  }

  /** With the length field last, the outer test passes exactly the frames whose header matches. */
  lemma OuterTestExactly(p: Packet, f: bytes)
    requires SimpleHeader(p.actions)
    ensures OuterTest(p, f) <==> IsFrame(f) && HasFixed(p.actions) && MatchesAll(p.actions, f[HEADER..])
  {
    if OuterTest(p, f) {
      OuterTestMatches(p, f);
    } else if IsFrame(f) && HasFixed(p.actions) && MatchesAll(p.actions, f[HEADER..]) {
      var data := f[HEADER..];
      var a, l := p.actions[..|p.actions| - 1], p.actions[|p.actions| - 1];
      assert p.actions == a + [l] && p.actions == a + [l] + [];
      LengthFieldAt(a, l, []);
      MatchingFieldsPass(p.actions, data);
      MatchesParts(a, [l], data);
      hide MatchesAll, AllSimple, FixedValuesMatch, U32, MatchesOne;
      HeadMatches(l, data[FieldSum(a)..]);
      LengthTold(l, data[FieldSum(a)..]);
      assert false;
    }
  }

  lemma HeadMatches(a: Action, s: bytes)
    requires MatchesAll([a], s)
    ensures MatchesOne(a, s)
  {
    assert [a][0] == a;
  }

  /** With a subpacket of simple fields, the two tests together pass exactly the frames where both match and fill the frame. */
  lemma GeneratedTestsExactly(p: Packet, sub: seq<Action>, f: bytes)
    requires SimpleHeader(p.actions) && AllSimple(sub)
    ensures OuterTest(p, f) && InnerTest(p, sub, f) <==>
              && IsFrame(f) && HasFixed(p.actions) && MatchesAll(p.actions, f[HEADER..]) && HasFixed(sub)
              && FieldSum(p.actions) + FieldSum(sub) == |f| - HEADER
              && MatchesAll(sub, f[HEADER + FieldSum(p.actions)..])
  {
    OuterTestExactly(p, f);
    if OuterTest(p, f) {
      OuterTestMatches(p, f);
      SimpleIsUntransformed(sub);
      var data, n := f[HEADER..], FieldSum(p.actions);
      var rest := data[n..];
      assert rest == f[HEADER + n..];
      hide OuterTest, MatchesAll, AllSimple, FixedValuesMatch, U32, UntransformedAll, AllConstant, SimpleHeader;
      if HasFixed(sub) {
        FixedTakesSpace(sub);
        if FieldSum(sub) == |rest| {
          if FixedValuesMatch(sub, rest) {
            SimpleFieldsMatch(sub, rest);
          } else if MatchesAll(sub, rest) {
            MatchingFieldsPass(sub, rest);
          }
        }
      }
    }
  }

  lemma {:induction false} NoLengthField(actions: seq<Action>)
    requires AllSimple(actions)
    ensures LengthOffset(actions) == None
    decreases |actions|
  {
    if actions != [] {
      assert actions[0] in actions;
      NoLengthField(actions[1..]);
    }
  }

  /** Without a length field, the outer test passes exactly the frames that the matching header fills. */
  lemma UnmeasuredTestExactly(p: Packet, f: bytes)
    requires AllSimple(p.actions)
    ensures OuterTest(p, f) <==>
              && IsFrame(f) && HasFixed(p.actions) && |f| - HEADER == FieldSum(p.actions)
              && MatchesAll(p.actions, f[HEADER..])
    ensures OuterTest(p, f) && p.subpackets == [] ==> FillPacket(p, View(f[HEADER..], 0)).size == |f| - HEADER
  {
    NoLengthField(p.actions);
    SimpleIsUntransformed(p.actions);
    if IsFrame(f) && HasFixed(p.actions) && |f| - HEADER == FieldSum(p.actions) {
      var data := f[HEADER..];
      FixedTakesSpace(p.actions);
      hide AllSimple, FixedValuesMatch, MatchesAll, AllConstant, UntransformedAll;
      if FixedValuesMatch(p.actions, data) {
        SimpleFieldsMatch(p.actions, data);
        FieldsMeanMatch(p.actions, View(data, 0));
      } else if MatchesAll(p.actions, data) {
        MatchingFieldsPass(p.actions, data);
      }
    } else if IsFrame(f) && HasFixed(p.actions) {
      FixedTakesSpace(p.actions);
    }
  }

  lemma {:induction false} NoFixedPasses(actions: seq<Action>, s: bytes)
    requires !HasFixed(actions)
    ensures FixedValuesMatch(actions, s)
    decreases |actions|
  {
    if actions != [] {
      assert !IsFixed(actions[0]);
      assert forall i | 0 <= i < |actions| - 1 :: actions[1..][i] == actions[i + 1];
      NoFixedPasses(actions[1..], Drop(s, ActionSize(actions[0])));
    }
  }

  lemma {:induction false} FixedOfParts(a: seq<Action>, b: seq<Action>, s: bytes)
    requires FieldSum(a) <= |s| && FixedValuesMatch(a, s) && FixedValuesMatch(b, s[FieldSum(a)..])
    ensures FixedValuesMatch(a + b, s)
    decreases |a|
  {
    hide Number, IsFixed, ActionSize;
    if a == [] {
      assert a + b == b && s[0..] == s;
    } else {
      assert (a + b)[1..] == a[1..] + b;
      var rest := s[ActionSize(a[0])..];
      assert rest[FieldSum(a[1..])..] == s[FieldSum(a)..];
      FixedOfParts(a[1..], b, rest);
    }
  }

  lemma {:induction false} PartsConstant(a: seq<Action>, b: seq<Action>)
    requires AllConstant(a + b)
    ensures AllConstant(b)
    decreases |a|
  {
    if a == [] {
      assert a + b == b;
    } else {
      assert (a + b)[1..] == a[1..] + b;
      PartsConstant(a[1..], b);
    }
  }

  lemma FixedOfEither(a: seq<Action>, b: seq<Action>)
    requires !HasFixed(b)
    ensures HasFixed(a + b) <==> HasFixed(a)
  {
    if HasFixed(a) {
      var i :| 0 <= i < |a| && IsFixed(a[i]);
      assert (a + b)[i] == a[i];
    }
    if HasFixed(a + b) {
      var i :| 0 <= i < |a + b| && IsFixed((a + b)[i]);
      assert if i < |a| then (a + b)[i] == a[i] else (a + b)[i] == b[i - |a|];
    }
  }

  /**
   * A subpacket that goes on, behind simple fields, with a transformation or a field of variable size has no length to
   * compare: its test asks for its fixed values only, whatever size the rest of the frame has.
   */
  lemma UnsizedTestExactly(p: Packet, fields: seq<Action>, tail: seq<Action>, f: bytes)
    requires SimpleHeader(p.actions) && OuterTest(p, f)
    requires AllSimple(fields) && !HasFixed(tail) && (Transform in tail || !AllConstant(tail))
    requires FieldSum(p.actions) + FieldSum(fields) <= |f| - HEADER
    ensures InnerTest(p, fields + tail, f) <==> HasFixed(fields) && MatchesAll(fields, f[HEADER + FieldSum(p.actions)..])
  {
    OuterTestMatches(p, f);
    var data, n := f[HEADER..], FieldSum(p.actions);
    var rest := data[n..];
    assert rest == f[HEADER + n..];
    FixedOfEither(fields, tail);
    if AllConstant(fields + tail) {
      PartsConstant(fields, tail);
    }
    assert Transform in tail ==> Transform in fields + tail;
    NoFixedPasses(tail, rest[FieldSum(fields)..]);
    hide OuterTest, MatchesAll, AllSimple, FixedValuesMatch, U32, UntransformedAll, AllConstant, SimpleHeader, HasFixed;
    if FixedValuesMatch(fields + tail, rest) {
      FixedOfPrefix(fields, tail, rest);
      SimpleFieldsMatch(fields, rest);
    }
    if MatchesAll(fields, rest) {
      MatchingFieldsPass(fields, rest);
      FixedOfParts(fields, tail, rest);
    }
  }
}
