/**
  The merge that Protocol Buffers promise of concatenated messages, in which
  submessages are merged wherever they are stored, against what the decoder
  does: it replaces a submessage behind a pointer.
 */
module StandardMerge {
  import opened Wire
  import opened Varint
  import opened Descriptor
  import opened Encoding
  import opened Decoding
  import opened Merging
  import opened RoundTrip

  function StandardValue(T: Table, f: Field, start: Value, v: Value): Option<Value>
    decreases v, 0
  {
    if f.ltype.LSubmsg? then
      if !start.Msg? || !v.Msg? then None
      else
        match StandardFrom(T, f.sub, start.slots, v.slots, 0)
        case None => None
        case Some(ss) => Some(Msg(ss))
    else Some(v)
  }

  /** A pointer that is set already is merged into; all other storage as the decoder does it. */
  function StandardSlot(T: Table, d: nat, f: Field, c: Slot, s: Slot): Option<Slot>
    decreases s, 2
  {
    match s
    case One(v) =>
      if LeftOut(T, d, f, s) then Some(c)
      else if !c.One? then None
      else (match StandardValue(T, f, c.v, v)
            case None => None
            case Some(x) => Some(One(x)))
    case Opt(has, v) =>
      if !has then Some(c)
      else if !c.Opt? then None
      else (match StandardValue(T, f, c.v, v)
            case None => None
            case Some(x) => Some(Opt(true, x)))
    case Ptr(p) =>
      (match p
       case None => Some(c)
       case Some(v) =>
         match StandardValue(T, f, if c.Ptr? && c.p.Some? then c.p.value else Fresh(T, f), v)
         case None => None
         case Some(x) => Some(Ptr(Some(x))))
    case Many(items) => MergeSlot(T, d, f, c, s)
  }

  /** The fields from number i on. */
  function StandardFrom(T: Table, d: nat, c: seq<Slot>, m: seq<Slot>, i: nat): Option<seq<Slot>>
    decreases m, |At(T, d)| - i
  {
    if i >= |At(T, d)| then Some(c)
    else if i >= |m| || i >= |c| then None
    else
      match StandardSlot(T, d, At(T, d)[i], c[i], m[i])
      case None => None
      case Some(s) => StandardFrom(T, d, c[i := s], m, i + 1)
  }

  // ----- where both set the same pointer -----

  /** Some submessage pointer, here or in a submessage that is merged, is set in both. */
  ghost predicate BothSet(T: Table, d: nat, c: seq<Slot>, m: seq<Slot>)
    decreases m
  {
    exists i :: 0 <= i < |m| && i < |c| && i < |At(T, d)| && SlotBothSet(T, d, At(T, d)[i], c[i], m[i])
  }

  ghost predicate SlotBothSet(T: Table, d: nat, f: Field, c: Slot, s: Slot)
    decreases s
  {
    match s
    case One(v) => !LeftOut(T, d, f, s) && c.One? && ValueBothSet(T, f, c.v, v)
    case Opt(has, v) => has && c.Opt? && ValueBothSet(T, f, c.v, v)
    case Ptr(p) => f.ltype.LSubmsg? && p.Some? && c.Ptr? && c.p.Some?
    case Many(items) => false
  }

  ghost predicate ValueBothSet(T: Table, f: Field, c: Value, v: Value)
    decreases v
  {
    f.ltype.LSubmsg? && c.Msg? && v.Msg? && BothSet(T, f.sub, c.slots, v.slots)
  }

  /** In the initial structure no pointer is set. */
  lemma {:induction false} InitSetsNone(T: Table, d: nat, m: seq<Slot>)
    ensures !BothSet(T, d, InitMsg(T, d), m)
    decreases m, 1
  {
    forall i | 0 <= i < |m| && i < |At(T, d)| ensures !SlotBothSet(T, d, At(T, d)[i], InitMsg(T, d)[i], m[i]) {
      InitSlotSetsNone(T, d, At(T, d)[i], m[i]);
    }
  }

  lemma {:induction false} InitSlotSetsNone(T: Table, d: nat, f: Field, s: Slot)
    ensures !SlotBothSet(T, d, f, InitSlot(T, d, f), s)
    decreases s, 0
  {
    if (s.One? || s.Opt?) && s.v.Msg? {
      if f.sub < d { InitSetsNone(T, f.sub, s.v.slots); } else { assert !BothSet(T, f.sub, [], s.v.slots); }
    }
  }

  lemma {:induction false} ValuesAgree(T: Table, f: Field, c: Value, v: Value)
    requires !ValueBothSet(T, f, c, v)
    ensures StandardValue(T, f, c, v) == MergeValue(T, f, c, v)
    decreases v, 0
  {
    if f.ltype.LSubmsg? && c.Msg? && v.Msg? { FieldsAgree(T, f.sub, c.slots, v.slots, 0); }
  }

  lemma {:induction false} SlotsAgree(T: Table, d: nat, f: Field, c: Slot, s: Slot)
    requires !SlotBothSet(T, d, f, c, s)
    ensures StandardSlot(T, d, f, c, s) == MergeSlot(T, d, f, c, s)
    decreases s, 1
  {
    match s
    case One(v) => if !LeftOut(T, d, f, s) && c.One? { ValuesAgree(T, f, c.v, v); }
    case Opt(has, v) => if has && c.Opt? { ValuesAgree(T, f, c.v, v); }
    case Ptr(p) =>
      if p.Some? && f.ltype.LSubmsg? {
        if p.value.Msg? { InitSetsNone(T, f.sub, p.value.slots); }
        ValuesAgree(T, f, Fresh(T, f), p.value);
      }
    case Many(items) =>
  }

  lemma {:induction false} FieldsAgree(T: Table, d: nat, c: seq<Slot>, m: seq<Slot>, i: nat)
    requires forall k :: i <= k < |m| && k < |c| && k < |At(T, d)| ==> !SlotBothSet(T, d, At(T, d)[k], c[k], m[k])
    ensures StandardFrom(T, d, c, m, i) == MergeFrom(T, d, c, m, i)
    decreases m, 2, |m| - i
  {
    if i >= |m| || i >= |c| || i >= |At(T, d)| {
    } else {
      SlotsAgree(T, d, At(T, d)[i], c[i], m[i]);
      var s := MergeSlot(T, d, At(T, d)[i], c[i], m[i]);
      if s.Some? { FieldsAgree(T, d, c[i := s.value], m, i + 1); }
    }
  }

  // ----- what is left of the first submessage -----

  /** The standard merge, like the other, is field by field. */
  lemma {:induction false} StandardFromAt(T: Table, d: nat, c: seq<Slot>, m: seq<Slot>, i: nat)
    requires i <= |At(T, d)| == |m| == |c|
    ensures StandardFrom(T, d, c, m, i).Some? <==>
              forall k :: i <= k < |m| ==> StandardSlot(T, d, At(T, d)[k], c[k], m[k]).Some?
    ensures StandardFrom(T, d, c, m, i).Some? ==>
              && |StandardFrom(T, d, c, m, i).value| == |c|
              && forall k :: 0 <= k < |m| ==>
                StandardFrom(T, d, c, m, i).value[k]
                == if k < i then c[k] else StandardSlot(T, d, At(T, d)[k], c[k], m[k]).value
    decreases |m| - i
  {
    if i == |m| {
    } else {
      var s := StandardSlot(T, d, At(T, d)[i], c[i], m[i]);
      if s.Some? { StandardFromAt(T, d, c[i := s.value], m, i + 1); }
    }
  }

  /** Some content of c survives when m is merged into it. */
  ghost predicate Remains(T: Table, d: nat, c: seq<Slot>, m: seq<Slot>)
    requires |c| == |m| == |At(T, d)|
    decreases m
  {
    exists i :: 0 <= i < |m| && SlotRemains(T, d, At(T, d)[i], c[i], m[i])
  }

  ghost predicate SlotRemains(T: Table, d: nat, f: Field, c: Slot, s: Slot)
    decreases s
  {
    match s
    case One(v) => if LeftOut(T, d, f, s) then c != InitSlot(T, d, f) else c.One? && ValueRemains(T, f, c.v, v)
    case Opt(has, v) => if has then c.Opt? && ValueRemains(T, f, c.v, v) else c != InitSlot(T, d, f)
    case Many(items) => c != Many([])
    case Ptr(p) =>
      if p.None? then c != Ptr(None) else c.Ptr? && c.p.Some? && ValueRemains(T, f, c.p.value, p.value)
  }

  ghost predicate ValueRemains(T: Table, f: Field, c: Value, v: Value)
    decreases v
  {
    && f.ltype.LSubmsg? && c.Msg? && v.Msg?
    && |c.slots| == |v.slots| == |At(T, f.sub)|
    && Remains(T, f.sub, c.slots, v.slots)
  }

  lemma {:induction false} ReplacedIffNothingRemains(T: Table, d: nat, c: seq<Slot>, m: seq<Slot>)
    requires TableOk(T) && Conforms(T, d, c, true) && Conforms(T, d, m, false)
    ensures StandardFrom(T, d, c, m, 0) == Some(Restore(T, d, m)) <==> !Remains(T, d, c, m)
    decreases m, 2
  {
    StandardFromAt(T, d, c, m, 0);
    forall i | 0 <= i < |m|
      ensures StandardSlot(T, d, At(T, d)[i], c[i], m[i]) == Some(RestoreSlot(T, d, At(T, d)[i], m[i]))
         <==> !SlotRemains(T, d, At(T, d)[i], c[i], m[i])
    {
      FieldOkAt(T, d, i);
      assert ConformsSlot(T, d, At(T, d)[i], c[i], true) && ConformsSlot(T, d, At(T, d)[i], m[i], false);
      SlotReplaced(T, d, At(T, d)[i], c[i], m[i]);
    }
    SameFields(T, d, StandardFrom(T, d, c, m, 0), m);
  }

  /** Two structures are equal exactly if they are so field by field. */
  lemma SameFields(T: Table, d: nat, r: Option<seq<Slot>>, m: seq<Slot>)
    requires |m| == |At(T, d)|
    ensures r == Some(Restore(T, d, m)) <==>
              && r.Some? && |r.value| == |m|
              && forall i :: 0 <= i < |m| ==> r.value[i] == RestoreSlot(T, d, At(T, d)[i], m[i])
  {
    var q := Restore(T, d, m);
    assert forall i :: 0 <= i < |m| ==> q[i] == RestoreSlot(T, d, At(T, d)[i], m[i]);
    if r.Some? && |r.value| == |m| && forall i :: 0 <= i < |m| ==> r.value[i] == RestoreSlot(T, d, At(T, d)[i], m[i]) {
      assert r.value == q;
    }
  }

  lemma {:induction false} SlotReplaced(T: Table, d: nat, f: Field, c: Slot, s: Slot)
    requires TableOk(T) && FieldOk(T, d, f)
    requires ConformsSlot(T, d, f, c, true) && ConformsSlot(T, d, f, s, false)
    ensures StandardSlot(T, d, f, c, s) == Some(RestoreSlot(T, d, f, s)) <==> !SlotRemains(T, d, f, c, s)
    decreases s, 1
  {
    match s
    case One(v) => if !LeftOut(T, d, f, s) { ValueReplaced(T, f, c.v, v); }
    case Opt(has, v) => if has { ValueReplaced(T, f, c.v, v); }
    case Ptr(p) =>
      if p.Some? && c.p.Some? {
        ValueReplaced(T, f, c.p.value, p.value);
      } else if p.Some? {
        SlotsAgree(T, d, f, c, s);
        MergeValueRestores(T, f, p.value);
      }
    case Many(items) => ArrayReplaced(T, d, f, c, items);
  }

  lemma ArrayReplaced(T: Table, d: nat, f: Field, c: Slot, items: seq<Value>)
    requires TableOk(T) && FieldOk(T, d, f)
    requires ConformsSlot(T, d, f, c, true) && ConformsSlot(T, d, f, Many(items), false)
    ensures MergeSlot(T, d, f, c, Many(items)) == Some(RestoreSlot(T, d, f, Many(items))) <==> c == Many([])
  {
    MergeItemsRestores(T, f, items);
    var xs := RestoreSlot(T, d, f, Many(items)).items;
    assert |c.items + xs| == |c.items| + |xs|;
    assert [] + xs == xs;
  }

  lemma {:induction false} ValueReplaced(T: Table, f: Field, c: Value, v: Value)
    requires TableOk(T) && ConformsValue(T, f, c, true) && ConformsValue(T, f, v, false)
    ensures StandardValue(T, f, c, v) == Some(RestoreValue(T, f, v)) <==> !ValueRemains(T, f, c, v)
    decreases v, 0
  {
    if f.ltype.LSubmsg? { ReplacedIffNothingRemains(T, f.sub, c.slots, v.slots); }
  }

  // ----- the exact condition -----

  /**
    Some submessage pointer, here or in a submessage that is merged, is set in
    both, and what the first one pointed to would not be covered by the second.
   */
  ghost predicate Loses(T: Table, d: nat, c: seq<Slot>, m: seq<Slot>)
    requires |c| == |m| == |At(T, d)|
    decreases m
  {
    exists i :: 0 <= i < |m| && SlotLoses(T, d, At(T, d)[i], c[i], m[i])
  }

  ghost predicate SlotLoses(T: Table, d: nat, f: Field, c: Slot, s: Slot)
    decreases s
  {
    match s
    case One(v) => !LeftOut(T, d, f, s) && c.One? && ValueLoses(T, f, c.v, v)
    case Opt(has, v) => has && c.Opt? && ValueLoses(T, f, c.v, v)
    case Ptr(p) => p.Some? && c.Ptr? && c.p.Some? && ValueRemains(T, f, c.p.value, p.value)
    case Many(items) => false
  }

  ghost predicate ValueLoses(T: Table, f: Field, c: Value, v: Value)
    decreases v
  {
    && f.ltype.LSubmsg? && c.Msg? && v.Msg?
    && |c.slots| == |v.slots| == |At(T, f.sub)|
    && Loses(T, f.sub, c.slots, v.slots)
  }

  lemma {:induction false} StandardIffNothingLost(T: Table, d: nat, c: seq<Slot>, m: seq<Slot>)
    requires TableOk(T) && Conforms(T, d, c, true) && Conforms(T, d, m, false) && !Overflows(T, d, c, m)
    ensures Merge(T, d, c, m).Some?
    ensures StandardFrom(T, d, c, m, 0) == Merge(T, d, c, m) <==> !Loses(T, d, c, m)
    decreases m, 1
  {
    MergeFailsOnOverflow(T, d, c, m);
    MergeFromAt(T, d, c, m, 0);
    StandardFromAt(T, d, c, m, 0);
    forall i | 0 <= i < |m|
      ensures StandardSlot(T, d, At(T, d)[i], c[i], m[i]) == MergeSlot(T, d, At(T, d)[i], c[i], m[i])
         <==> !SlotLoses(T, d, At(T, d)[i], c[i], m[i])
    {
      FieldOkAt(T, d, i);
      assert ConformsSlot(T, d, At(T, d)[i], c[i], true) && ConformsSlot(T, d, At(T, d)[i], m[i], false);
      assert !SlotOverflows(T, d, At(T, d)[i], c[i], m[i]);
      SlotStandardIffNothingLost(T, d, At(T, d)[i], c[i], m[i]);
    }
    var r, q := StandardFrom(T, d, c, m, 0), Merge(T, d, c, m);
    if r.Some? && forall i :: 0 <= i < |m| ==> r.value[i] == q.value[i] { assert r.value == q.value; }
  }

  lemma {:induction false} SlotStandardIffNothingLost(T: Table, d: nat, f: Field, c: Slot, s: Slot)
    requires TableOk(T) && FieldOk(T, d, f)
    requires ConformsSlot(T, d, f, c, true) && ConformsSlot(T, d, f, s, false) && !SlotOverflows(T, d, f, c, s)
    ensures StandardSlot(T, d, f, c, s) == MergeSlot(T, d, f, c, s) <==> !SlotLoses(T, d, f, c, s)
    decreases s, 0
  {
    match s
    case One(v) =>
      if !LeftOut(T, d, f, s) && f.ltype.LSubmsg? { StandardIffNothingLost(T, f.sub, c.v.slots, v.slots); }
    case Opt(has, v) => if has && f.ltype.LSubmsg? { StandardIffNothingLost(T, f.sub, c.v.slots, v.slots); }
    case Ptr(p) =>
      if p.Some? {
        MergeValueRestores(T, f, p.value);
        if c.p.Some? { ValueReplaced(T, f, c.p.value, p.value); } else { SlotsAgree(T, d, f, c, s); }
      }
    case Many(items) =>
  }

  /** On overflow both fail. */
  lemma {:induction false} BothOverflow(T: Table, d: nat, c: seq<Slot>, m: seq<Slot>)
    requires TableOk(T) && Conforms(T, d, c, true) && Conforms(T, d, m, false) && Overflows(T, d, c, m)
    ensures StandardFrom(T, d, c, m, 0).None? && Merge(T, d, c, m).None?
    decreases m
  {
    MergeFailsOnOverflow(T, d, c, m);
    StandardFromAt(T, d, c, m, 0);
    var i :| 0 <= i < |m| && SlotOverflows(T, d, At(T, d)[i], c[i], m[i]);
    var f := At(T, d)[i];
    FieldOkAt(T, d, i);
    assert ConformsSlot(T, d, f, c[i], true) && ConformsSlot(T, d, f, m[i], false);
    SlotBothOverflow(T, d, f, c[i], m[i]);
  }

  lemma {:induction false} SlotBothOverflow(T: Table, d: nat, f: Field, c: Slot, s: Slot)
    requires TableOk(T) && ConformsSlot(T, d, f, c, true) && ConformsSlot(T, d, f, s, false)
    requires SlotOverflows(T, d, f, c, s)
    ensures StandardSlot(T, d, f, c, s).None?
    decreases s
  {
    if !s.Many? { BothOverflow(T, f.sub, c.v.slots, s.v.slots); }
  }

  /**
    Concatenation is the standard merge exactly if an array overflows, in
    which case both fail, or nothing is lost behind a pointer.
   */
  lemma ConcatenationIsStandard(T: Table, d: nat, a: seq<Slot>, b: seq<Slot>)
    requires TableOk(T) && Conforms(T, d, a, false) && Conforms(T, d, b, false)
    requires Encode(T, d, a).Some? && LengthsFit(T, d, a)
    requires Encode(T, d, b).Some? && LengthsFit(T, d, b)
    ensures |Restore(T, d, a)| == |b| == |At(T, d)|
    ensures Decode(T, d, Encode(T, d, a).value + Encode(T, d, b).value) == StandardFrom(T, d, Restore(T, d, a), b, 0)
       <==> Overflows(T, d, Restore(T, d, a), b) || !Loses(T, d, Restore(T, d, a), b)
  {
    var c := Restore(T, d, a);
    DecodeOfConcatenation(T, d, a, b);
    if Overflows(T, d, c, b) { BothOverflow(T, d, c, b); } else { StandardIffNothingLost(T, d, c, b); }
  }

  /** In particular unless both messages set the same submessage pointer. */
  lemma ConcatenationOfDisjoint(T: Table, d: nat, a: seq<Slot>, b: seq<Slot>)
    requires TableOk(T) && Conforms(T, d, a, false) && Conforms(T, d, b, false)
    requires Encode(T, d, a).Some? && LengthsFit(T, d, a)
    requires Encode(T, d, b).Some? && LengthsFit(T, d, b)
    requires !BothSet(T, d, Restore(T, d, a), b)
    ensures Decode(T, d, Encode(T, d, a).value + Encode(T, d, b).value)
         == StandardFrom(T, d, Restore(T, d, a), b, 0)
  {
    DecodeOfConcatenation(T, d, a, b);
    FieldsAgree(T, d, Restore(T, d, a), b, 0);
  }

  // ----- a pair of messages for which they differ -----

  /** A message with two optional numbers, and one that points to it. */
  function Pointing(): Table {
    [Desc([Field(1, LVarint, Optional, Static, 4, 1, 4, 4, 1, 0, None),
           Field(2, LVarint, Optional, Static, 4, 1, 12, 4, 1, 0, None)]),
     Desc([Field(1, LSubmsg, Optional, Pointer, 8, 1, 0, 0, 1, 0, None)])]
  }

  function Numbers(n1: Option<int>, n2: Option<int>): seq<Slot> {
    [Number(n1), Number(n2)]
  }

  function Number(n: Option<int>): Slot {
    if n.Some? then Opt(true, Num(n.value)) else Opt(false, Num(0))
  }

  function PointerTo(ss: seq<Slot>): seq<Slot> {
    [Ptr(Some(Msg(ss)))]
  }

  lemma PointingIsOk()
    ensures TableOk(Pointing())
  {
    var T := Pointing();
    forall d | 0 <= d < |T| ensures DescOk(T, d) {
      forall i | 0 <= i < |At(T, d)| ensures EntryOk(T, d, i) { }
      forall i, j | 0 <= i < j < |At(T, d)| ensures Precedes(At(T, d), i, j) { }
    }
  }

  predicate Small(n: Option<int>) {
    n.Some? ==> 0 <= n.value < 128
  }

  lemma FieldCounts()
    ensures |At(Pointing(), 0)| == 2 && |At(Pointing(), 1)| == 1
  {
  }

  lemma NumberRecord(i: nat, n: nat)
    requires i < 2 && n < 128
    ensures Record(Pointing(), At(Pointing(), 0)[i], Num(n)) == Some([8 * (i + 1), n])
  {
    var f := At(Pointing(), 0)[i];
    assert n % TWO64 == n && Shortest(n) == [n];
    assert Tag(f, WT_VARINT) == [8 * (i + 1)];
    assert Payload(Pointing(), f, Num(n)) == Some([n]);
    assert [8 * (i + 1)] + [n] == [8 * (i + 1), n];
  }

  lemma NumberForm(i: nat, n: Option<int>)
    requires i < 2 && Small(n)
    ensures var T := Pointing();
            && ConformsSlot(T, 0, At(T, 0)[i], Number(n), false)
            && RestoreSlot(T, 0, At(T, 0)[i], Number(n)) == Number(n)
            && SlotForm(T, 0, At(T, 0)[i], Number(n)) == Some(if n.None? then [] else [8 * (i + 1), n.value])
  {
    if n.Some? { NumberRecord(i, n.value); }
  }

  lemma EncodeStep(T: Table, d: nat, ss: seq<Slot>, i: nat, e: seq<byte>, es: seq<byte>)
    requires i < |At(T, d)| == |ss| && SlotForm(T, d, At(T, d)[i], ss[i]) == Some(e)
    requires EncodeFrom(T, d, ss, i + 1) == Some(es)
    ensures EncodeFrom(T, d, ss, i) == Some(e + es)
  {
  }

  lemma NumbersForm(n1: Option<int>, n2: Option<int>)
    requires Small(n1) && Small(n2)
    ensures Conforms(Pointing(), 0, Numbers(n1, n2), false)
    ensures Restore(Pointing(), 0, Numbers(n1, n2)) == Numbers(n1, n2)
    ensures Encode(Pointing(), 0, Numbers(n1, n2))
         == Some((if n1.None? then [] else [8, n1.value]) + (if n2.None? then [] else [16, n2.value]))
  {
    var T, ss := Pointing(), Numbers(n1, n2);
    FieldCounts();
    NumberForm(0, n1);
    NumberForm(1, n2);
    var e1, e2 := if n1.None? then [] else [8, n1.value], if n2.None? then [] else [16, n2.value];
    EncodeStep(T, 0, ss, 1, e2, []);
    assert e2 + [] == e2;
    EncodeStep(T, 0, ss, 0, e1, e2);
  }

  lemma PointerForm(ss: seq<Slot>)
    requires Conforms(Pointing(), 0, ss, false) && Restore(Pointing(), 0, ss) == ss
    requires Encode(Pointing(), 0, ss).Some? && |Encode(Pointing(), 0, ss).value| == 2
    ensures Conforms(Pointing(), 1, PointerTo(ss), false) && Restore(Pointing(), 1, PointerTo(ss)) == PointerTo(ss)
    ensures Encode(Pointing(), 1, PointerTo(ss)) == Some([10, 2] + Encode(Pointing(), 0, ss).value)
    ensures LengthsFit(Pointing(), 1, PointerTo(ss))
  {
    var T, f, e := Pointing(), At(Pointing(), 1)[0], Encode(Pointing(), 0, ss).value;
    FieldCounts();
    assert ConformsSlot(T, 1, f, PointerTo(ss)[0], false);
    assert RestoreSlot(T, 1, f, PointerTo(ss)[0]) == PointerTo(ss)[0];
    assert Prefixed(e) == [2] + e && Tag(f, WT_STRING) == [10];
    assert Record(T, f, Msg(ss)) == Some([10] + ([2] + e));
    EncodeStep(T, 1, PointerTo(ss), 0, [10] + ([2] + e), []);
    assert [10] + ([2] + e) + [] == [10, 2] + e;
    ShortLengthsFit(T, 1, PointerTo(ss));
  }

  lemma MergeStep(T: Table, d: nat, c: seq<Slot>, m: seq<Slot>, i: nat, s: Slot)
    requires i < |At(T, d)| == |m| == |c| && MergeSlot(T, d, At(T, d)[i], c[i], m[i]) == Some(s)
    ensures MergeFrom(T, d, c, m, i) == MergeFrom(T, d, c[i := s], m, i + 1)
  {
  }

  lemma StandardStep(T: Table, d: nat, c: seq<Slot>, m: seq<Slot>, i: nat, s: Slot)
    requires i < |At(T, d)| == |m| == |c| && StandardSlot(T, d, At(T, d)[i], c[i], m[i]) == Some(s)
    ensures StandardFrom(T, d, c, m, i) == StandardFrom(T, d, c[i := s], m, i + 1)
  {
  }

  /** The decoder keeps the second of two submessages behind a pointer. */
  lemma SecondIsKept(c: seq<Slot>, n2: int)
    requires |c| == 2
    ensures Merge(Pointing(), 1, PointerTo(c), PointerTo(Numbers(None, Some(n2))))
         == Some(PointerTo(Numbers(None, Some(n2))))
  {
    var T, b, init := Pointing(), Numbers(None, Some(n2)), InitMsg(Pointing(), 0);
    FieldCounts();
    assert init[0] == Number(None) && init[1] == Number(None);
    MergeStep(T, 0, init, b, 0, init[0]);
    assert init[0 := init[0]] == init;
    MergeStep(T, 0, init, b, 1, b[1]);
    assert init[1 := b[1]] == b;
    MergeStep(T, 1, PointerTo(c), PointerTo(b), 0, Ptr(Some(Msg(b))));
    assert PointerTo(c)[0 := Ptr(Some(Msg(b)))] == PointerTo(b);
  }

  /** The standard keeps both. */
  lemma BothAreKept(n1: int, n2: int)
    ensures StandardFrom(Pointing(), 1, PointerTo(Numbers(Some(n1), None)), PointerTo(Numbers(None, Some(n2))), 0)
         == Some(PointerTo(Numbers(Some(n1), Some(n2))))
  {
    var T, a, b, both := Pointing(), Numbers(Some(n1), None), Numbers(None, Some(n2)), Numbers(Some(n1), Some(n2));
    FieldCounts();
    StandardStep(T, 0, a, b, 0, a[0]);
    assert a[0 := a[0]] == a;
    StandardStep(T, 0, a, b, 1, b[1]);
    assert a[1 := b[1]] == both;
    StandardStep(T, 1, PointerTo(a), PointerTo(b), 0, Ptr(Some(Msg(both))));
    assert PointerTo(a)[0 := Ptr(Some(Msg(both)))] == PointerTo(both);
  }

  /** The first message sets field 1, the second field 2: decoding both in a row loses field 1. */
  lemma FirstIsReplaced(n1: int, n2: int)
    requires 0 <= n1 < 128 && 0 <= n2 < 128
    ensures TableOk(Pointing())
    ensures Encode(Pointing(), 1, PointerTo(Numbers(Some(n1), None))) == Some([10, 2, 8, n1])
    ensures Encode(Pointing(), 1, PointerTo(Numbers(None, Some(n2)))) == Some([10, 2, 16, n2])
    ensures Decode(Pointing(), 1, [10, 2, 8, n1] + [10, 2, 16, n2]) == Some(PointerTo(Numbers(None, Some(n2))))
    ensures StandardFrom(Pointing(), 1, PointerTo(Numbers(Some(n1), None)), PointerTo(Numbers(None, Some(n2))), 0)
         == Some(PointerTo(Numbers(Some(n1), Some(n2))))
  {
    var T, a, b := Pointing(), Numbers(Some(n1), None), Numbers(None, Some(n2));
    PointingIsOk();
    NumbersForm(Some(n1), None);
    NumbersForm(None, Some(n2));
    PointerForm(a);
    PointerForm(b);
    assert [10, 2] + ([8, n1] + []) == [10, 2, 8, n1] && [10, 2] + ([] + [16, n2]) == [10, 2, 16, n2];
    DecodeOfConcatenation(T, 1, PointerTo(a), PointerTo(b));
    SecondIsKept(a, n2);
    BothAreKept(n1, n2);
  }
}
