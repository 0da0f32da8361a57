/**
  Round trip, canonical form and concatenation: the laws that relate whole
  runs of the encoder and the decoder.
 */
module RoundTrip {
  import opened Wire
  import opened Descriptor
  import opened Encoding
  import opened Decoding
  import opened DecodedMessages
  import opened Merging
  import opened RequiredPointers

  // ----- what a round trip gives back -----

  /** The structure with every absent member at its initial value. */
  function Restore(T: Table, d: nat, ss: seq<Slot>): (rs: seq<Slot>)
    ensures |rs| == |ss|
    decreases ss, 2
  {
    if |ss| == |At(T, d)| then seq(|ss|, i requires 0 <= i < |ss| => RestoreSlot(T, d, At(T, d)[i], ss[i])) else ss
  }

  function RestoreSlot(T: Table, d: nat, f: Field, s: Slot): Slot
    decreases s, 1
  {
    match s
    case One(v) => if LeftOut(T, d, f, s) then InitSlot(T, d, f) else One(RestoreValue(T, f, v))
    case Opt(has, v) => if has then Opt(true, RestoreValue(T, f, v)) else InitSlot(T, d, f)
    case Many(items) => Many(seq(|items|, i requires 0 <= i < |items| => RestoreValue(T, f, items[i])))
    case Ptr(p) => match p { case None => Ptr(None) case Some(v) => Ptr(Some(RestoreValue(T, f, v))) }
  }

  function RestoreValue(T: Table, f: Field, v: Value): Value
    decreases v, 0
  {
    if f.ltype.LSubmsg? && v.Msg? then Msg(Restore(T, f.sub, v.slots)) else v
  }

  // ----- merging into the initial structure restores -----

  lemma {:induction false} MergeValueRestores(T: Table, f: Field, v: Value)
    requires TableOk(T) && ConformsValue(T, f, v, false)
    ensures MergeValue(T, f, Fresh(T, f), v) == Some(RestoreValue(T, f, v))
    decreases v, 0
  {
    if f.ltype.LSubmsg? { MergeFromRestores(T, f.sub, InitMsg(T, f.sub), v.slots, 0); }
  }

  lemma {:induction false} MergeItemsRestores(T: Table, f: Field, items: seq<Value>)
    requires TableOk(T) && forall i :: 0 <= i < |items| ==> ConformsValue(T, f, items[i], false)
    ensures MergeItems(T, f, items) == Some(RestoreSlot(T, 0, f, Many(items)).items)
    decreases items, 1
  {
    if items == [] {
    } else {
      MergeValueRestores(T, f, items[0]);
      MergeItemsRestores(T, f, items[1..]);
      var xs := RestoreSlot(T, 0, f, Many(items)).items;
      assert xs == [RestoreValue(T, f, items[0])] + RestoreSlot(T, 0, f, Many(items[1..])).items;
    }
  }

  lemma {:induction false} MergeSlotRestores(T: Table, d: nat, f: Field, s: Slot)
    requires TableOk(T) && FieldOk(T, d, f) && ConformsSlot(T, d, f, s, false)
    ensures MergeSlot(T, d, f, InitSlot(T, d, f), s) == Some(RestoreSlot(T, d, f, s))
    decreases s, 2
  {
    match s
    case One(v) => if !LeftOut(T, d, f, s) { MergeValueRestores(T, f, v); }
    case Opt(has, v) => if has { MergeValueRestores(T, f, v); }
    case Ptr(p) => if p.Some? { MergeValueRestores(T, f, p.value); }
    case Many(items) =>
      MergeItemsRestores(T, f, items);
      if items != [] {
        var xs := RestoreSlot(T, d, f, s).items;
        assert [] + xs == xs;
      }
  }

  lemma {:induction false} MergeFromRestores(T: Table, d: nat, c: seq<Slot>, m: seq<Slot>, i: nat)
    requires TableOk(T) && Conforms(T, d, m, false) && i <= |m|
    requires |c| == |m| && c[..i] == Restore(T, d, m)[..i] && c[i..] == InitMsg(T, d)[i..]
    ensures MergeFrom(T, d, c, m, i) == Some(Restore(T, d, m))
    decreases m, 3, |m| - i
  {
    if i < |m| {
      var f := At(T, d)[i];
      FieldOkAt(T, d, i);
      assert c[i] == InitMsg(T, d)[i] == InitSlot(T, d, f);
      MergeSlotRestores(T, d, f, m[i]);
      var c' := c[i := Restore(T, d, m)[i]];
      assert c'[..i + 1] == c[..i] + [c'[i]] == Restore(T, d, m)[..i + 1];
      assert c'[i + 1..] == c[i..][1..] == InitMsg(T, d)[i + 1..];
      MergeFromRestores(T, d, c', m, i + 1);
    } else {
      assert c == c[..i] == Restore(T, d, m)[..i] == Restore(T, d, m);
    }
  }

  /**
    Round trip: for every table and every structure the encoder may be given,
    decoding its wire form consumes all of it and gives the structure back,
    absent members at their defaults.
   */
  lemma DecodeOfEncode(T: Table, d: nat, m: seq<Slot>)
    requires TableOk(T) && Conforms(T, d, m, false)
    ensures Encode(T, d, m).Some?
    ensures LengthsFit(T, d, m) ==> Decode(T, d, Encode(T, d, m).value) == Some(Restore(T, d, m))
  {
    EncodeFromExists(T, d, m, 0);
    if LengthsFit(T, d, m) {
      InitConforms(T, d);
      DecodeIntoOfEncode(T, d, InitMsg(T, d), m);
      MergeFromRestores(T, d, InitMsg(T, d), m, 0);
    }
  }

  // ----- canonical form -----

  /** A stored structure that counts as absent is the initial one. */
  lemma {:induction false} DefaultIsInit(T: Table, d: nat, ss: seq<Slot>)
    requires TableOk(T) && Conforms(T, d, ss, true) && IsDefaultMsg(T, d, ss)
    ensures ss == InitMsg(T, d)
    decreases ss, 1
  {
    forall i | 0 <= i < |ss| ensures ss[i] == InitMsg(T, d)[i] {
      FieldOkAt(T, d, i);
      DefaultSlotIsInit(T, d, At(T, d)[i], ss[i], i);
    }
  }

  lemma {:induction false} DefaultSlotIsInit(T: Table, d: nat, f: Field, s: Slot, i: nat)
    requires TableOk(T) && i < |At(T, d)| && f == At(T, d)[i]
    requires ConformsSlot(T, d, f, s, true) && IsDefault(T, d, f, s)
    ensures s == InitSlot(T, d, f)
    decreases s, 0
  {
    FieldOkAt(T, d, i);
    if s.One? && f.ltype.LSubmsg? {
      DefaultIsInit(T, f.sub, s.v.slots);
    } else if s.One? {
      assert f.dflt.None?;
      if f.ltype.LFixedBytes? { assert s.v.bytes == Zeros(0); }
    }
  }

  lemma {:induction false} RestoreOfStored(T: Table, d: nat, ss: seq<Slot>)
    requires TableOk(T) && Conforms(T, d, ss, true)
    ensures Restore(T, d, ss) == ss
    decreases ss, 2
  {
    forall i | 0 <= i < |ss| ensures Restore(T, d, ss)[i] == ss[i] {
      RestoreSlotOfStored(T, d, At(T, d)[i], ss[i], i);
    }
  }

  lemma {:induction false} RestoreSlotOfStored(T: Table, d: nat, f: Field, s: Slot, i: nat)
    requires TableOk(T) && i < |At(T, d)| && f == At(T, d)[i] && ConformsSlot(T, d, f, s, true)
    ensures RestoreSlot(T, d, f, s) == s
    decreases s, 1
  {
    match s
    case One(v) => if LeftOut(T, d, f, s) { DefaultSlotIsInit(T, d, f, s, i); } else { RestoreValueOfStored(T, f, v); }
    case Opt(has, v) => RestoreValueOfStored(T, f, v);
    case Ptr(p) => if p.Some? { RestoreValueOfStored(T, f, p.value); }
    case Many(items) =>
      forall k | 0 <= k < |items| ensures RestoreValue(T, f, items[k]) == items[k] {
        RestoreValueOfStored(T, f, items[k]);
      }
  }

  lemma {:induction false} RestoreValueOfStored(T: Table, f: Field, v: Value)
    requires TableOk(T) && ConformsValue(T, f, v, true)
    ensures RestoreValue(T, f, v) == v
    decreases v, 0
  {
    if f.ltype.LSubmsg? { RestoreOfStored(T, f.sub, v.slots); }
  }

  /**
    Canonical form: whatever bytes the decoder accepts, the result can be
    encoded exactly if no required pointer in a written part is NULL, which
    the table can rule out; and then nothing changes any more: decoding the
    canonical bytes gives the same structure, whose encoding is the same bytes.
   */
  lemma Canonical(T: Table, d: nat, bs: seq<byte>)
    requires TableOk(T) && Decode(T, d, bs).Some?
    ensures var m := Decode(T, d, bs).value;
            && Conforms(T, d, m, true)
            && (Encode(T, d, m).Some? <==> Complete(T, d, m))
            && (Reencodable(T) ==> Encode(T, d, m).Some?)
            && (Encode(T, d, m).Some? && LengthsFit(T, d, m) ==> Decode(T, d, Encode(T, d, m).value) == Some(m))
  {
    var m := Decode(T, d, bs).value;
    DecodeConforms(T, d, bs);
    StoredIsEncodable(T, d, m);
    if Reencodable(T) {
      assert AcceptedReencodable(T);
      DecodedIsEncodable(T, d, bs);
    }
    if Encode(T, d, m).Some? {
      RestoreOfStored(T, d, m);
      DecodeOfEncode(T, d, m);
    }
  }

  // ----- concatenation -----

  /** Merging is field by field. */
  lemma {:induction false} MergeFromAt(T: Table, d: nat, c: seq<Slot>, m: seq<Slot>, i: nat)
    requires i <= |At(T, d)| == |m| == |c|
    ensures MergeFrom(T, d, c, m, i).Some? <==>
              forall k :: i <= k < |m| ==> MergeSlot(T, d, At(T, d)[k], c[k], m[k]).Some?
    ensures MergeFrom(T, d, c, m, i).Some? ==>
              && |MergeFrom(T, d, c, m, i).value| == |c|
              && forall k :: 0 <= k < |m| ==>
                MergeFrom(T, d, c, m, i).value[k]
                     == if k < i then c[k] else MergeSlot(T, d, At(T, d)[k], c[k], m[k]).value
    decreases |m| - i
  {
    if i >= |m| {
    } else {
      var s := MergeSlot(T, d, At(T, d)[i], c[i], m[i]);
      if s.Some? { MergeFromAt(T, d, c[i := s.value], m, i + 1); }
    }
  }

  /** Some array, here or in a submessage that is merged, would exceed its capacity. */
  ghost predicate Overflows(T: Table, d: nat, c: seq<Slot>, m: seq<Slot>)
    requires |c| == |m| == |At(T, d)|
    decreases m
  {
    exists i :: 0 <= i < |m| && SlotOverflows(T, d, At(T, d)[i], c[i], m[i])
  }

  ghost predicate SlotOverflows(T: Table, d: nat, f: Field, c: Slot, s: Slot)
    decreases s
  {
    match s
    case Many(items) => items != [] && c.Many? && |c.items| + |items| > Capacity(f)
    case One(v) => !LeftOut(T, d, f, s) && c.One? && ValueOverflows(T, f, c.v, v)
    case Opt(has, v) => has && c.Opt? && ValueOverflows(T, f, c.v, v)
    case Ptr(_) => false
  }

  ghost predicate ValueOverflows(T: Table, f: Field, c: Value, v: Value)
    decreases v
  {
    && f.ltype.LSubmsg? && c.Msg? && v.Msg?
    && |c.slots| == |v.slots| == |At(T, f.sub)|
    && Overflows(T, f.sub, c.slots, v.slots)
  }

  lemma {:induction false} MergeFailsOnOverflow(T: Table, d: nat, c: seq<Slot>, m: seq<Slot>)
    requires TableOk(T) && Conforms(T, d, c, true) && Conforms(T, d, m, false)
    ensures Merge(T, d, c, m).None? <==> Overflows(T, d, c, m)
    decreases m, 1
  {
    MergeFromAt(T, d, c, m, 0);
    forall i | 0 <= i < |m|
      ensures MergeSlot(T, d, At(T, d)[i], c[i], m[i]).None? <==> SlotOverflows(T, d, At(T, d)[i], c[i], m[i])
    {
      var f := At(T, d)[i];
      FieldOkAt(T, d, i);
      assert ConformsSlot(T, d, f, c[i], true) && ConformsSlot(T, d, f, m[i], false);
      MergeSlotFailsOnOverflow(T, d, f, c[i], m[i]);
    }
  }

  lemma {:induction false} MergeSlotFailsOnOverflow(T: Table, d: nat, f: Field, c: Slot, s: Slot)
    requires TableOk(T) && FieldOk(T, d, f)
    requires ConformsSlot(T, d, f, c, true) && ConformsSlot(T, d, f, s, false)
    ensures MergeSlot(T, d, f, c, s).None? <==> SlotOverflows(T, d, f, c, s)
    decreases s, 0
  {
    match s
    case One(v) =>
      if !LeftOut(T, d, f, s) && f.ltype.LSubmsg? { MergeFailsOnOverflow(T, f.sub, c.v.slots, v.slots); }
    case Opt(has, v) => if has && f.ltype.LSubmsg? { MergeFailsOnOverflow(T, f.sub, c.v.slots, v.slots); }
    case Ptr(p) => if p.Some? { MergeValueRestores(T, f, p.value); }
    case Many(items) => MergeItemsRestores(T, f, items);
  }

  /**
    Concatenation: decoding the bytes of `a` followed by the bytes of `b`
    merges b into a: it fails exactly when an array overflows, and otherwise
    every field is the merge of the two.
   */
  lemma DecodeOfConcatenation(T: Table, d: nat, a: seq<Slot>, b: seq<Slot>)
    requires TableOk(T) && Conforms(T, d, a, false) && Conforms(T, d, b, false)
    requires Encode(T, d, a).Some? && LengthsFit(T, d, a)
    requires Encode(T, d, b).Some? && LengthsFit(T, d, b)
    ensures Conforms(T, d, Restore(T, d, a), true)
    ensures var r := Decode(T, d, Encode(T, d, a).value + Encode(T, d, b).value);
            && r == Merge(T, d, Restore(T, d, a), b)
            && (r.None? <==> Overflows(T, d, Restore(T, d, a), b))
            && (r.Some? ==> |r.value| == |a| && forall i :: 0 <= i < |a| ==>
                  Some(r.value[i]) == MergeSlot(T, d, At(T, d)[i], Restore(T, d, a)[i], b[i]))
  {
    var ea, eb := Encode(T, d, a).value, Encode(T, d, b).value;
    InitConforms(T, d);
    DecodeOfEncode(T, d, a);
    DecodeConforms(T, d, ea);
    LoopOfEncoded(T, d, InitMsg(T, d), a, 0, eb, {});
    MergeFromRestores(T, d, InitMsg(T, d), a, 0);
    var seen := MarkFrom(At(T, d), 0, {});
    LoopOfEncoded(T, d, Restore(T, d, a), b, 0, [], seen);
    assert eb + [] == eb;
    MarkFromCovers(At(T, d), 0, seen);
    MergeFromAt(T, d, Restore(T, d, a), b, 0);
    MergeFailsOnOverflow(T, d, Restore(T, d, a), b);
  }
}
