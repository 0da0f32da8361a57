/**
  Required pointer fields: what a successful decode says about them, when a
  structure can be encoded, and for which tables everything that is decoded
  can be encoded again.
 */
module RequiredPointers {
  import opened Wire
  import opened Descriptor
  import opened Varint
  import opened Encoding
  import opened Decoding
  import opened DecodedMessages
  import opened Merging
  import opened RequiredFields
  import opened UnknownFields

  // ----- what the encoder needs -----

  /** No required pointer is NULL in any part that is written. */
  predicate Complete(T: Table, d: nat, ss: seq<Slot>)
    decreases ss, 2
  {
    forall i :: 0 <= i < |ss| && i < |At(T, d)| ==> CompleteSlot(T, d, At(T, d)[i], ss[i])
  }

  predicate CompleteSlot(T: Table, d: nat, f: Field, s: Slot)
    decreases s, 1
  {
    match s
    case One(v) => LeftOut(T, d, f, s) || CompleteValue(T, f, v)
    case Opt(has, v) => has ==> CompleteValue(T, f, v)
    case Many(items) => forall i :: 0 <= i < |items| ==> CompleteValue(T, f, items[i])
    case Ptr(p) => match p { case None => !f.htype.Required? case Some(v) => CompleteValue(T, f, v) }
  }

  predicate CompleteValue(T: Table, f: Field, v: Value)
    decreases v, 0
  {
    f.ltype.LSubmsg? && v.Msg? ==> Complete(T, f.sub, v.slots)
  }

  lemma {:induction false} CompleteConforms(T: Table, d: nat, ss: seq<Slot>)
    requires TableOk(T) && Conforms(T, d, ss, true) && Complete(T, d, ss)
    ensures Conforms(T, d, ss, false)
    decreases ss, 2
  {
    forall i | 0 <= i < |ss| ensures ConformsSlot(T, d, At(T, d)[i], ss[i], false) {
      CompleteSlotConforms(T, d, At(T, d)[i], ss[i]);
    }
  }

  lemma {:induction false} CompleteSlotConforms(T: Table, d: nat, f: Field, s: Slot)
    requires TableOk(T) && ConformsSlot(T, d, f, s, true) && CompleteSlot(T, d, f, s)
    ensures ConformsSlot(T, d, f, s, false)
    decreases s, 1
  {
    match s
    case One(v) => if !LeftOut(T, d, f, s) { CompleteValueConforms(T, f, v); }
    case Opt(has, v) => if has { CompleteValueConforms(T, f, v); }
    case Ptr(p) => if p.Some? { CompleteValueConforms(T, f, p.value); }
    case Many(items) =>
      forall k | 0 <= k < |items| ensures ConformsValue(T, f, items[k], false) {
        CompleteValueConforms(T, f, items[k]);
      }
  }

  lemma {:induction false} CompleteValueConforms(T: Table, f: Field, v: Value)
    requires TableOk(T) && ConformsValue(T, f, v, true) && CompleteValue(T, f, v)
    ensures ConformsValue(T, f, v, false)
    decreases v, 0
  {
    if f.ltype.LSubmsg? { CompleteConforms(T, f.sub, v.slots); }
  }

  /** A structure with a wire form lacks no required pointer. */
  lemma {:induction false} EncodedIsComplete(T: Table, d: nat, ss: seq<Slot>)
    requires Encode(T, d, ss).Some?
    ensures Complete(T, d, ss)
    decreases ss, 2
  {
    forall i | 0 <= i < |ss| && i < |At(T, d)| ensures CompleteSlot(T, d, At(T, d)[i], ss[i]) {
      SlotIsPart(T, d, ss, 0, i);
      EncodedSlotIsComplete(T, d, At(T, d)[i], ss[i]);
    }
  }

  lemma {:induction false} EncodedSlotIsComplete(T: Table, d: nat, f: Field, s: Slot)
    requires SlotForm(T, d, f, s).Some?
    ensures CompleteSlot(T, d, f, s)
    decreases s, 1
  {
    match s
    case One(v) => if !LeftOut(T, d, f, s) { EncodedValueIsComplete(T, f, v); }
    case Opt(has, v) => if has { EncodedValueIsComplete(T, f, v); }
    case Ptr(p) => if p.Some? { EncodedValueIsComplete(T, f, p.value); }
    case Many(items) =>
      forall k | 0 <= k < |items| ensures CompleteValue(T, f, items[k]) {
        if !Packable(f.ltype) {
          RecordIsPart(T, f, items, k);
          EncodedValueIsComplete(T, f, items[k]);
        }
      }
  }

  lemma {:induction false} EncodedValueIsComplete(T: Table, f: Field, v: Value)
    requires Record(T, f, v).Some?
    ensures CompleteValue(T, f, v)
    decreases v, 0
  {
    if f.ltype.LSubmsg? { EncodedIsComplete(T, f.sub, v.slots); }
  }

  /**
    A structure as the decoder leaves it can be encoded exactly if no required
    pointer of a part that is written is NULL.
   */
  lemma StoredIsEncodable(T: Table, d: nat, ss: seq<Slot>)
    requires TableOk(T) && Conforms(T, d, ss, true)
    ensures Encode(T, d, ss).Some? <==> Complete(T, d, ss)
    ensures Conforms(T, d, ss, false) <==> Complete(T, d, ss)
  {
    if Complete(T, d, ss) { CompleteConforms(T, d, ss); }
    if Conforms(T, d, ss, false) { EncodeFromExists(T, d, ss, 0); }
    if Encode(T, d, ss).Some? { EncodedIsComplete(T, d, ss); }
  }

  // ----- decoding into a fuller structure -----

  /** Structure a has no more array entries than b, where b can be decoded into. */
  ghost predicate Lighter(T: Table, d: nat, a: seq<Slot>, b: seq<Slot>)
    decreases b, 2
  {
    |a| == |b| == |At(T, d)| && forall i :: 0 <= i < |b| ==> LighterSlot(T, At(T, d)[i], a[i], b[i])
  }

  ghost predicate LighterSlot(T: Table, f: Field, a: Slot, b: Slot)
    decreases b, 1
  {
    match b
    case One(v) => a.One? && LighterValue(T, f, a.v, v)
    case Opt(_, v) => a.Opt? && LighterValue(T, f, a.v, v)
    case Many(items) => a.Many? && |a.items| <= |items|
    case Ptr(_) => a.Ptr?
  }

  ghost predicate LighterValue(T: Table, f: Field, a: Value, b: Value)
    decreases b, 0
  {
    f.ltype.LSubmsg? && b.Msg? ==> a.Msg? && Lighter(T, f.sub, a.slots, b.slots)
  }

  /** Nothing is lighter than the initial structure. */
  lemma {:induction false} InitIsLighter(T: Table, d: nat, ss: seq<Slot>)
    requires TableOk(T) && Conforms(T, d, ss, true)
    ensures Lighter(T, d, InitMsg(T, d), ss)
    decreases ss, 1
  {
    forall i | 0 <= i < |ss| ensures LighterSlot(T, At(T, d)[i], InitMsg(T, d)[i], ss[i]) {
      FieldOkAt(T, d, i);
      InitSlotIsLighter(T, d, At(T, d)[i], ss[i]);
    }
  }

  lemma {:induction false} InitSlotIsLighter(T: Table, d: nat, f: Field, s: Slot)
    requires TableOk(T) && FieldOk(T, d, f) && ConformsSlot(T, d, f, s, true)
    ensures LighterSlot(T, f, InitSlot(T, d, f), s)
    decreases s, 0
  {
    if (s.One? || s.Opt?) && f.ltype.LSubmsg? { InitIsLighter(T, f.sub, s.v.slots); }
  }

  lemma {:induction false} ReadPackedLighter(f: Field, frame: seq<byte>, a: seq<Value>, b: seq<Value>)
    requires |a| <= |b| && ReadPacked(f, frame, b).Some?
    ensures ReadPacked(f, frame, a).Some? && |ReadPacked(f, frame, a).value| <= |ReadPacked(f, frame, b).value|
    decreases |frame|
  {
    if frame == [] {
    } else {
      var p := ReadNum(f, WT_PACKED, frame);
      ReadPackedLighter(f, p.rest, a + [Num(p.value)], b + [Num(p.value)]);
    }
  }

  lemma {:induction false} ReadValueLighter(T: Table, f: Field, wt: nat, bs: seq<byte>, a: Value, b: Value)
    requires LighterValue(T, f, a, b) && ReadValue(T, f, wt, bs, b).Ok?
    ensures ReadValue(T, f, wt, bs, a).Ok? && ReadValue(T, f, wt, bs, a).rest == ReadValue(T, f, wt, bs, b).rest
    ensures LighterValue(T, f, ReadValue(T, f, wt, bs, a).value, ReadValue(T, f, wt, bs, b).value)
    decreases |bs|, 0
  {
    if f.ltype.LSubmsg? { LoopLighter(T, f.sub, ReadFrame(bs).value, a.slots, b.slots, {}); }
  }

  lemma {:induction false} ReadSlotLighter(T: Table, f: Field, wt: nat, bs: seq<byte>, a: Slot, b: Slot)
    requires LighterSlot(T, f, a, b) && ReadSlot(T, f, wt, bs, b).Ok?
    ensures ReadSlot(T, f, wt, bs, a).Ok? && ReadSlot(T, f, wt, bs, a).rest == ReadSlot(T, f, wt, bs, b).rest
    ensures LighterSlot(T, f, ReadSlot(T, f, wt, bs, a).value, ReadSlot(T, f, wt, bs, b).value)
    decreases |bs|, 1
  {
    match b
    case One(v) => ReadValueLighter(T, f, wt, bs, a.v, v);
    case Opt(_, v) => ReadValueLighter(T, f, wt, bs, a.v, v);
    case Ptr(_) =>
    case Many(items) =>
      if wt == WT_STRING && Packable(f.ltype) { ReadPackedLighter(f, ReadFrame(bs).value, a.items, items); }
  }

  /** What is decoded into a structure can be decoded into a lighter one. */
  lemma {:induction false} LoopLighter(T: Table, d: nat, bs: seq<byte>, a: seq<Slot>, b: seq<Slot>, seen: set<nat>)
    requires Lighter(T, d, a, b) && Loop(T, d, bs, b, seen).Done?
    ensures Loop(T, d, bs, a, seen).Done? && Loop(T, d, bs, a, seen).seen == Loop(T, d, bs, b, seen).seen
    ensures Lighter(T, d, Loop(T, d, bs, a, seen).slots, Loop(T, d, bs, b, seen).slots)
    decreases |bs|, 2
  {
    if bs == [] {
    } else {
      var (tag, wt) := ReadTag(bs).value;
      var r, i := ReadTag(bs).rest, Find(At(T, d), tag);
      if i < |At(T, d)| {
        ReadSlotLighter(T, At(T, d)[i], wt, r, a[i], b[i]);
        var p, q := ReadSlot(T, At(T, d)[i], wt, r, a[i]), ReadSlot(T, At(T, d)[i], wt, r, b[i]);
        assert Lighter(T, d, a[i := p.value], b[i := q.value]);
        LoopLighter(T, d, q.rest, a[i := p.value], b[i := q.value], Mark(At(T, d), i, seen));
      } else {
        LoopLighter(T, d, SkipValue(wt, r).rest, a, b, seen);
      }
    }
  }

  ghost predicate Accepts(T: Table, d: nat) {
    exists bs :: Decode(T, d, bs).Some?
  }

  /** A frame that is accepted for some structure is a message of its own. */
  lemma AcceptedAlone(T: Table, d: nat, bs: seq<byte>, ss: seq<Slot>)
    requires TableOk(T) && Conforms(T, d, ss, true) && DecodeInto(T, d, bs, ss).Some?
    ensures Decode(T, d, bs).Some? && Accepts(T, d)
  {
    InitIsLighter(T, d, ss);
    LoopLighter(T, d, bs, InitMsg(T, d), ss, {});
  }

  // ----- what the decoder guarantees -----

  /** The ranks that pb_decode_inner tracks. */
  const TRACKED: set<nat> := set r | 0 <= r < MAX_REQUIRED

  predicate Occurred(fields: seq<Field>, i: nat, seen: set<nat>)
    requires i < |fields|
  {
    fields[i].htype.Required? && Rank(fields, i) in seen
  }

  /**
    Where something was decoded, the required fields whose ranks were seen
    have occurred: a pointer among them is not NULL, a member among them has
    been decoded into. Inside submessages these are all the tracked ones.
   */
  ghost predicate Settled(T: Table, d: nat, ss: seq<Slot>, seen: set<nat>)
    decreases ss, 2
  {
    forall i :: 0 <= i < |ss| && i < |At(T, d)| ==>
      SettledSlot(T, d, At(T, d)[i], ss[i], Occurred(At(T, d), i, seen))
  }

  ghost predicate SettledSlot(T: Table, d: nat, f: Field, s: Slot, occurred: bool)
    decreases s, 1
  {
    match s
    case One(v) => SettledValue(T, f, v) || (!occurred && v == InitValue(T, d, f))
    case Opt(has, v) => if has then SettledValue(T, f, v) else v == InitValue(T, d, f)
    case Many(items) => forall i :: 0 <= i < |items| ==> SettledValue(T, f, items[i])
    case Ptr(p) => match p { case None => !occurred case Some(v) => SettledValue(T, f, v) }
  }

  ghost predicate SettledValue(T: Table, f: Field, v: Value)
    decreases v, 0
  {
    f.ltype.LSubmsg? && v.Msg? ==> Settled(T, f.sub, v.slots, TRACKED) && Accepts(T, f.sub)
  }

  /** The initial structure: nothing has occurred yet. */
  lemma InitSettles(T: Table, d: nat)
    ensures Settled(T, d, InitMsg(T, d), {})
  {
    forall i | 0 <= i < |At(T, d)| ensures SettledSlot(T, d, At(T, d)[i], InitMsg(T, d)[i], false) {
      assert InitMsg(T, d)[i] == InitSlot(T, d, At(T, d)[i]);
    }
  }

  lemma SettledAnyway(T: Table, d: nat, ss: seq<Slot>, seen: set<nat>)
    requires Settled(T, d, ss, seen)
    ensures Settled(T, d, ss, {})
  {
    forall i | 0 <= i < |ss| && i < |At(T, d)| ensures SettledSlot(T, d, At(T, d)[i], ss[i], false) {
      assert SettledSlot(T, d, At(T, d)[i], ss[i], Occurred(At(T, d), i, seen));
    }
  }

  /** What a member starts from when it is decoded into. */
  lemma StartSettles(T: Table, d: nat, f: Field, v: Value)
    requires f.ltype.LSubmsg? && v.Msg? && (SettledValue(T, f, v) || v == InitValue(T, d, f))
    ensures Settled(T, f.sub, v.slots, {})
  {
    if SettledValue(T, f, v) { SettledAnyway(T, f.sub, v.slots, TRACKED); } else { InitSettles(T, f.sub); }
  }

  /** The final check turns the ranks that were seen into all that are tracked. */
  lemma AllSeenSettles(T: Table, d: nat, ss: seq<Slot>, seen: set<nat>)
    requires Settled(T, d, ss, seen) && AllSeen(At(T, d), seen)
    ensures Settled(T, d, ss, TRACKED)
  {
    var fields := At(T, d);
    forall i | 0 <= i < |ss| && i < |fields| ensures SettledSlot(T, d, fields[i], ss[i], Occurred(fields, i, TRACKED)) {
      assert SettledSlot(T, d, fields[i], ss[i], Occurred(fields, i, seen));
      if fields[i].htype.Required? { RankIsUnique(fields, i, i, Rank(fields, i)); }
    }
  }

  lemma {:induction false} ReadValueSettles(T: Table, f: Field, wt: nat, bs: seq<byte>, start: Value)
    requires TableOk(T) && ReadValue(T, f, wt, bs, start).Ok?
    requires f.ltype.LSubmsg? ==> ConformsValue(T, f, start, true) && Settled(T, f.sub, start.slots, {})
    ensures SettledValue(T, f, ReadValue(T, f, wt, bs, start).value)
    decreases |bs|, 0
  {
    if f.ltype.LSubmsg? {
      var frame := ReadFrame(bs).value;
      LoopSettles(T, f.sub, frame, start.slots, {});
      var end := Loop(T, f.sub, frame, start.slots, {});
      AllSeenSettles(T, f.sub, end.slots, end.seen);
      AcceptedAlone(T, f.sub, frame, start.slots);
    }
  }

  lemma {:induction false} ReadSlotSettles(T: Table, d: nat, f: Field, wt: nat, bs: seq<byte>, s: Slot, occurred: bool)
    requires TableOk(T) && FieldOk(T, d, f) && ConformsSlot(T, d, f, s, true)
    requires SettledSlot(T, d, f, s, occurred) && ReadSlot(T, f, wt, bs, s).Ok?
    ensures SettledSlot(T, d, f, ReadSlot(T, f, wt, bs, s).value, true)
    decreases |bs|, 1
  {
    if f.ltype.LSubmsg? {
      InitSettles(T, f.sub);
      FreshConforms(T, f);
      if (s.One? || s.Opt?) && s.v.Msg? { StartSettles(T, d, f, s.v); }
    }
    match s
    case One(v) => ReadValueSettles(T, f, wt, bs, v);
    case Opt(_, v) => ReadValueSettles(T, f, wt, bs, v);
    case Ptr(_) => ReadValueSettles(T, f, wt, bs, Fresh(T, f));
    case Many(items) =>
      if ReadValue(T, f, wt, bs, Fresh(T, f)).Ok? { ReadValueSettles(T, f, wt, bs, Fresh(T, f)); }
  }

  /** An invariant of the decoder loop, over every byte string. */
  lemma {:induction false} LoopSettles(T: Table, d: nat, bs: seq<byte>, ss: seq<Slot>, seen: set<nat>)
    requires TableOk(T) && Conforms(T, d, ss, true)
    requires Settled(T, d, ss, seen) && Loop(T, d, bs, ss, seen).Done?
    ensures Settled(T, d, Loop(T, d, bs, ss, seen).slots, Loop(T, d, bs, ss, seen).seen)
    decreases |bs|, 2
  {
    if bs == [] {
    } else {
      var (tag, wt) := ReadTag(bs).value;
      var r, i := ReadTag(bs).rest, Find(At(T, d), tag);
      if i < |At(T, d)| {
        var f, p := At(T, d)[i], ReadSlot(T, At(T, d)[i], wt, r, ss[i]);
        FieldOkAt(T, d, i);
        ReadSlotConforms(T, d, f, wt, r, ss[i]);
        assert Conforms(T, d, ss[i := p.value], true);
        ReadSlotSettles(T, d, f, wt, r, ss[i], Occurred(At(T, d), i, seen));
        MarkSettles(T, d, ss, i, p.value, seen);
        LoopSettles(T, d, p.rest, ss[i := p.value], Mark(At(T, d), i, seen));
      } else {
        LoopSettles(T, d, SkipValue(wt, r).rest, ss, seen);
      }
    }
  }

  lemma MarkSettles(T: Table, d: nat, ss: seq<Slot>, i: nat, s: Slot, seen: set<nat>)
    requires Settled(T, d, ss, seen) && i < |ss| && i < |At(T, d)| && SettledSlot(T, d, At(T, d)[i], s, true)
    ensures Settled(T, d, ss[i := s], Mark(At(T, d), i, seen))
  {
    var fields, ss', seen' := At(T, d), ss[i := s], Mark(At(T, d), i, seen);
    forall k | 0 <= k < |ss'| && k < |fields| ensures SettledSlot(T, d, fields[k], ss'[k], Occurred(fields, k, seen')) {
      if k != i {
        assert SettledSlot(T, d, fields[k], ss[k], Occurred(fields, k, seen));
        if Occurred(fields, k, seen') && Rank(fields, k) !in seen { RankIsUnique(fields, i, k, Rank(fields, i)); }
      }
    }
  }

  /**
    After every successful decode, at every depth where something was decoded,
    each of the first 64 required fields has occurred: none of the pointers
    among them is NULL.
   */
  lemma DecodeSettles(T: Table, d: nat, bs: seq<byte>)
    requires TableOk(T) && Decode(T, d, bs).Some?
    ensures Settled(T, d, Decode(T, d, bs).value, TRACKED)
  {
    InitSettles(T, d);
    InitConforms(T, d);
    LoopSettles(T, d, bs, InitMsg(T, d), {});
    var end := Loop(T, d, bs, InitMsg(T, d), {});
    AllSeenSettles(T, d, end.slots, end.seen);
  }

  // ----- tables whose messages can always be encoded again -----

  /** A field that a successful decode may leave as it was initialised. */
  predicate MayBeMissing(fields: seq<Field>, i: nat)
    requires i < |fields|
  {
    !Occurred(fields, i, TRACKED)
  }

  /**
    Every field that may be missing can be written the way it is initialised:
    it is no required pointer, and no submessage that is written although it
    never arrived and has a required pointer in it.
   */
  predicate Reencodable(T: Table) {
    forall d, i :: 0 <= d < |T| && 0 <= i < |At(T, d)| ==> FieldReencodable(T, d, i)
  }

  predicate FieldReencodable(T: Table, d: nat, i: nat)
    requires i < |At(T, d)|
  {
    MayBeMissing(At(T, d), i) ==> CompleteSlot(T, d, At(T, d)[i], InitSlot(T, d, At(T, d)[i]))
  }

  /** The same for the descriptors that accept anything: no others take part in a decode. */
  ghost predicate AcceptedReencodable(T: Table) {
    forall d, i :: 0 <= d < |T| && 0 <= i < |At(T, d)| && Accepts(T, d) ==> FieldReencodable(T, d, i)
  }

  lemma {:induction false} SettledIsComplete(T: Table, d: nat, ss: seq<Slot>)
    requires AcceptedReencodable(T) && Accepts(T, d) && Conforms(T, d, ss, true) && Settled(T, d, ss, TRACKED)
    ensures Complete(T, d, ss)
    decreases ss, 2
  {
    forall i | 0 <= i < |ss| ensures CompleteSlot(T, d, At(T, d)[i], ss[i]) {
      assert FieldReencodable(T, d, i);
      SettledSlotIsComplete(T, d, i, ss[i]);
    }
  }

  lemma {:induction false} SettledSlotIsComplete(T: Table, d: nat, i: nat, s: Slot)
    requires AcceptedReencodable(T) && i < |At(T, d)| && FieldReencodable(T, d, i)
    requires ConformsSlot(T, d, At(T, d)[i], s, true)
    requires SettledSlot(T, d, At(T, d)[i], s, Occurred(At(T, d), i, TRACKED))
    ensures CompleteSlot(T, d, At(T, d)[i], s)
    decreases s, 1
  {
    var f := At(T, d)[i];
    match s
    case One(v) =>
      if SettledValue(T, f, v) { SettledValueIsComplete(T, f, v); } else { assert s == InitSlot(T, d, f); }
    case Opt(has, v) => if has { SettledValueIsComplete(T, f, v); }
    case Ptr(p) => if p.Some? { SettledValueIsComplete(T, f, p.value); } else { assert !f.htype.Required?; }
    case Many(items) =>
      forall k | 0 <= k < |items| ensures CompleteValue(T, f, items[k]) { SettledValueIsComplete(T, f, items[k]); }
  }

  lemma {:induction false} SettledValueIsComplete(T: Table, f: Field, v: Value)
    requires AcceptedReencodable(T) && ConformsValue(T, f, v, true) && SettledValue(T, f, v)
    ensures CompleteValue(T, f, v)
    decreases v, 0
  {
    if f.ltype.LSubmsg? { SettledIsComplete(T, f.sub, v.slots); }
  }

  // ----- and no others -----

  /** A frame without the fields that have the tag of field i. */
  lemma {:induction false} DropField(
    T: Table, d: nat, i: nat, bs: seq<byte>, ss: seq<Slot>, seen: set<nat>, s: Slot) returns (kept: seq<byte>)
    requires TableOk(T) && i < |At(T, d)| == |ss| && MayBeMissing(At(T, d), i)
    requires Loop(T, d, bs, ss, seen).Done?
    ensures |Loop(T, d, bs, ss, seen).slots| == |ss|
    ensures var end := Loop(T, d, bs, ss, seen);
            Loop(T, d, kept, ss[i := s], seen) == Done(end.slots[i := s], end.seen)
    decreases |bs|
  {
    if bs == [] {
      kept := [];
    } else {
      var (tag, wt) := ReadTag(bs).value;
      var r, j := ReadTag(bs).rest, Find(At(T, d), tag);
      if j < |At(T, d)| {
        var p := ReadSlot(T, At(T, d)[j], wt, r, ss[j]);
        ReadSlotSkips(T, At(T, d)[j], wt, r, ss[j]);
        kept := DropField(T, d, i, p.rest, ss[j := p.value], Mark(At(T, d), j, seen), s);
        if j == i {
          assert ss[i := p.value][i := s] == ss[i := s];
        } else {
          var first := FirstField(bs);
          assert ss[j := p.value][i := s] == ss[i := s][j := p.value];
          KeepField(T, d, first, bs, ss[i := s], seen, kept);
          kept := first + kept;
        }
      } else {
        var next := SkipValue(wt, r).rest;
        kept := DropField(T, d, i, next, ss, seen, s);
        var first := FirstField(bs);
        KeepField(T, d, first, bs, ss[i := s], seen, kept);
        kept := first + kept;
      }
    }
  }

  /** The first field of a frame does the same in front of other fields. */
  lemma KeepField(T: Table, d: nat, first: seq<byte>, bs: seq<byte>, ss: seq<Slot>, seen: set<nat>, kept: seq<byte>)
    requires IsFirst(first, bs) && ReadTag(bs).value.0 != 0
    ensures var (tag, wt) := ReadTag(bs).value;
            var i := Find(At(T, d), tag);
            Loop(T, d, first + kept, ss, seen)
            == if i < |At(T, d)| then
                 if i >= |ss| then Stop
                 else
                   match ReadSlot(T, At(T, d)[i], wt, ReadTag(bs).rest, ss[i])
                   case Fail => Stop
                   case Ok(s, _) => Loop(T, d, kept, ss[i := s], Mark(At(T, d), i, seen))
               else Loop(T, d, kept, ss, seen)
  {
    var (tag, wt) := ReadTag(bs).value;
    var payload, i := ReadTag(first).rest, Find(At(T, d), tag);
    var left := SkipValue(wt, ReadTag(bs).rest).rest;
    LoopOfRecords(T, d, first, kept, ss, seen);
    assert first != [];
    assert Loop(T, d, first, ss, seen) == Step(T, d, tag, wt, payload, ss, seen);
    if i < |At(T, d)| && i < |ss| {
      var p := ReadSlot(T, At(T, d)[i], wt, payload, ss[i]);
      ReadSlotLocal(T, At(T, d)[i], wt, payload, ss[i], left);
      assert ReadSlot(T, At(T, d)[i], wt, ReadTag(bs).rest, ss[i]) == p.Then(left);
      if p.Ok? {
        var seen' := Mark(At(T, d), i, seen);
        assert Loop(T, d, p.rest, ss[i := p.value], seen') == Done(ss[i := p.value], seen');
      }
    } else {
      assert Loop(T, d, [], ss, seen) == Done(ss, seen);
    }
  }

  lemma Incomplete(T: Table, d: nat, ss: seq<Slot>, i: nat)
    requires i < |ss| && i < |At(T, d)| && !CompleteSlot(T, d, At(T, d)[i], ss[i])
    ensures Encode(T, d, ss).None?
  {
    if Encode(T, d, ss).Some? { EncodedIsComplete(T, d, ss); }
  }

  /** A field that may be missing and cannot be written when it is: some accepted input shows it. */
  lemma MissingIsAccepted(T: Table, d: nat, i: nat, bs: seq<byte>) returns (kept: seq<byte>)
    requires TableOk(T) && i < |At(T, d)| && !FieldReencodable(T, d, i) && Decode(T, d, bs).Some?
    ensures Decode(T, d, kept).Some? && Encode(T, d, Decode(T, d, kept).value).None?
  {
    var ss := InitMsg(T, d);
    kept := DropField(T, d, i, bs, ss, {}, ss[i]);
    assert ss[i := ss[i]] == ss && ss[i] == InitSlot(T, d, At(T, d)[i]);
    Incomplete(T, d, Decode(T, d, kept).value, i);
  }

  /** Everything that is decoded with the table can be encoded again. */
  ghost predicate Reencodes(T: Table) {
    forall d: nat, bs :: d < |T| && Decode(T, d, bs).Some? ==> Encode(T, d, Decode(T, d, bs).value).Some?
  }

  lemma DecodedIsEncodable(T: Table, d: nat, bs: seq<byte>)
    requires TableOk(T) && AcceptedReencodable(T) && Decode(T, d, bs).Some?
    ensures Encode(T, d, Decode(T, d, bs).value).Some?
  {
    DecodeConforms(T, d, bs);
    DecodeSettles(T, d, bs);
    assert Accepts(T, d);
    SettledIsComplete(T, d, Decode(T, d, bs).value);
    StoredIsEncodable(T, d, Decode(T, d, bs).value);
  }

  /** The condition on the table is exact. */
  lemma ReencodesIff(T: Table)
    requires TableOk(T)
    ensures Reencodes(T) <==> AcceptedReencodable(T)
  {
    if AcceptedReencodable(T) {
      forall d: nat, bs | d < |T| && Decode(T, d, bs).Some? ensures Encode(T, d, Decode(T, d, bs).value).Some? {
        DecodedIsEncodable(T, d, bs);
      }
    }
    if Reencodes(T) {
      forall d, i | 0 <= d < |T| && 0 <= i < |At(T, d)| && Accepts(T, d) ensures FieldReencodable(T, d, i) {
        var bs :| Decode(T, d, bs).Some?;
        if !FieldReencodable(T, d, i) { var kept := MissingIsAccepted(T, d, i, bs); }
      }
    }
  }

  /** Where every descriptor accepts something, the condition that can be evaluated is the exact one. */
  lemma ReencodableIsExact(T: Table)
    requires TableOk(T) && forall d :: 0 <= d < |T| ==> Accepts(T, d)
    ensures Reencodes(T) <==> Reencodable(T)
  {
    ReencodesIff(T);
    if AcceptedReencodable(T) {
      forall d, i | 0 <= d < |T| && 0 <= i < |At(T, d)| ensures FieldReencodable(T, d, i) { assert Accepts(T, d); }
    }
  }

  // ----- the two ways to fail -----

  /** A required string behind a pointer, with tag k + 1. */
  function WideField(k: nat): Field {
    Field(k + 1, LString, Required, Pointer, 8, 1, 8 * k, 0, 2, 0, None)
  }

  /** One more required pointer than the decoder tracks. */
  function Wide(): Table {
    [Desc(seq(MAX_REQUIRED + 1, k requires 0 <= k <= MAX_REQUIRED => WideField(k)))]
  }

  lemma WideIsOk()
    ensures TableOk(Wide())
  {
    forall d | 0 <= d < |Wide()| ensures DescOk(Wide(), d) {
      forall i | 0 <= i < |At(Wide(), d)| ensures EntryOk(Wide(), d, i) { assert At(Wide(), d)[i] == WideField(i); }
      forall i, j | 0 <= i < j < |At(Wide(), d)| ensures Precedes(At(Wide(), d), i, j) { }
    }
  }

  lemma {:induction false} WideRank(k: nat)
    requires k <= MAX_REQUIRED + 1
    ensures Rank(At(Wide(), 0), k) == k
  {
    if k == 0 {
    } else {
      WideRank(k - 1);
      assert At(Wide(), 0)[k - 1] == WideField(k - 1);
    }
  }

  /** Empty strings for the fields from number k on, the last one missing. */
  function Strings(k: nat): seq<byte>
    decreases MAX_REQUIRED - k
  {
    if k >= MAX_REQUIRED then [] else Tag(WideField(k), WT_STRING) + [0] + Strings(k + 1)
  }

  /** One of the strings arrives. */
  lemma WideStep(k: nat, ss: seq<Slot>, seen: set<nat>)
    requires k < MAX_REQUIRED && |ss| == MAX_REQUIRED + 1 && ss[k].Ptr?
    ensures |At(Wide(), 0)| == MAX_REQUIRED + 1
    ensures Loop(Wide(), 0, Strings(k), ss, seen)
         == Loop(Wide(), 0, Strings(k + 1), ss[k := Ptr(Some(Blob([])))], Mark(At(Wide(), 0), k, seen))
  {
    var f, more := WideField(k), Strings(k + 1);
    WideIsOk();
    assert At(Wide(), 0)[k] == f;
    LoopOfRecord(Wide(), 0, k, f, ss, WT_STRING, [0], more, seen);
    EmptyString(f, ss[k].p, more);
  }

  lemma WideMark(k: nat, seen: set<nat>)
    requires k < MAX_REQUIRED
    ensures |At(Wide(), 0)| == MAX_REQUIRED + 1 && Mark(At(Wide(), 0), k, seen) == seen + {k}
  {
    WideRank(k);
    assert At(Wide(), 0)[k] == WideField(k);
  }

  /** The first k ranks have been seen and the last pointer is still NULL. */
  ghost predicate Halfway(k: nat, ss: seq<Slot>, seen: set<nat>) {
    && |ss| == MAX_REQUIRED + 1 && (forall i :: 0 <= i < |ss| ==> ss[i].Ptr?) && ss[MAX_REQUIRED] == Ptr(None)
    && forall r :: 0 <= r < k ==> r in seen
  }

  lemma HalfwayOn(k: nat, ss: seq<Slot>, seen: set<nat>)
    requires k < MAX_REQUIRED && Halfway(k, ss, seen)
    ensures ss[k].Ptr? && Halfway(k + 1, ss[k := Ptr(Some(Blob([])))], seen + {k})
  {
  }

  lemma {:induction false} WideLoop(k: nat, ss: seq<Slot>, seen: set<nat>)
    requires k <= MAX_REQUIRED && Halfway(k, ss, seen)
    ensures var end := Loop(Wide(), 0, Strings(k), ss, seen);
            end.Done? && Halfway(MAX_REQUIRED, end.slots, end.seen)
    decreases MAX_REQUIRED - k
  {
    if k == MAX_REQUIRED {
    } else {
      HalfwayOn(k, ss, seen);
      WideStep(k, ss, seen);
      WideMark(k, seen);
      WideLoop(k + 1, ss[k := Ptr(Some(Blob([])))], seen + {k});
    }
  }

  lemma EmptyString(f: Field, p: Option<Value>, more: seq<byte>)
    requires f.ltype.LString? && f.atype.Pointer?
    ensures ReadSlot(Wide(), f, WT_STRING, [0] + more, Ptr(p)) == Ok(Ptr(Some(Blob([]))), more)
  {
    assert Shortest(0) == [0];
    RoundTrip32(0, more);
    assert more[..0] == [] && more[0..] == more;
  }

  /** 64 strings are enough for a message that must have 65, and then it cannot be encoded. */
  lemma SixtyFifthIsLost()
    ensures Decode(Wide(), 0, Strings(0)).Some?
    ensures Encode(Wide(), 0, Decode(Wide(), 0, Strings(0)).value).None?
  {
    WideInit();
    WideLoop(0, InitMsg(Wide(), 0), {});
    LastIsRequired();
    Lost(Wide(), 0, Strings(0), MAX_REQUIRED);
  }

  /** A message with all tracked required fields and without another that is needed. */
  lemma Lost(T: Table, d: nat, bs: seq<byte>, i: nat)
    requires i < |At(T, d)| && Loop(T, d, bs, InitMsg(T, d), {}).Done?
    requires var end := Loop(T, d, bs, InitMsg(T, d), {});
             && (forall r :: 0 <= r < MAX_REQUIRED ==> r in end.seen)
             && i < |end.slots| && !CompleteSlot(T, d, At(T, d)[i], end.slots[i])
    ensures Decode(T, d, bs).Some? && Encode(T, d, Decode(T, d, bs).value).None?
  {
    assert AllSeen(At(T, d), Loop(T, d, bs, InitMsg(T, d), {}).seen);
    Incomplete(T, d, Decode(T, d, bs).value, i);
  }

  lemma WideInit()
    ensures |InitMsg(Wide(), 0)| == MAX_REQUIRED + 1
    ensures forall i :: 0 <= i <= MAX_REQUIRED ==> InitMsg(Wide(), 0)[i] == Ptr(None)
  {
    forall i | 0 <= i <= MAX_REQUIRED ensures InitMsg(Wide(), 0)[i] == Ptr(None) {
      assert At(Wide(), 0)[i] == WideField(i);
      assert InitMsg(Wide(), 0)[i] == InitSlot(Wide(), 0, WideField(i));
    }
  }

  lemma LastIsRequired()
    ensures |At(Wide(), 0)| == MAX_REQUIRED + 1
    ensures !CompleteSlot(Wide(), 0, At(Wide(), 0)[MAX_REQUIRED], Ptr(None))
  {
    assert At(Wide(), 0)[MAX_REQUIRED] == WideField(MAX_REQUIRED);
  }

  /** A proto2 structure with a required number and a required pointer, inside a proto3 one. */
  function Mixed(): Table {
    [Desc([Field(1, LVarint, Required, Static, 4, 1, 0, 0, 1, 0, None),
           Field(2, LString, Required, Pointer, 8, 1, 8, 0, 1, 0, None)]),
     Desc([Field(1, LSubmsg, Optional, Static, 16, 1, 0, 0, 2, 0, None)])]
  }

  /** The empty input is accepted, and the submessage that never arrived cannot be written. */
  lemma SubmessageIsLost()
    ensures TableOk(Mixed())
    ensures Decode(Mixed(), 1, []) == Some(InitMsg(Mixed(), 1))
    ensures Encode(Mixed(), 1, InitMsg(Mixed(), 1)).None?
  {
    var T := Mixed();
    forall d | 0 <= d < |T| ensures DescOk(T, d) {
      forall i | 0 <= i < |At(T, d)| ensures EntryOk(T, d, i) { }
      forall i, j | 0 <= i < j < |At(T, d)| ensures Precedes(At(T, d), i, j) { }
    }
    assert AllSeen(At(T, 1), {});
    assert InitMsg(T, 1)[0] == One(Msg(InitMsg(T, 0)));
    assert InitMsg(T, 0)[0] == One(Num(0)) && InitMsg(T, 0)[1] == Ptr(None);
    assert !IsDefault(T, 0, At(T, 0)[0], InitMsg(T, 0)[0]);
    assert !CompleteSlot(T, 0, At(T, 0)[1], InitMsg(T, 0)[1]);
    Incomplete(T, 1, InitMsg(T, 1), 0);
  }
}
