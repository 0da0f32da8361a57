/**
  What it means for a field to occur in a frame, not at all, once or several
  times: for arbitrary bytes, not only for those the encoder writes.
 */
module Occurrences {
  import opened Wire
  import opened Descriptor
  import opened Varint
  import opened Encoding
  import opened Decoding
  import opened Merging
  import opened UnknownFields
  import opened WireFormat
  import opened RequiredFields

  // ----- a field that does not occur -----

  /** The storage of a field nothing has been decoded into: absent, or its declared default, or zero. */
  predicate IsInitial(T: Table, f: Field, s: Slot) {
    match s
    case Many(items) => items == []
    case Ptr(p) => p == None
    case Opt(has, v) => !has && IsInitialValue(T, f, v)
    case One(v) => IsInitialValue(T, f, v)
  }

  predicate IsInitialValue(T: Table, f: Field, v: Value) {
    if f.ltype.LSubmsg? then v == Msg(InitMsg(T, f.sub))
    else if f.dflt.Some? then v == f.dflt.value
    else
      match f.ltype
      case LBytes | LString => v == Blob([])
      case LFixedBytes => v.Blob? && |v.bytes| == f.dataSize && forall i :: 0 <= i < f.dataSize ==> v.bytes[i] == 0
      case _ => v == Num(0)
  }

  lemma InitIsInitial(T: Table, d: nat, i: nat)
    requires TableOk(T) && i < |At(T, d)|
    ensures IsInitial(T, At(T, d)[i], InitMsg(T, d)[i]) && Shaped(At(T, d)[i], InitMsg(T, d)[i])
  {
    FieldOkAt(T, d, i);
    var f := At(T, d)[i];
    assert InitMsg(T, d)[i] == InitSlot(T, d, f);
    if f.atype.Static? && !f.htype.Repeated? { InitValueIsInitial(T, d, f); }
  }

  lemma InitValueIsInitial(T: Table, d: nat, f: Field)
    requires FieldOk(T, d, f) && f.atype.Static?
    ensures IsInitialValue(T, f, InitValue(T, d, f))
  {
    if !f.ltype.LSubmsg? && f.dflt.None? { assert InitValue(T, d, f) == ZeroLeaf(f); }
  }

  /** Whether a field is there, where the structure says so. */
  predicate IsPresent(s: Slot) {
    (s.Opt? && s.has) || (s.Ptr? && s.p.Some?)
  }

  lemma ReadSlotIsPresent(T: Table, f: Field, wt: nat, bs: seq<byte>, s: Slot)
    requires ReadSlot(T, f, wt, bs, s).Ok?
    ensures var x := ReadSlot(T, f, wt, bs, s).value;
            (IsPresent(x) <==> s.Opt? || s.Ptr?) && (x.One? <==> s.One?) && (x.Opt? <==> s.Opt?)
            && (x.Ptr? <==> s.Ptr?)
  {
  }

  /** A field is stored exactly if it occurs: otherwise its storage stays as it was. */
  lemma {:induction false} LoopStores(T: Table, d: nat, bs: seq<byte>, ss: seq<Slot>, seen: set<nat>, i: nat)
    requires Sorted(At(T, d)) && i < |At(T, d)| && i < |ss|
    requires Loop(T, d, bs, ss, seen).Done?
    ensures var end := Loop(T, d, bs, ss, seen).slots;
            && |end| == |ss|
            && if Occurs(bs, At(T, d)[i].tag) then IsPresent(end[i]) <==> ss[i].Opt? || ss[i].Ptr?
               else end[i] == ss[i]
    ensures var end := Loop(T, d, bs, ss, seen).slots; (end[i].Opt? <==> ss[i].Opt?) && (end[i].Ptr? <==> ss[i].Ptr?)
    decreases |bs|
  {
    if bs == [] {
    } else {
      var (tag, wt) := ReadTag(bs).value;
      var r, k := ReadTag(bs).rest, Find(At(T, d), tag);
      FindSorted(At(T, d), i);
      if k < |At(T, d)| {
        var p := ReadSlot(T, At(T, d)[k], wt, r, ss[k]);
        ReadSlotSkips(T, At(T, d)[k], wt, r, ss[k]);
        ReadSlotIsPresent(T, At(T, d)[k], wt, r, ss[k]);
        LoopStores(T, d, p.rest, ss[k := p.value], Mark(At(T, d), k, seen), i);
      } else {
        LoopStores(T, d, SkipValue(wt, r).rest, ss, seen, i);
      }
    }
  }

  /**
    In every message that is accepted: a has-flag is set, or a pointer not
    NULL, exactly if the field occurs; and a field that does not occur has its
    declared default, or zero, or is absent.
   */
  lemma PresentIffOccurs(T: Table, d: nat, bs: seq<byte>, i: nat)
    requires TableOk(T) && i < |At(T, d)| && Decode(T, d, bs).Some?
    ensures |Decode(T, d, bs).value| == |At(T, d)|
    ensures var s, occurs := Decode(T, d, bs).value[i], Occurs(bs, At(T, d)[i].tag);
            && (s.Opt? ==> (s.has <==> occurs)) && (s.Ptr? ==> (s.p.Some? <==> occurs))
            && (!occurs ==> IsInitial(T, At(T, d)[i], s))
  {
    SortedAt(T, d);
    InitIsInitial(T, d, i);
    LoopStores(T, d, bs, InitMsg(T, d), {}, i);
  }

  // ----- a field that occurs twice -----

  /** One complete field with the tag of member i. */
  predicate IsFieldOf(fields: seq<Field>, i: nat, bs: seq<byte>) {
    && i < |fields| && ReadTag(bs).Ok? && ReadTag(bs).value.0 == fields[i].tag
    && SkipValue(ReadTag(bs).value.1, ReadTag(bs).rest) == Ok((), [])
  }

  /** Such a field by itself. */
  lemma LoopOfField(T: Table, d: nat, i: nat, bs: seq<byte>, ss: seq<Slot>, seen: set<nat>)
    requires TableOk(T) && IsFieldOf(At(T, d), i, bs) && |ss| == |At(T, d)|
    ensures IsRecords(bs)
    ensures Loop(T, d, bs, ss, seen)
         == match ReadSlot(T, At(T, d)[i], ReadTag(bs).value.1, ReadTag(bs).rest, ss[i])
            { case Fail => Stop
              case Ok(s, _) => Done(ss[i := s], Mark(At(T, d), i, seen)) }
  {
    FieldOkAt(T, d, i);
    FindSorted(At(T, d), i);
    var (tag, wt) := ReadTag(bs).value;
    var r := ReadTag(bs).rest;
    var p := ReadSlot(T, At(T, d)[i], wt, r, ss[i]);
    if p.Ok? { ReadSlotSkips(T, At(T, d)[i], wt, r, ss[i]); }
    assert Loop(T, d, bs, ss, seen) == Step(T, d, tag, wt, r, ss, seen);
    assert Find(At(T, d), tag) == i;
    assert p.Ok? ==> Loop(T, d, p.rest, ss[i := p.value], Mark(At(T, d), i, seen))
                     == Done(ss[i := p.value], Mark(At(T, d), i, seen));
  }

  /** Of two values of a plain, flagged or pointer field the last one counts, submessages in place excepted. */
  lemma LastValueWins(
    T: Table, d: nat, i: nat, a: seq<byte>, b: seq<byte>, more: seq<byte>, ss: seq<Slot>, seen: set<nat>)
    requires TableOk(T) && |ss| == |At(T, d)| && IsFieldOf(At(T, d), i, a) && IsFieldOf(At(T, d), i, b)
    requires !ss[i].Many? && (At(T, d)[i].ltype.LSubmsg? ==> ss[i].Ptr?)
    requires Loop(T, d, a, ss, seen).Done?
    ensures Loop(T, d, a + (b + more), ss, seen) == Loop(T, d, b + more, ss, seen)
  {
    LoopOfField(T, d, i, a, ss, seen);
    LoopOfRecords(T, d, a, b + more, ss, seen);
    var (ss', seen') := (Loop(T, d, a, ss, seen).slots, Loop(T, d, a, ss, seen).seen);
    LoopOfRecordsTwice(T, d, i, b, more, ss, seen, ss'[i]);
    assert ss' == ss[i := ss'[i]];
  }

  lemma LoopOfRecordsTwice(
    T: Table, d: nat, i: nat, b: seq<byte>, more: seq<byte>, ss: seq<Slot>, seen: set<nat>, s: Slot)
    requires TableOk(T) && |ss| == |At(T, d)| && IsFieldOf(At(T, d), i, b)
    requires !ss[i].Many? && (At(T, d)[i].ltype.LSubmsg? ==> ss[i].Ptr?)
    requires (s.One? <==> ss[i].One?) && (s.Opt? <==> ss[i].Opt?) && (s.Ptr? <==> ss[i].Ptr?)
    ensures Loop(T, d, b + more, ss[i := s], Mark(At(T, d), i, seen)) == Loop(T, d, b + more, ss, seen)
  {
    var marked := Mark(At(T, d), i, seen);
    LoopOfField(T, d, i, b, ss, seen);
    LoopOfField(T, d, i, b, ss[i := s], marked);
    LoopOfRecords(T, d, b, more, ss, seen);
    LoopOfRecords(T, d, b, more, ss[i := s], marked);
    var wt, r := ReadTag(b).value.1, ReadTag(b).rest;
    var p := ReadSlot(T, At(T, d)[i], wt, r, ss[i]);
    assert ReadSlot(T, At(T, d)[i], wt, r, s) == p;
    if p.Ok? { assert ss[i := s][i := p.value] == ss[i := p.value]; }
    assert Mark(At(T, d), i, marked) == marked;
  }

  /** What has been seen does not influence what is stored. */
  lemma {:induction false} LoopAfter(T: Table, d: nat, bs: seq<byte>, ss: seq<Slot>, seen: set<nat>, more: set<nat>)
    ensures Loop(T, d, bs, ss, more + seen)
         == match Loop(T, d, bs, ss, seen)
            { case Stop => Stop
              case Done(ss', seen') => Done(ss', more + seen') }
    decreases |bs|
  {
    if bs == [] {
    } else if ReadTag(bs).Ok? {
      var (tag, wt) := ReadTag(bs).value;
      var r, i := ReadTag(bs).rest, Find(At(T, d), tag);
      if tag == 0 {
      } else if i < |At(T, d)| && i < |ss| {
        var p := ReadSlot(T, At(T, d)[i], wt, r, ss[i]);
        if p.Ok? {
          assert Mark(At(T, d), i, more + seen) == more + Mark(At(T, d), i, seen);
          LoopAfter(T, d, p.rest, ss[i := p.value], Mark(At(T, d), i, seen), more);
        }
      } else if i >= |At(T, d)| && SkipValue(wt, r).Ok? {
        LoopAfter(T, d, SkipValue(wt, r).rest, ss, seen, more);
      }
    }
  }

  /** Nothing is accepted but complete fields. */
  lemma {:induction false} AcceptedIsRecords(T: Table, d: nat, bs: seq<byte>, ss: seq<Slot>, seen: set<nat>)
    requires Loop(T, d, bs, ss, seen).Done?
    ensures IsRecords(bs)
    decreases |bs|
  {
    if bs == [] {
    } else {
      var (tag, wt) := ReadTag(bs).value;
      var r, i := ReadTag(bs).rest, Find(At(T, d), tag);
      if i < |At(T, d)| {
        var p := ReadSlot(T, At(T, d)[i], wt, r, ss[i]);
        ReadSlotSkips(T, At(T, d)[i], wt, r, ss[i]);
        AcceptedIsRecords(T, d, p.rest, ss[i := p.value], Mark(At(T, d), i, seen));
      } else {
        AcceptedIsRecords(T, d, SkipValue(wt, r).rest, ss, seen);
      }
    }
  }

  /** Frames decoded one after the other into a structure are decoded like one frame. */
  lemma DecodeIntoTwice(T: Table, d: nat, x: seq<byte>, y: seq<byte>, ss: seq<Slot>)
    requires DecodeInto(T, d, x, ss).Some? && DecodeInto(T, d, y, DecodeInto(T, d, x, ss).value).Some?
    ensures DecodeInto(T, d, x + y, ss) == DecodeInto(T, d, y, DecodeInto(T, d, x, ss).value)
  {
    var first := Loop(T, d, x, ss, {});
    AcceptedIsRecords(T, d, x, ss, {});
    LoopOfRecords(T, d, x, y, ss, {});
    LoopAfter(T, d, y, first.slots, {}, first.seen);
    assert first.seen + {} == first.seen;
  }

  /** A submessage in place may come in pieces: fields of a message and its rest under one tag each. */
  lemma PiecesAreMerged(
    T: Table, d: nat, i: nat, x: seq<byte>, y: seq<byte>, more: seq<byte>, ss: seq<Slot>, seen: set<nat>)
    requires TableOk(T) && i < |At(T, d)| == |ss| && At(T, d)[i].ltype.LSubmsg?
    requires (ss[i].One? || ss[i].Opt?) && ss[i].v.Msg? && |x + y| < 0x1_0000_0000
    requires var first := DecodeInto(T, At(T, d)[i].sub, x, ss[i].v.slots);
             first.Some? && DecodeInto(T, At(T, d)[i].sub, y, first.value).Some?
    ensures var tag := Tag(At(T, d)[i], 2);
            Loop(T, d, tag + Prefixed(x) + (tag + Prefixed(y) + more), ss, seen)
              == Loop(T, d, tag + Prefixed(x + y) + more, ss, seen)
  {
    var f, c := At(T, d)[i], ss[i].v.slots;
    var tag := Tag(f, 2);
    var a := DecodeInto(T, f.sub, x, c).value;
    var b := DecodeInto(T, f.sub, y, a).value;
    DecodeIntoTwice(T, f.sub, x, y, c);
    LoopOfPiece(T, d, i, x, a, tag + Prefixed(y) + more, ss, seen);
    var next := if ss[i].One? then One(Msg(a)) else Opt(true, Msg(a));
    var ss', marked := ss[i := next], Mark(At(T, d), i, seen);
    LoopOfPiece(T, d, i, y, b, more, ss', marked);
    LoopOfPiece(T, d, i, x + y, b, more, ss, seen);
    var last := if ss[i].One? then One(Msg(b)) else Opt(true, Msg(b));
    assert ss'[i := last] == ss[i := last];
    assert Mark(At(T, d), i, marked) == marked;
  }

  /** One piece, decoded into what is there. */
  lemma LoopOfPiece(
    T: Table, d: nat, i: nat, x: seq<byte>, a: seq<Slot>, more: seq<byte>, ss: seq<Slot>, seen: set<nat>)
    requires TableOk(T) && i < |At(T, d)| == |ss| && At(T, d)[i].ltype.LSubmsg?
    requires (ss[i].One? || ss[i].Opt?) && ss[i].v.Msg? && |x| < 0x1_0000_0000
    requires DecodeInto(T, At(T, d)[i].sub, x, ss[i].v.slots) == Some(a)
    ensures Loop(T, d, Tag(At(T, d)[i], 2) + Prefixed(x) + more, ss, seen)
         == Loop(T, d, more, ss[i := if ss[i].One? then One(Msg(a)) else Opt(true, Msg(a))], Mark(At(T, d), i, seen))
  {
    var f := At(T, d)[i];
    LoopOfRecord(T, d, i, f, ss, 2, Prefixed(x), more, seen);
    ReadPrefixed(x, more);
    ReadSubmessage(T, f, Prefixed(x) + more, ss[i].v);
  }

  // ----- packed and unpacked -----

  /** The array with new entries behind the old ones, if it can count them all. */
  function Extended(f: Field, s: Slot, items: seq<Value>): Option<Slot>
    requires s.Many?
  {
    if |s.items| + |items| > (if f.atype.Pointer? then 0xFFFF_FFFF else f.arraySize) then None
    else Some(Many(s.items + items))
  }

  /** One element of an array of numbers, under a tag of its own. */
  lemma LoopOfElement(
    T: Table, d: nat, i: nat, f: Field, ss: seq<Slot>, v: Value, more: seq<byte>, seen: set<nat>)
    requires TableOk(T) && i < |At(T, d)| == |ss| && f == At(T, d)[i] && ss[i].Many?
    requires Packable(f.ltype) && LeafOk(f, v)
    ensures Record(T, f, v).Some?
    ensures Loop(T, d, Record(T, f, v).value + more, ss, seen)
         == ResumeSlot(T, d, i, more, ss, Extended(f, ss[i], [v]), seen)
  {
    FieldOkAt(T, d, i);
    ReadNumOfForm(f, v, WireType(f.ltype), more);
    LoopOfRecord(T, d, i, f, ss, WireType(f.ltype), PackedForm(f, v).value, more, seen);
  }

  /** Entries may be appended one after the other. */
  lemma ExtendedTwice(
    T: Table, d: nat, i: nat, f: Field, ss: seq<Slot>, v: Value, rest: seq<Value>, more: seq<byte>, seen: set<nat>)
    requires i < |At(T, d)| == |ss| && ss[i].Many? && Extended(f, ss[i], [v]).Some?
    ensures var s := Extended(f, ss[i], [v]).value;
            ResumeSlot(T, d, i, more, ss[i := s], Extended(f, s, rest), Mark(At(T, d), i, seen))
              == ResumeSlot(T, d, i, more, ss, Extended(f, ss[i], [v] + rest), seen)
  {
    var s := Extended(f, ss[i], [v]).value;
    StoredTwice(T, d, i, more, ss, s, Extended(f, s, rest), seen);
    assert ss[i].items + [v] + rest == ss[i].items + ([v] + rest);
  }

  lemma RecordsSplit(T: Table, f: Field, items: seq<Value>, more: seq<byte>)
    requires items != [] && Records(T, f, items).Some?
    ensures Record(T, f, items[0]).Some? && Records(T, f, items[1..]).Some?
    ensures Records(T, f, items).value + more == Record(T, f, items[0]).value + (Records(T, f, items[1..]).value + more)
  {
    assert Records(T, f, items) == Cat(Record(T, f, items[0]), Records(T, f, items[1..]));
  }

  /** And all of them. */
  lemma {:induction false} LoopOfUnpacked(
    T: Table, d: nat, i: nat, f: Field, ss: seq<Slot>, items: seq<Value>, more: seq<byte>, seen: set<nat>)
    requires TableOk(T) && i < |At(T, d)| == |ss| && f == At(T, d)[i] && ss[i].Many?
    requires Packable(f.ltype) && items != [] && forall k :: 0 <= k < |items| ==> LeafOk(f, items[k])
    requires Records(T, f, items).Some?
    ensures Loop(T, d, Records(T, f, items).value + more, ss, seen)
         == ResumeSlot(T, d, i, more, ss, Extended(f, ss[i], items), seen)
    decreases |items|
  {
    var v, rest := items[0], items[1..];
    assert items == [v] + rest;
    RecordsSplit(T, f, items, more);
    var es := Records(T, f, rest).value;
    LoopOfElement(T, d, i, f, ss, v, es + more, seen);
    if rest == [] {
      assert es + more == more && items == [v];
    } else if Extended(f, ss[i], [v]).None? {
      assert Extended(f, ss[i], items).None?;
    } else {
      var s := Extended(f, ss[i], [v]).value;
      LoopOfUnpacked(T, d, i, f, ss[i := s], rest, more, Mark(At(T, d), i, seen));
      ExtendedTwice(T, d, i, f, ss, v, rest, more, seen);
    }
  }

  /** Both forms of an array of numbers are decoded alike, whatever is there already. */
  lemma PackedLikeUnpacked(
    T: Table, d: nat, i: nat, f: Field, ss: seq<Slot>, items: seq<Value>, more: seq<byte>, seen: set<nat>)
    requires TableOk(T) && i < |At(T, d)| == |ss| && f == At(T, d)[i] && ss[i].Many?
    requires Packable(f.ltype) && items != [] && forall k :: 0 <= k < |items| ==> LeafOk(f, items[k])
    requires Elements(f, items).Some? ==> |Elements(f, items).value| < 0x1_0000_0000
    ensures Elements(f, items).Some? && Records(T, f, items).Some?
    ensures Loop(T, d, Tag(f, 2) + Prefixed(Elements(f, items).value) + more, ss, seen)
         == Loop(T, d, Records(T, f, items).value + more, ss, seen)
  {
    FieldOkAt(T, d, i);
    ElementsExist(f, items);
    RecordsExist(T, f, items);
    var e := Elements(f, items).value;
    LoopOfUnpacked(T, d, i, f, ss, items, more, seen);
    LoopOfRecord(T, d, i, f, ss, 2, Prefixed(e), more, seen);
    ReadPrefixed(e, more);
    ReadPackedOfElements(f, items, ss[i].items);
  }

  // ----- what is not a field -----

  /** A field number of zero is refused, wherever it occurs. */
  lemma ZeroTagIsRefused(
    T: Table, d: nat, bs: seq<byte>, form: seq<byte>, more: seq<byte>, ss: seq<Slot>, seen: set<nat>)
    requires IsRecords(bs) && IsVarint(form) && NumberOf(form) % 0x1_0000_0000 < 8
    ensures Loop(T, d, bs + (form + more), ss, seen) == Stop
  {
    LoopOfRecords(T, d, bs, form + more, ss, seen);
    TagIsRead(form, more);
    assert form + more != [] by { assert (form + more)[0] == form[0]; }
  }
}
