/**
  pb_decode.c from fields upwards: arrays, submessages, pointers and the
  decoder loop. Every method is proved to compute the decoding function of
  the bytes of its frame, so the theorems about that function hold of it.
  Recursion is bounded by the bytes left in the frame alone, whatever the
  descriptors refer to.
 */
module Decoder {
  import opened Wire
  import opened Descriptor
  import opened Decoding
  import opened DecodedMessages
  import opened InputStream
  import opened FieldIterator
  import opened Packing
  import opened RequiredFields
  import opened RequiredTracking
  import opened LeafDecoder
  import opened Defaults

  /** A submessage starts from what is there only if it was initialised with its parent. */
  function StartOf(T: Table, f: Field, there: Value): Value {
    if f.atype.Static? && !f.htype.Repeated? then there else Fresh(T, f)
  }

  /** pb_dec_submessage */
  method DecSubmessage(T: Table, stream: IStream, f: Field, there: Value) returns (ok: bool, v: Value)
    requires TableOk(T) && stream.Valid() && f.ltype.LSubmsg?
    requires f.atype.Static? && !f.htype.Repeated? ==> ConformsValue(T, f, there, true)
    modifies stream
    ensures stream.Valid() && stream.End() <= old(stream.End()) && (ok ==> stream.End() == old(stream.End()))
    ensures ok <==> ReadValue(T, f, WT_STRING, old(stream.Rest()), StartOf(T, f, there)).Ok?
    ensures ok ==> Ok(v, stream.Rest()) == ReadValue(T, f, WT_STRING, old(stream.Rest()), StartOf(T, f, there))
    decreases stream.bytesLeft, 0
  {
    v := there;
    ghost var bs, start := stream.Rest(), StartOf(T, f, there);
    var sub;
    ok, sub := stream.MakeStringSubstream();
    if !ok { return; }
    ReadSubmessage(T, f, bs, start);
    var noInit := f.atype.Static? && !f.htype.Repeated?;
    var dest := if noInit then there.slots else ZeroMsg(T, f.sub);
    assert start.slots == if noInit then dest else InitMsg(T, f.sub);
    var status, res := DecodeInner(T, f.sub, sub, dest, noInit);
    ok := stream.CloseStringSubstream(sub);
    ok, v := status, Msg(res);
  }

  /** decode_basic_field */
  method DecodeBasicField(T: Table, stream: IStream, wt: nat, f: Field, there: Value) returns (ok: bool, v: Value)
    requires TableOk(T) && stream.Valid() && SizeOk(f)
    requires f.ltype.LSubmsg? && f.atype.Static? && !f.htype.Repeated? ==> ConformsValue(T, f, there, true)
    modifies stream
    ensures stream.Valid() && stream.End() <= old(stream.End()) && (ok ==> stream.End() == old(stream.End()))
    ensures ok <==> ReadValue(T, f, wt, old(stream.Rest()), StartOf(T, f, there)).Ok?
    ensures ok ==> Ok(v, stream.Rest()) == ReadValue(T, f, wt, old(stream.Rest()), StartOf(T, f, there))
    decreases stream.bytesLeft, 1
  {
    if f.ltype.LSubmsg? {
      if wt != WT_STRING { return false, there; }
      ok, v := DecSubmessage(T, stream, f, there);
    } else {
      ok, v := DecodeLeaf(T, stream, wt, f, StartOf(T, f, there));
    }
  }

  /** The loop over a packed static array: it stops when the array is full. */
  method FillStatic(sub: IStream, f: Field, items: seq<Value>) returns (status: bool, xs: seq<Value>)
    requires sub.Valid() && SizeOk(f) && Packable(f.ltype) && f.atype.Static?
    modifies sub
    ensures sub.Valid() && sub.End() == old(sub.End())
    ensures ReadPacked(f, old(sub.Rest()), items) == if status && sub.bytesLeft == 0 then Some(xs) else None
  {
    xs, status := items, true;
    while sub.bytesLeft > 0 && |xs| < f.arraySize && status
      invariant sub.Valid() && sub.End() == old(sub.End())
      invariant ReadPacked(f, old(sub.Rest()), items) == if status then ReadPacked(f, sub.Rest(), xs) else None
      decreases status, sub.bytesLeft
    {
      var n;
      status, n := DecodeNumber(sub, WT_PACKED, f);
      if status { xs := xs + [Num(n)]; }
    }
  }

  lemma PackedInFrame(f: Field, bs: seq<byte>, items: seq<Value>)
    requires ReadFrame(bs).Ok?
    ensures PackedSlot(f, bs, items)
         == match ReadPacked(f, ReadFrame(bs).value, items)
            { case None => Fail
              case Some(xs) => Ok(Many(xs), ReadFrame(bs).rest) }
  {
  }

  /** The packed case of decode_static_field. */
  method DecodePackedStatic(stream: IStream, f: Field, items: seq<Value>) returns (ok: bool, xs: seq<Value>)
    requires stream.Valid() && SizeOk(f) && Packable(f.ltype) && f.atype.Static?
    modifies stream
    ensures stream.Valid() && stream.End() <= old(stream.End()) && (ok ==> stream.End() == old(stream.End()))
    ensures ok <==> PackedSlot(f, old(stream.Rest()), items).Ok?
    ensures ok ==> Ok(Many(xs), stream.Rest()) == PackedSlot(f, old(stream.Rest()), items)
  {
    xs := items;
    ghost var bs := stream.Rest();
    var sub, status;
    ok, sub := stream.MakeStringSubstream();
    if !ok { return; }
    PackedInFrame(f, bs, items);
    status, xs := FillStatic(sub, f, items);
    if sub.bytesLeft != 0 { return false, xs; }
    ok := stream.CloseStringSubstream(sub);
    ok := status;
  }

  /** The loop over a packed pointer array: the storage grows, up to PB_SIZE_MAX entries. */
  method FillPointer(sub: IStream, f: Field, items: seq<Value>) returns (status: bool, xs: seq<Value>)
    requires sub.Valid() && SizeOk(f) && Packable(f.ltype) && f.atype.Pointer? && |items| <= SIZE_MAX
    modifies sub
    ensures sub.Valid() && sub.End() == old(sub.End())
    ensures ReadPacked(f, old(sub.Rest()), items) == if status then Some(xs) else None
    ensures status ==> sub.bytesLeft == 0
  {
    xs, status := items, true;
    while sub.bytesLeft > 0 && status
      invariant sub.Valid() && sub.End() == old(sub.End()) && |xs| <= SIZE_MAX
      invariant ReadPacked(f, old(sub.Rest()), items) == if status then ReadPacked(f, sub.Rest(), xs) else None
      decreases status, sub.bytesLeft
    {
      if |xs| == SIZE_MAX {
        status := false;
      } else {
        var n;
        status, n := DecodeNumber(sub, WT_PACKED, f);
        if status { xs := xs + [Num(n)]; }
      }
    }
  }

  /** The packed case of decode_pointer_field. */
  method DecodePackedPointer(stream: IStream, f: Field, items: seq<Value>) returns (ok: bool, xs: seq<Value>)
    requires stream.Valid() && SizeOk(f) && Packable(f.ltype) && f.atype.Pointer? && |items| <= SIZE_MAX
    modifies stream
    ensures stream.Valid() && stream.End() <= old(stream.End()) && (ok ==> stream.End() == old(stream.End()))
    ensures ok <==> PackedSlot(f, old(stream.Rest()), items).Ok?
    ensures ok ==> Ok(Many(xs), stream.Rest()) == PackedSlot(f, old(stream.Rest()), items)
  {
    xs := items;
    var sub, status;
    ok, sub := stream.MakeStringSubstream();
    if !ok { return; }
    status, xs := FillPointer(sub, f, items);
    ok := stream.CloseStringSubstream(sub);
    ok := status;
  }

  /** A packed array as a field payload. */
  function PackedSlot(f: Field, bs: seq<byte>, items: seq<Value>): Parsed<Slot> {
    match ReadFrame(bs)
    case Fail => Fail
    case Ok(frame, r) =>
      match ReadPacked(f, frame, items)
      case None => Fail
      case Some(xs) => Ok(Many(xs), r)
  }

  /** The storage a field of this kind has. */
  predicate StoredAs(f: Field, s: Slot) {
    match s
    case One(_) => f.atype.Static? && !f.htype.Repeated? && !Flagged(f)
    case Opt(_, _) => Flagged(f)
    case Many(items) => f.htype.Repeated? && |items| <= Capacity(f)
    case Ptr(_) => f.atype.Pointer? && !f.htype.Repeated?
  }

  /** decode_static_field */
  method DecodeStaticField(T: Table, stream: IStream, wt: nat, f: Field, slot: Slot) returns (ok: bool, s: Slot)
    requires TableOk(T) && stream.Valid() && SizeOk(f) && f.atype.Static? && StoredAs(f, slot)
    requires f.ltype.LSubmsg? && !f.htype.Repeated? ==> ConformsValue(T, f, slot.v, true)
    modifies stream
    ensures stream.Valid() && stream.End() <= old(stream.End()) && (ok ==> stream.End() == old(stream.End()))
    ensures ok <==> ReadSlot(T, f, wt, old(stream.Rest()), slot).Ok?
    ensures ok ==> Ok(s, stream.Rest()) == ReadSlot(T, f, wt, old(stream.Rest()), slot)
    decreases stream.bytesLeft, 2
  {
    s := slot;
    var v;
    if f.htype.Required? {
      ok, v := DecodeBasicField(T, stream, wt, f, slot.v);
      s := One(v);
    } else if f.htype.Optional? {
      ok, v := DecodeBasicField(T, stream, wt, f, slot.v);
      s := if f.sizeOffset != 0 then Opt(true, v) else One(v);
    } else if wt == WT_STRING && Packable(f.ltype) {
      var xs;
      ok, xs := DecodePackedStatic(stream, f, slot.items);
      s := Many(xs);
    } else {
      if |slot.items| >= f.arraySize { return false, slot; }
      ok, v := DecodeBasicField(T, stream, wt, f, Fresh(T, f));
      s := Many(slot.items + [v]);
    }
  }

  /** decode_pointer_field, with allocations that succeed; a submessage replaces the one there was. */
  method DecodePointerField(T: Table, stream: IStream, wt: nat, f: Field, slot: Slot) returns (ok: bool, s: Slot)
    requires TableOk(T) && stream.Valid() && SizeOk(f) && f.atype.Pointer? && StoredAs(f, slot)
    modifies stream
    ensures stream.Valid() && stream.End() <= old(stream.End()) && (ok ==> stream.End() == old(stream.End()))
    ensures ok <==> ReadSlot(T, f, wt, old(stream.Rest()), slot).Ok?
    ensures ok ==> Ok(s, stream.Rest()) == ReadSlot(T, f, wt, old(stream.Rest()), slot)
    decreases stream.bytesLeft, 2
  {
    s := slot;
    var v;
    if !f.htype.Repeated? {
      ok, v := DecodeBasicField(T, stream, wt, f, Fresh(T, f));
      s := Ptr(Some(v));
    } else if wt == WT_STRING && Packable(f.ltype) {
      var xs;
      ok, xs := DecodePackedPointer(stream, f, slot.items);
      s := Many(xs);
    } else {
      if |slot.items| == SIZE_MAX { return false, slot; }
      ok, v := DecodeBasicField(T, stream, wt, f, Fresh(T, f));
      s := Many(slot.items + [v]);
    }
  }

  /** decode_field */
  method DecodeField(T: Table, stream: IStream, wt: nat, f: Field, slot: Slot) returns (ok: bool, s: Slot)
    requires TableOk(T) && stream.Valid() && SizeOk(f) && StoredAs(f, slot)
    requires f.ltype.LSubmsg? && f.atype.Static? && !f.htype.Repeated? ==> ConformsValue(T, f, slot.v, true)
    modifies stream
    ensures stream.Valid() && stream.End() <= old(stream.End()) && (ok ==> stream.End() == old(stream.End()))
    ensures ok <==> ReadSlot(T, f, wt, old(stream.Rest()), slot).Ok?
    ensures ok ==> Ok(s, stream.Rest()) == ReadSlot(T, f, wt, old(stream.Rest()), slot)
    decreases stream.bytesLeft, 3
  {
    if f.atype.Static? {
      ok, s := DecodeStaticField(T, stream, wt, f, slot);
    } else {
      ok, s := DecodePointerField(T, stream, wt, f, slot);
    }
  }

  lemma ReadSlotPlain(T: Table, f: Field, wt: nat, bs: seq<byte>, s: Slot)
    ensures ReadSlot(T, Plain(f), wt, bs, s) == ReadSlot(T, f, wt, bs, s)
  {
    assert Fresh(T, Plain(f)) == Fresh(T, f);
    assert forall v :: ReadValue(T, Plain(f), wt, bs, v) == ReadValue(T, f, wt, bs, v);
    if s.Many? && ReadFrame(bs).Ok? { ReadPackedPlain(f, ReadFrame(bs).value, s.items); }
  }

  lemma {:induction false} ReadPackedPlain(f: Field, frame: seq<byte>, items: seq<Value>)
    ensures ReadPacked(Plain(f), frame, items) == ReadPacked(f, frame, items)
    decreases |frame|
  {
    assert ReadNum(Plain(f), WT_PACKED, frame) == ReadNum(f, WT_PACKED, frame);
    if frame != [] && ReadNum(f, WT_PACKED, frame).Ok? {
      var p := ReadNum(f, WT_PACKED, frame);
      ReadPackedPlain(f, p.rest, items + [Num(p.value)]);
    }
  }

  /** Iterator and required-field bits as the loop keeps them. */
  ghost predicate Tracking(T: Table, d: nat, iter: FieldIter<Slot>, seen: FieldsSeen)
    reads iter, seen.bitfield
  {
    TableOk(T) && Marking(T, d, iter, seen) && Conforms(T, d, iter.message, true)
  }

  /** The field under the cursor, its tag already read. */
  method DecodeKnown(
    T: Table, d: nat, stream: IStream, wt: nat, iter: FieldIter<Slot>, seen: FieldsSeen)
    returns (ok: bool)
    requires stream.Valid() && Tracking(T, d, iter, seen) && iter.fields != []
    modifies stream, iter, seen.bitfield
    ensures stream.Valid() && stream.End() <= old(stream.End())
    ensures ok <==> ReadSlot(T, old(iter.Current()), wt, old(stream.Rest()), old(iter.message[iter.index])).Ok?
    ensures ok ==>
              && stream.End() == old(stream.End()) && Tracking(T, d, iter, seen)
              && ReadSlot(T, old(iter.Current()), wt, old(stream.Rest()), old(iter.message[iter.index])).rest
                   == stream.Rest()
              && iter.message == old(iter.message[iter.index :=
                   ReadSlot(T, iter.Current(), wt, stream.Rest(), iter.message[iter.index]).value])
              && seen.Ranks() == Decoding.Mark(At(T, d), old(iter.index), old(seen.Ranks()))
    decreases stream.bytesLeft, 4
  {
    ghost var i, bs, slot := iter.index, stream.Rest(), iter.message[iter.index];
    FieldOkAt(T, d, i);
    iter.FieldIsCurrent();
    var f := iter.Field();
    MarkSeen(T, d, iter, seen);
    ReadSlotPlain(T, At(T, d)[i], wt, bs, slot);
    assert ConformsSlot(T, d, At(T, d)[i], slot, true);
    var s;
    ok, s := DecodeField(T, stream, wt, f, iter.message[iter.index]);
    if !ok { return; }
    StoredConforms(T, d, i, iter.message, wt, bs);
    iter.Store(s);
  }

  lemma StoredConforms(T: Table, d: nat, i: nat, ss: seq<Slot>, wt: nat, bs: seq<byte>)
    requires TableOk(T) && Conforms(T, d, ss, true) && i < |ss|
    requires ReadSlot(T, At(T, d)[i], wt, bs, ss[i]).Ok?
    ensures Conforms(T, d, ss[i := ReadSlot(T, At(T, d)[i], wt, bs, ss[i]).value], true)
  {
    FieldOkAt(T, d, i);
    ReadSlotConforms(T, d, At(T, d)[i], wt, bs, ss[i]);
  }

  /** One round of the loop: a tag, and the field or the data to skip. */
  method DecodeOne(T: Table, d: nat, stream: IStream, iter: FieldIter<Slot>, seen: FieldsSeen) returns (ok: bool)
    requires stream.Valid() && stream.bytesLeft > 0 && Tracking(T, d, iter, seen)
    modifies stream, iter, seen.bitfield
    ensures stream.Valid() && stream.End() <= old(stream.End())
    ensures ok ==> stream.End() == old(stream.End()) && stream.bytesLeft < old(stream.bytesLeft)
    ensures ok ==> Tracking(T, d, iter, seen)
    ensures Loop(T, d, old(stream.Rest()), old(iter.message), old(seen.Ranks()))
         == if ok then Loop(T, d, stream.Rest(), iter.message, seen.Ranks()) else Stop
    decreases stream.bytesLeft, 4
  {
    var wt, tag, eof;
    ok, wt, tag, eof := stream.DecodeTag();
    if !ok { return; }
    assert Loop(T, d, old(stream.Rest()), iter.message, seen.Ranks())
         == Step(T, d, tag, wt, stream.Rest(), iter.message, seen.Ranks());
    if tag == 0 { return false; }
    var found := iter.Find(tag);
    if found {
      ok := DecodeKnown(T, d, stream, wt, iter, seen);
    } else {
      ok := stream.SkipField(wt);
    }
  }

  /** The loop of pb_decode_inner. */
  method DecodeLoop(T: Table, d: nat, stream: IStream, iter: FieldIter<Slot>, seen: FieldsSeen) returns (ok: bool)
    requires stream.Valid() && Tracking(T, d, iter, seen)
    modifies stream, iter, seen.bitfield
    ensures stream.Valid() && stream.End() <= old(stream.End())
    ensures ok ==> stream.End() == old(stream.End()) && stream.bytesLeft == 0 && Tracking(T, d, iter, seen)
    ensures Loop(T, d, old(stream.Rest()), old(iter.message), old(seen.Ranks()))
         == if ok then Done(iter.message, seen.Ranks()) else Stop
    decreases stream.bytesLeft, 5
  {
    while stream.bytesLeft > 0
      invariant stream.Valid() && stream.End() == old(stream.End()) && stream.bytesLeft <= old(stream.bytesLeft)
      invariant Tracking(T, d, iter, seen)
      invariant Loop(T, d, old(stream.Rest()), old(iter.message), old(seen.Ranks()))
             == Loop(T, d, stream.Rest(), iter.message, seen.Ranks())
      decreases stream.bytesLeft
    {
      ok := DecodeOne(T, d, stream, iter, seen);
      if !ok { return; }
    }
    ok := true;
  }

  /** An iterator over the destination, initialised unless told not to. */
  method Prepare(T: Table, d: nat, dest: seq<Slot>, noInit: bool) returns (iter: FieldIter<Slot>)
    requires TableOk(T) && |dest| == |At(T, d)| && (noInit ==> Conforms(T, d, dest, true))
    ensures fresh(iter) && iter.Valid() && iter.fields == At(T, d) && Conforms(T, d, iter.message, true)
    ensures iter.message == if noInit then dest else InitMsg(T, d)
  {
    BindableAt(T, d);
    iter := new FieldIter<Slot>.Begin(At(T, d), dest);
    if !noInit && |At(T, d)| > 0 { MessageSetToDefaults(T, d, iter); }
    InitConforms(T, d);
  }

  /** pb_decode_inner */
  method DecodeInner(
    T: Table, d: nat, stream: IStream, dest: seq<Slot>, noInit: bool)
    returns (ok: bool, res: seq<Slot>)
    requires TableOk(T) && stream.Valid() && |dest| == |At(T, d)|
    requires noInit ==> Conforms(T, d, dest, true)
    modifies stream
    ensures stream.Valid() && stream.End() <= old(stream.End())
    ensures ok ==> stream.End() == old(stream.End()) && stream.bytesLeft == 0
    ensures (if ok then Some(res) else None)
         == DecodeInto(T, d, old(stream.Rest()), if noInit then dest else InitMsg(T, d))
    decreases stream.bytesLeft, 6
  {
    var iter := Prepare(T, d, dest, noInit);
    var seen := new FieldsSeen();
    ok := DecodeLoop(T, d, stream, iter, seen);
    res := iter.message;
    if ok { ok := CheckRequired(T, d, iter, seen); }
  }

  /** pb_decode: decode the whole stream into a structure of the type. */
  method PbDecode(T: Table, d: nat, stream: IStream, dest: seq<Slot>) returns (ok: bool, res: seq<Slot>)
    requires TableOk(T) && stream.Valid() && |dest| == |At(T, d)|
    modifies stream
    ensures stream.Valid()
    ensures (if ok then Some(res) else None) == Decode(T, d, old(stream.Rest()))
    ensures ok ==> stream.bytesLeft == 0 && stream.pos == old(stream.End())
  {
    ok, res := DecodeInner(T, d, stream, dest, false);
  }

  /** pb_decode_ex with PB_DECODE_DELIMITED: a length prefix, and then exactly that many bytes. */
  method PbDecodeDelimited(T: Table, d: nat, stream: IStream, dest: seq<Slot>) returns (ok: bool, res: seq<Slot>)
    requires TableOk(T) && stream.Valid() && |dest| == |At(T, d)|
    modifies stream
    ensures stream.Valid()
    ensures ok <==> ReadFrame(old(stream.Rest())).Ok? && Decode(T, d, ReadFrame(old(stream.Rest())).value).Some?
    ensures ok ==>
              && Some(res) == Decode(T, d, ReadFrame(old(stream.Rest())).value)
              && stream.Rest() == ReadFrame(old(stream.Rest())).rest
              && stream.End() == old(stream.End())
  {
    res := dest;
    var sub;
    ok, sub := stream.MakeStringSubstream();
    if !ok { return; }
    var status;
    status, res := DecodeInner(T, d, sub, dest, false);
    ok := stream.CloseStringSubstream(sub);
    ok := status;
  }
}
