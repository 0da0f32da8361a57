/**
  Whatever bytes arrive, a successful decode leaves a conforming structure:
  numbers in range, booleans 0 or 1, strings terminated inside their member,
  counts within capacity, absent members untouched.
 */
module DecodedMessages {
  import opened Wire
  import opened Descriptor
  import opened Varint
  import opened Decoding

  lemma Read32Bound(bs: seq<byte>)
    requires Read32(bs).Ok?
    ensures Read32(bs).value < TWO32
  {
    Weights();
    Read32RefinesFrom(bs, 0, 0);
  }

  lemma ReadNumConforms(f: Field, wt: nat, bs: seq<byte>)
    requires SizeOk(f) && ReadNum(f, wt, bs).Ok?
    ensures LeafOk(f, Num(ReadNum(f, wt, bs).value))
  {
    if f.ltype.LFixed32? {
      FromLittleEndianBound(bs[..4]);
      Pow256Values();
    } else if f.ltype.LFixed64? {
      FromLittleEndianBound(bs[..8]);
      Pow256Values();
    }
  }

  lemma ReadBlobConforms(f: Field, wt: nat, bs: seq<byte>)
    requires IsBlob(f.ltype) && ReadBlob(f, wt, bs).Ok?
    ensures LeafOk(f, Blob(ReadBlob(f, wt, bs).value))
  {
    Read32Bound(bs);
  }

  lemma {:induction false} ReadPackedConforms(f: Field, frame: seq<byte>, items: seq<Value>)
    requires SizeOk(f) && Packable(f.ltype) && |items| <= Capacity(f)
    requires forall i :: 0 <= i < |items| ==> LeafOk(f, items[i])
    requires ReadPacked(f, frame, items).Some?
    ensures var xs := ReadPacked(f, frame, items).value;
            |xs| <= Capacity(f) && forall i :: 0 <= i < |xs| ==> LeafOk(f, xs[i])
    decreases |frame|
  {
    if frame == [] {
    } else {
      ReadNumConforms(f, WT_PACKED, frame);
      var p := ReadNum(f, WT_PACKED, frame);
      ReadPackedConforms(f, p.rest, items + [Num(p.value)]);
    }
  }

  lemma FreshConforms(T: Table, f: Field)
    requires TableOk(T) && f.ltype.LSubmsg?
    ensures ConformsValue(T, f, Fresh(T, f), true)
  {
    InitConforms(T, f.sub);
  }

  lemma {:induction false} ReadValueConforms(T: Table, f: Field, wt: nat, bs: seq<byte>, start: Value)
    requires TableOk(T) && SizeOk(f)
    requires f.ltype.LSubmsg? ==> ConformsValue(T, f, start, true)
    requires ReadValue(T, f, wt, bs, start).Ok?
    ensures ConformsValue(T, f, ReadValue(T, f, wt, bs, start).value, true)
    decreases |bs|, 0
  {
    if f.ltype.LSubmsg? {
      var frame := ReadFrame(bs).value;
      LoopConforms(T, f.sub, frame, start.slots, {});
    } else if Packable(f.ltype) {
      ReadNumConforms(f, wt, bs);
    } else {
      ReadBlobConforms(f, wt, bs);
    }
  }

  lemma {:induction false} ReadSlotConforms(T: Table, d: nat, f: Field, wt: nat, bs: seq<byte>, s: Slot)
    requires TableOk(T) && FieldOk(T, d, f) && ConformsSlot(T, d, f, s, true)
    requires ReadSlot(T, f, wt, bs, s).Ok?
    ensures ConformsSlot(T, d, f, ReadSlot(T, f, wt, bs, s).value, true)
    decreases |bs|, 1
  {
    if f.ltype.LSubmsg? { FreshConforms(T, f); }
    match s
    case One(v) => ReadValueConforms(T, f, wt, bs, v);
    case Opt(_, v) => ReadValueConforms(T, f, wt, bs, v);
    case Ptr(_) => ReadValueConforms(T, f, wt, bs, Fresh(T, f));
    case Many(items) =>
      if wt == WT_STRING && Packable(f.ltype) {
        ReadPackedConforms(f, ReadFrame(bs).value, items);
      } else {
        ReadValueConforms(T, f, wt, bs, Fresh(T, f));
      }
  }

  /** Conformance is an invariant of the decoder loop, over every byte string. */
  lemma {:induction false} LoopConforms(T: Table, d: nat, bs: seq<byte>, ss: seq<Slot>, seen: set<nat>)
    requires TableOk(T) && Conforms(T, d, ss, true)
    requires Loop(T, d, bs, ss, seen).Done?
    ensures Conforms(T, d, Loop(T, d, bs, ss, seen).slots, true)
    decreases |bs|, 2
  {
    if bs == [] {
    } else {
      var (tag, wt) := ReadTag(bs).value;
      var r := ReadTag(bs).rest;
      var i := Find(At(T, d), tag);
      if i < |At(T, d)| {
        FieldOkAt(T, d, i);
        ReadSlotConforms(T, d, At(T, d)[i], wt, r, ss[i]);
        var p := ReadSlot(T, At(T, d)[i], wt, r, ss[i]);
        assert Conforms(T, d, ss[i := p.value], true);
        LoopConforms(T, d, p.rest, ss[i := p.value], Mark(At(T, d), i, seen));
      } else {
        LoopConforms(T, d, SkipValue(wt, r).rest, ss, seen);
      }
    }
  }

  /** For every byte string pb_decode accepts, the structure conforms. */
  lemma DecodeConforms(T: Table, d: nat, bs: seq<byte>)
    requires TableOk(T) && Decode(T, d, bs).Some?
    ensures Conforms(T, d, Decode(T, d, bs).value, true)
  {
    InitConforms(T, d);
    LoopConforms(T, d, bs, InitMsg(T, d), {});
  }
}
