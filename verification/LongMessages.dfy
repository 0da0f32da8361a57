/**
  Messages with length prefixes beyond 32 bits. The encoder writes them, the
  32-bit reader of the decoder refuses most of them, and then the message
  cannot be decoded again.
 */
module LongMessages {
  import opened Wire
  import opened Descriptor
  import opened Varint
  import opened Encoding
  import opened Decoding
  import opened Merging

  /** A length of its own that is beyond 32 bits. */
  function Long(form: Form): Option<nat> {
    if form.Some? && |form.value| >= TWO32 then Some(|form.value|) else None
  }

  function LongValue(T: Table, f: Field, v: Value): Option<nat> {
    if f.ltype.LSubmsg? && v.Msg? then Long(Encode(T, f.sub, v.slots)) else None
  }

  function LongItem(T: Table, f: Field, items: seq<Value>): Option<nat> {
    if items == [] then None
    else if LongValue(T, f, items[0]).Some? then LongValue(T, f, items[0])
    else LongItem(T, f, items[1..])
  }

  /** The first such length in what is written for a member. */
  function LongSlot(T: Table, d: nat, f: Field, s: Slot): Option<nat> {
    match s
    case One(v) => if LeftOut(T, d, f, s) then None else LongValue(T, f, v)
    case Opt(has, v) => if has then LongValue(T, f, v) else None
    case Ptr(p) => if p.Some? then LongValue(T, f, p.value) else None
    case Many(items) => if Packable(f.ltype) then Long(Elements(f, items)) else LongItem(T, f, items)
  }

  /** The first in the fields from number i on. What contains a long length is longer, and comes first. */
  function FirstLong(T: Table, d: nat, m: seq<Slot>, i: nat): Option<nat>
    decreases |m| - i
  {
    if i >= |m| || i >= |At(T, d)| then None
    else if LongSlot(T, d, At(T, d)[i], m[i]).Some? then LongSlot(T, d, At(T, d)[i], m[i])
    else FirstLong(T, d, m, i + 1)
  }

  // ----- it is there exactly if some length does not fit -----

  lemma ValueFits(T: Table, f: Field, v: Value)
    requires Record(T, f, v).Some?
    ensures LongValue(T, f, v).None? <==> ValueLengthsFit(T, f, v)
  {
    if f.ltype.LSubmsg? && v.Msg? && LongValue(T, f, v).None? { ShortLengthsFit(T, f.sub, v.slots); }
  }

  lemma {:induction false} ItemsFit(T: Table, f: Field, items: seq<Value>)
    requires Records(T, f, items).Some?
    ensures LongItem(T, f, items).None? <==> forall i :: 0 <= i < |items| ==> ValueLengthsFit(T, f, items[i])
  {
    if items == [] {
    } else {
      ValueFits(T, f, items[0]);
      ItemsFit(T, f, items[1..]);
      assert forall i :: 0 <= i < |items| - 1 ==> items[1..][i] == items[i + 1];
    }
  }

  lemma SlotFits(T: Table, d: nat, f: Field, s: Slot)
    requires SlotForm(T, d, f, s).Some?
    ensures LongSlot(T, d, f, s).None? <==> SlotLengthsFit(T, d, f, s)
  {
    match s
    case One(v) => if !LeftOut(T, d, f, s) { ValueFits(T, f, v); }
    case Opt(has, v) => if has { ValueFits(T, f, v); }
    case Ptr(p) => if p.Some? { ValueFits(T, f, p.value); }
    case Many(items) => if !Packable(f.ltype) && items != [] { ItemsFit(T, f, items); }
  }

  lemma {:induction false} FieldsFit(T: Table, d: nat, m: seq<Slot>, i: nat)
    requires |m| == |At(T, d)| && EncodeFrom(T, d, m, i).Some?
    ensures FirstLong(T, d, m, i).None? <==>
              forall k :: i <= k < |m| ==> SlotLengthsFit(T, d, At(T, d)[k], m[k])
    decreases |m| - i
  {
    if i >= |m| {
    } else {
      SlotFits(T, d, At(T, d)[i], m[i]);
      FieldsFit(T, d, m, i + 1);
    }
  }

  /** A message has no first long length exactly if all its lengths fit 32 bits. */
  lemma NoneIffFits(T: Table, d: nat, m: seq<Slot>)
    requires |m| == |At(T, d)| && Encode(T, d, m).Some?
    ensures FirstLong(T, d, m, 0).None? <==> LengthsFit(T, d, m)
  {
    FieldsFit(T, d, m, 0);
  }

  // ----- a refused length ends the decoder loop -----

  predicate Refused(n: nat) {
    TWO32 <= n < LAST_REFUSED || FIVE_BYTES <= n < TWO63
  }

  lemma LongPrefix(e: seq<byte>, more: seq<byte>)
    requires Refused(|e|)
    ensures ReadFrame(Prefixed(e) + more) == Fail
  {
    assert Prefixed(e) + more == Shortest(|e|) + (e + more);
    LongLength(|e|, e + more);
  }

  /**
    A length of five bytes from 0x780000000 on is read modulo 2^32: the frame
    is as many of the first bytes, and the others are left to be read as fields.
   */
  lemma CutPrefix(e: seq<byte>, more: seq<byte>)
    requires LAST_REFUSED <= |e| < FIVE_BYTES
    ensures TWO31 <= |e| % TWO32 < |e|
    ensures ReadFrame(Prefixed(e) + more) == Ok(e[..|e| % TWO32], e[|e| % TWO32..] + more)
  {
    CutLength(|e|);
    LongLength(|e|, e + more);
    assert Prefixed(e) + more == Shortest(|e|) + (e + more);
    CutFrame(Prefixed(e) + more, e, more, |e| % TWO32);
  }

  lemma CutLength(n: nat)
    requires LAST_REFUSED <= n < FIVE_BYTES
    ensures TWO31 <= n % TWO32 < n
  {
  }

  lemma CutFrame(bs: seq<byte>, e: seq<byte>, more: seq<byte>, n: nat)
    requires n <= |e| && Read32(bs) == Ok(n, e + more)
    ensures ReadFrame(bs) == Ok(e[..n], e[n..] + more)
  {
    assert (e + more)[..n] == e[..n] && (e + more)[n..] == e[n..] + more;
  }

  /** What the loop makes of a submessage whose length is cut in this way. */
  lemma LoopOfCut(
    T: Table, d: nat, i: nat, f: Field, ss: seq<Slot>, e: seq<byte>, start: seq<Slot>, more: seq<byte>, seen: set<nat>)
    requires TableOk(T) && i < |At(T, d)| == |ss| && f == At(T, d)[i] && f.ltype.LSubmsg?
    requires LAST_REFUSED <= |e| < FIVE_BYTES
    requires !ss[i].Many? && Msg(start) == if ss[i].Ptr? then Fresh(T, f) else ss[i].v
    ensures Loop(T, d, Tag(f, WT_STRING) + Prefixed(e) + more, ss, seen)
         == match DecodeInto(T, f.sub, e[..|e| % TWO32], start)
            { case None => Stop
              case Some(x) =>
                Loop(T, d, e[|e| % TWO32..] + more,
                  ss[i := StoredLike(ss[i], Some(Msg(x))).value], Mark(At(T, d), i, seen)) }
  {
    LoopOfRecord(T, d, i, f, ss, WT_STRING, Prefixed(e), more, seen);
    CutPrefix(e, more);
    ReadSubmessage(T, f, Prefixed(e) + more, Msg(start));
  }

  /** A record whose length is refused, whatever it is for. */
  lemma LongRecord(
    T: Table, d: nat, i: nat, f: Field, ss: seq<Slot>, e: seq<byte>, more: seq<byte>, seen: set<nat>)
    requires TableOk(T) && i < |At(T, d)| == |ss| && f == At(T, d)[i] && Refused(|e|)
    requires f.ltype.LSubmsg? || (ss[i].Many? && Packable(f.ltype))
    ensures Loop(T, d, Tag(f, WT_STRING) + Prefixed(e) + more, ss, seen) == Stop
  {
    LoopOfRecord(T, d, i, f, ss, WT_STRING, Prefixed(e), more, seen);
    LongPrefix(e, more);
  }

  lemma LoopOfLongValue(
    T: Table, d: nat, i: nat, f: Field, ss: seq<Slot>, v: Value, more: seq<byte>, seen: set<nat>)
    requires TableOk(T) && i < |At(T, d)| == |ss| && f == At(T, d)[i] && Record(T, f, v).Some?
    requires LongValue(T, f, v).Some? && Refused(LongValue(T, f, v).value)
    ensures Loop(T, d, Record(T, f, v).value + more, ss, seen) == Stop
  {
    var e := Encode(T, f.sub, v.slots).value;
    assert Record(T, f, v) == Some(Tag(f, WT_STRING) + Prefixed(e));
    LongRecord(T, d, i, f, ss, e, more, seen);
  }

  lemma {:induction false} LoopOfLongItem(
    T: Table, d: nat, i: nat, f: Field, ss: seq<Slot>, items: seq<Value>, more: seq<byte>, seen: set<nat>)
    requires TableOk(T) && i < |At(T, d)| && f == At(T, d)[i] && Conforms(T, d, ss, true)
    requires f.htype.Repeated? && !Packable(f.ltype)
    requires forall k :: 0 <= k < |items| ==> ConformsValue(T, f, items[k], false)
    requires Records(T, f, items).Some? && LongItem(T, f, items).Some? && Refused(LongItem(T, f, items).value)
    ensures Loop(T, d, Records(T, f, items).value + more, ss, seen) == Stop
    decreases |items|
  {
    var es := Records(T, f, items[1..]).value;
    assert Records(T, f, items).value + more == Record(T, f, items[0]).value + (es + more);
    if LongValue(T, f, items[0]).Some? {
      LoopOfLongValue(T, d, i, f, ss, items[0], es + more, seen);
    } else {
      ValueFits(T, f, items[0]);
      LoopOfArrayRecord(T, d, i, f, ss, items[0], es + more, seen);
      var x := MergeValue(T, f, Fresh(T, f), items[0]);
      if |ss[i].items| < Capacity(f) && x.Some? {
        var s := Many(ss[i].items + [x.value]);
        LoopOfLongItem(T, d, i, f, ss[i := s], items[1..], more, Mark(At(T, d), i, seen));
      }
    }
  }

  lemma LoopOfLongSlot(
    T: Table, d: nat, i: nat, f: Field, ss: seq<Slot>, s: Slot, more: seq<byte>, seen: set<nat>)
    requires TableOk(T) && i < |At(T, d)| && f == At(T, d)[i] && Conforms(T, d, ss, true)
    requires ConformsSlot(T, d, f, s, false) && SlotForm(T, d, f, s).Some?
    requires LongSlot(T, d, f, s).Some? && Refused(LongSlot(T, d, f, s).value)
    ensures Loop(T, d, SlotForm(T, d, f, s).value + more, ss, seen) == Stop
  {
    FieldOkAt(T, d, i);
    assert ConformsSlot(T, d, f, ss[i], true);
    match s
    case One(v) => LoopOfLongValue(T, d, i, f, ss, v, more, seen);
    case Opt(_, v) => LoopOfLongValue(T, d, i, f, ss, v, more, seen);
    case Ptr(p) => LoopOfLongValue(T, d, i, f, ss, p.value, more, seen);
    case Many(items) =>
      if Packable(f.ltype) {
        LongRecord(T, d, i, f, ss, Elements(f, items).value, more, seen);
      } else {
        LoopOfLongItem(T, d, i, f, ss, items, more, seen);
      }
  }

  lemma {:induction false} LoopOfLong(
    T: Table, d: nat, ss: seq<Slot>, m: seq<Slot>, i: nat, more: seq<byte>, seen: set<nat>)
    requires TableOk(T) && Conforms(T, d, ss, true) && Conforms(T, d, m, false) && EncodeFrom(T, d, m, i).Some?
    requires FirstLong(T, d, m, i).Some? && Refused(FirstLong(T, d, m, i).value)
    ensures Loop(T, d, EncodeFrom(T, d, m, i).value + more, ss, seen) == Stop
    decreases |m| - i
  {
    var f := At(T, d)[i];
    var e, es := SlotForm(T, d, f, m[i]).value, EncodeFrom(T, d, m, i + 1).value;
    assert EncodeFrom(T, d, m, i).value + more == e + (es + more);
    if LongSlot(T, d, f, m[i]).Some? {
      LoopOfLongSlot(T, d, i, f, ss, m[i], es + more, seen);
    } else {
      SlotFits(T, d, f, m[i]);
      LoopOfEncodedSlot(T, d, i, f, ss, m[i], es + more, seen);
      var x := MergeSlot(T, d, f, ss[i], m[i]);
      if x.Some? {
        MergedSlotConforms(T, d, i, f, ss, m[i], seen);
        LoopOfLong(T, d, ss[i := x.value], m, i + 1, more, Mark(At(T, d), i, seen));
      }
    }
  }

  /** A message whose first long length is in a refused range is encoded, but never decoded again. */
  lemma LongIsRefused(T: Table, d: nat, m: seq<Slot>)
    requires TableOk(T) && Conforms(T, d, m, false)
    requires FirstLong(T, d, m, 0).Some? && Refused(FirstLong(T, d, m, 0).value)
    ensures Encode(T, d, m).Some? && Decode(T, d, Encode(T, d, m).value) == None
  {
    EncodeFromExists(T, d, m, 0);
    InitConforms(T, d);
    LoopOfLong(T, d, InitMsg(T, d), m, 0, [], {});
    var e := Encode(T, d, m).value;
    assert e + [] == e;
  }

  // ----- such a message -----

  /** A pointer to a byte array, and a pointer to a message with one. */
  function Nested(): Table {
    [Desc([Field(1, LBytes, Optional, Pointer, 8, 1, 0, 0, 1, 0, None)]),
     Desc([Field(1, LSubmsg, Optional, Pointer, 8, 1, 0, 0, 1, 0, None)])]
  }

  function Holding(v: Value): seq<Slot> {
    [Ptr(Some(v))]
  }

  lemma NestedIsOk()
    ensures TableOk(Nested()) && |At(Nested(), 0)| == 1 && |At(Nested(), 1)| == 1
  {
    var T := Nested();
    forall d | 0 <= d < |T| ensures DescOk(T, d) {
      forall i | 0 <= i < |At(T, d)| ensures EntryOk(T, d, i) { }
    }
  }

  lemma HoldingForm(d: nat, v: Value)
    requires d < 2 && ConformsValue(Nested(), At(Nested(), d)[0], v, false)
    ensures Conforms(Nested(), d, Holding(v), false)
    ensures Encode(Nested(), d, Holding(v)) == Record(Nested(), At(Nested(), d)[0], v)
  {
    var T := Nested();
    assert ConformsSlot(T, d, At(T, d)[0], Holding(v)[0], false);
    NestedIsOk();
    assert EncodeFrom(T, d, Holding(v), 1) == Some([]);
    assert SlotForm(T, d, At(T, d)[0], Holding(v)[0]) == Record(T, At(T, d)[0], v);
    CatNothing(Record(T, At(T, d)[0], v));
  }

  lemma LengthOfHuge()
    ensures |Shortest(TWO32 - 1)| == 5
  {
    var n: nat := TWO32 - 1;
    assert |Shortest(n)| == 1 + |Shortest(n / 128)| && |Shortest(n / 128)| == 1 + |Shortest(n / 128 / 128)|;
    var m := n / 128 / 128;
    assert |Shortest(m)| == 1 + |Shortest(m / 128)| && |Shortest(m / 128)| == 1 + |Shortest(m / 128 / 128)|;
  }

  /**
    The longest byte array the decoder reads, one level deep: with tag and
    prefix the inner message has 2^32 + 5 bytes. It is encoded, and rejected.
   */
  lemma HugeIsRefused(b: seq<byte>)
    requires |b| == TWO32 - 1
    ensures TableOk(Nested())
    ensures var m := Holding(Msg(Holding(Blob(b))));
            && Conforms(Nested(), 1, m, false)
            && FirstLong(Nested(), 1, m, 0) == Some(TWO32 + 5) && Refused(TWO32 + 5)
            && Encode(Nested(), 1, m).Some? && Decode(Nested(), 1, Encode(Nested(), 1, m).value) == None
  {
    var T, inner := Nested(), Holding(Blob(b));
    var m := Holding(Msg(inner));
    NestedIsOk();
    HoldingForm(0, Blob(b));
    LengthOfHuge();
    assert |Tag(At(T, 0)[0], WT_STRING)| == 1;
    assert Record(T, At(T, 0)[0], Blob(b)) == Some(Tag(At(T, 0)[0], WT_STRING) + Prefixed(b));
    HoldingForm(1, Msg(inner));
    assert FirstLong(T, 1, m, 0) == LongValue(T, At(T, 1)[0], Msg(inner));
    LongIsRefused(T, 1, m);
  }
}
