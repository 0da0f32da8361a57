/**
  Decoding the encoder's output is merging. Merge is defined field by field
  with no reference to bytes; the theorems say that for every table and every
  structure the decoder's effect on encoded bytes is exactly that merge. The
  round trip and the concatenation law follow.
 */
module Merging {
  import opened Wire
  import opened Descriptor
  import opened Varint
  import opened Encoding
  import opened Decoding
  import opened DecodedMessages

  // ----- the merge of two structures -----

  /** Numbers and strings: the last value wins. Submessages: field by field. */
  function MergeValue(T: Table, f: Field, start: Value, v: Value): Option<Value>
    decreases v, 0
  {
    if f.ltype.LSubmsg? then
      if !start.Msg? || !v.Msg? then None
      else
        match MergeFrom(T, f.sub, start.slots, v.slots, 0)
        case None => None
        case Some(ss) => Some(Msg(ss))
    else Some(v)
  }

  /** New array entries, each merged into a fresh one. */
  function MergeItems(T: Table, f: Field, items: seq<Value>): Option<seq<Value>>
    decreases items, 1
  {
    if items == [] then Some([])
    else
      match MergeValue(T, f, Fresh(T, f), items[0])
      case None => None
      case Some(x) =>
        match MergeItems(T, f, items[1..])
        case None => None
        case Some(xs) => Some([x] + xs)
  }

  /** One field: `c` is what is there, `s` what arrives. None when an array is too small. */
  function MergeSlot(T: Table, d: nat, f: Field, c: Slot, s: Slot): Option<Slot>
    decreases s, 2
  {
    match s
    case One(v) =>
      if LeftOut(T, d, f, s) then Some(c)
      else if !c.One? then None
      else (match MergeValue(T, f, c.v, v)
            case None => None
            case Some(x) => Some(One(x)))
    case Opt(has, v) =>
      if !has then Some(c)
      else if !c.Opt? then None
      else (match MergeValue(T, f, c.v, v)
            case None => None
            case Some(x) => Some(Opt(true, x)))
    case Ptr(p) =>
      (match p
       case None => Some(c)
       case Some(v) =>
         match MergeValue(T, f, Fresh(T, f), v)
         case None => None
         case Some(x) => Some(Ptr(Some(x))))
    case Many(items) =>
      if items == [] then Some(c)
      else if !c.Many? || |c.items| + |items| > Capacity(f) then None
      else
        match MergeItems(T, f, items)
        case None => None
        case Some(xs) => Some(Many(c.items + xs))
  }

  /** The fields from number i on. */
  function MergeFrom(T: Table, d: nat, c: seq<Slot>, m: seq<Slot>, i: nat): Option<seq<Slot>>
    decreases m, |At(T, d)| - i
  {
    if i >= |At(T, d)| then Some(c)
    else if i >= |m| || i >= |c| then None
    else
      match MergeSlot(T, d, At(T, d)[i], c[i], m[i])
      case None => None
      case Some(s) => MergeFrom(T, d, c[i := s], m, i + 1)
  }

  function Merge(T: Table, d: nat, c: seq<Slot>, m: seq<Slot>): Option<seq<Slot>> {
    MergeFrom(T, d, c, m, 0)
  }

  // ----- single values -----

  lemma NarrowOfForm(f: Field, v: Value)
    requires SizeOk(f) && LeafOk(f, v)
    requires f.ltype.LVarint? || f.ltype.LUVarint? || f.ltype.LSVarint?
    ensures f.ltype.LSVarint? ==> ZigZag(v.n) < TWO64 && Narrow(f, ZigZag(v.n)) == Some(v.n)
    ensures !f.ltype.LSVarint? ==> Narrow(f, v.n % TWO64) == Some(v.n)
  {
  }

  lemma ReadVarintOfForm(f: Field, v: Value, wt: nat, more: seq<byte>)
    requires SizeOk(f) && LeafOk(f, v)
    requires f.ltype.LVarint? || f.ltype.LUVarint? || f.ltype.LSVarint?
    requires wt == WT_PACKED || wt == WT_VARINT
    ensures VarintForm(f, v.n).Some?
    ensures ReadNum(f, wt, VarintForm(f, v.n).value + more) == Ok(v.n, more)
  {
    var n := if f.ltype.LSVarint? then ZigZag(v.n) else v.n % TWO64;
    NarrowOfForm(f, v);
    assert VarintForm(f, v.n) == Some(Shortest(n));
    assert Read64(Shortest(n) + more, 0) == Ok(n, more) by { RoundTrip64(n, more); }
  }

  lemma ReadBoolOfForm(f: Field, v: Value, wt: nat, more: seq<byte>)
    requires SizeOk(f) && LeafOk(f, v) && f.ltype.LBool?
    requires wt == WT_PACKED || wt == WT_VARINT
    ensures VarintForm(f, v.n) == LeafForm(f, v) == Some(Shortest(v.n))
    ensures ReadNum(f, wt, Shortest(v.n) + more) == Ok(v.n, more)
  {
    assert v.n % TWO64 == v.n;
    assert Read32(Shortest(v.n) + more) == Ok(v.n, more) by { RoundTrip32(v.n, more); }
  }

  lemma ReadFixedOfForm(f: Field, v: Value, wt: nat, more: seq<byte>)
    requires SizeOk(f) && LeafOk(f, v) && (f.ltype.LFixed32? || f.ltype.LFixed64?)
    requires wt == WT_PACKED || wt == WireType(f.ltype)
    ensures FixedForm(f, v.n).Some? && |FixedForm(f, v.n).value| > 0
    ensures ReadNum(f, wt, FixedForm(f, v.n).value + more) == Ok(v.n, more)
  {
    Pow256Values();
    ReadLittleEndian(v.n, f.dataSize, more);
    assert v.n % TWO64 == v.n && (f.dataSize == 4 ==> v.n % TWO32 == v.n);
  }

  lemma ReadLittleEndian(n: nat, k: nat, more: seq<byte>)
    requires n < Pow256(k)
    ensures FromLittleEndian((LittleEndian(n, k) + more)[..k]) == n
    ensures (LittleEndian(n, k) + more)[k..] == more
  {
    LittleEndianRoundTrip(n, k);
    assert (LittleEndian(n, k) + more)[..k] == LittleEndian(n, k);
  }

  lemma ReadNumOfForm(f: Field, v: Value, wt: nat, more: seq<byte>)
    requires SizeOk(f) && Packable(f.ltype) && LeafOk(f, v)
    requires wt == WT_PACKED || wt == WireType(f.ltype)
    ensures PackedForm(f, v).Some? && PackedForm(f, v) == LeafForm(f, v)
    ensures |PackedForm(f, v).value| > 0
    ensures ReadNum(f, wt, PackedForm(f, v).value + more) == Ok(v.n, more)
  {
    match f.ltype
    case LBool => ReadBoolOfForm(f, v, wt, more);
    case LVarint | LUVarint | LSVarint => ReadVarintOfForm(f, v, wt, more);
    case LFixed32 | LFixed64 => ReadFixedOfForm(f, v, wt, more);
  }

  lemma ReadPrefixed(bs: seq<byte>, more: seq<byte>)
    requires |bs| < TWO32
    ensures Read32(Prefixed(bs) + more) == Ok(|bs|, bs + more)
    ensures ReadFrame(Prefixed(bs) + more) == Ok(bs, more)
  {
    assert Prefixed(bs) + more == Shortest(|bs|) + (bs + more);
    RoundTrip32(|bs|, bs + more);
    assert (bs + more)[..|bs|] == bs && (bs + more)[|bs|..] == more;
  }

  lemma ReadBlobOfForm(f: Field, v: Value, more: seq<byte>)
    requires SizeOk(f) && IsBlob(f.ltype) && LeafOk(f, v)
    ensures LeafForm(f, v).Some?
    ensures ReadBlob(f, WT_STRING, LeafForm(f, v).value + more) == Ok(v.bytes, more)
  {
    var b := v.bytes;
    ReadPrefixed(b, more);
    assert (b + more)[..|b|] == b && (b + more)[|b|..] == more;
    if f.ltype.LString? { CStringOfClean(b, []); }
    if f.ltype.LFixedBytes? && |b| == 0 { assert b == Zeros(0) && b + more == more; }
  }

  lemma ReadTagOfForm(f: Field, wt: nat, more: seq<byte>)
    requires f.tag < 0x2000_0000 && wt < 8
    ensures ReadTag(Tag(f, wt) + more) == Ok((f.tag, wt), more)
  {
    var x := 8 * f.tag + wt;
    assert x / 8 == f.tag && x % 8 == wt;
    assert Read32(Tag(f, wt) + more) == Ok(x, more) by { RoundTrip32(x, more); }
  }

  lemma ReadPackedStep(f: Field, v: Value, es: seq<byte>, xs: seq<Value>)
    requires SizeOk(f) && Packable(f.ltype) && LeafOk(f, v)
    ensures PackedForm(f, v).Some?
    ensures ReadPacked(f, PackedForm(f, v).value + es, xs)
         == if |xs| < Capacity(f) then ReadPacked(f, es, xs + [v]) else None
  {
    ReadNumOfForm(f, v, WT_PACKED, es);
    var e := PackedForm(f, v).value;
    assert e + es != [] by { assert (e + es)[0] == e[0]; }
    assert v == Num(v.n);
  }

  lemma {:induction false} ReadPackedOfElements(f: Field, items: seq<Value>, xs: seq<Value>)
    requires SizeOk(f) && Packable(f.ltype)
    requires forall i :: 0 <= i < |items| ==> LeafOk(f, items[i])
    requires Elements(f, items).Some?
    ensures ReadPacked(f, Elements(f, items).value, xs)
         == if items == [] || |xs| + |items| <= Capacity(f) then Some(xs + items) else None
    decreases items
  {
    if items == [] {
      assert xs + items == xs;
    } else {
      var rest := items[1..];
      var es := Elements(f, rest).value;
      assert Elements(f, items).value == PackedForm(f, items[0]).value + es;
      ReadPackedStep(f, items[0], es, xs);
      if |xs| < Capacity(f) {
        ReadPackedOfElements(f, rest, xs + [items[0]]);
        assert (xs + [items[0]]) + rest == xs + items by { assert items == [items[0]] + rest; }
      }
    }
  }

  lemma {:induction false} MergeLeaves(T: Table, f: Field, items: seq<Value>)
    requires !f.ltype.LSubmsg?
    ensures MergeItems(T, f, items) == Some(items)
  {
    if items == [] {
    } else {
      MergeLeaves(T, f, items[1..]);
      assert items == [items[0]] + items[1..];
    }
  }

  // ----- required fields -----

  /** The ranks seen once every field from number i on has been met. */
  function MarkFrom(fields: seq<Field>, i: nat, seen: set<nat>): set<nat>
    decreases |fields| - i
  {
    if i >= |fields| then seen else MarkFrom(fields, i + 1, Mark(fields, i, seen))
  }

  lemma {:induction false} MarkFromCovers(fields: seq<Field>, i: nat, seen: set<nat>)
    requires i <= |fields|
    requires forall r :: 0 <= r < Rank(fields, i) && r < MAX_REQUIRED ==> r in seen
    ensures AllSeen(fields, MarkFrom(fields, i, seen))
    decreases |fields| - i
  {
    if i >= |fields| {
    } else {
      MarkFromCovers(fields, i + 1, Mark(fields, i, seen));
    }
  }

  // ----- decoding encoded fields -----

  /** What the decoder makes of a merge result at the head of the remaining bytes. */
  function Resume(T: Table, d: nat, more: seq<byte>, m: Option<seq<Slot>>, seen: set<nat>): Progress {
    match m
    case None => Stop
    case Some(ss) => Loop(T, d, more, ss, seen)
  }

  /** The same for a merge result that concerns field i only. */
  function ResumeSlot(
    T: Table, d: nat, i: nat, more: seq<byte>, ss: seq<Slot>, m: Option<Slot>, seen: set<nat>): Progress
    requires i < |At(T, d)| && i < |ss|
  {
    match m
    case None => Stop
    case Some(s) => Loop(T, d, more, ss[i := s], Mark(At(T, d), i, seen))
  }

  lemma {:induction false} ReadEncodedValue(T: Table, f: Field, v: Value, start: Value, more: seq<byte>)
    requires TableOk(T) && SizeOk(f) && ConformsValue(T, f, v, false)
    requires f.ltype.LSubmsg? ==> ConformsValue(T, f, start, true)
    requires Payload(T, f, v).Some? && ValueLengthsFit(T, f, v)
    ensures ReadValue(T, f, WireType(f.ltype), Payload(T, f, v).value + more, start)
         == match MergeValue(T, f, start, v) { case None => Fail case Some(x) => Ok(x, more) }
    decreases v, 0
  {
    if f.ltype.LSubmsg? {
      var e := EncodeFrom(T, f.sub, v.slots, 0).value;
      ReadPrefixed(e, more);
      LoopOfEncoded(T, f.sub, start.slots, v.slots, 0, [], {});
      assert e + [] == e;
      MarkFromCovers(At(T, f.sub), 0, {});
    } else if Packable(f.ltype) {
      ReadNumOfForm(f, v, WireType(f.ltype), more);
    } else {
      ReadBlobOfForm(f, v, more);
    }
  }

  /** One record, at the head of a frame, against one merge step of field i. */
  lemma LoopOfRecord(
    T: Table, d: nat, i: nat, f: Field, ss: seq<Slot>, wt: nat, p: seq<byte>, more: seq<byte>, seen: set<nat>)
    requires TableOk(T) && i < |At(T, d)| && f == At(T, d)[i] && |ss| == |At(T, d)| && wt < 8
    ensures Loop(T, d, Tag(f, wt) + p + more, ss, seen)
         == match ReadSlot(T, f, wt, p + more, ss[i])
            { case Fail => Stop
              case Ok(s, r) => Loop(T, d, r, ss[i := s], Mark(At(T, d), i, seen)) }
  {
    FieldOkAt(T, d, i);
    var bs := Tag(f, wt) + p + more;
    assert bs == Tag(f, wt) + (p + more);
    assert bs != [] by { assert bs[0] == Tag(f, wt)[0]; }
    ReadTagOfForm(f, wt, p + more);
    FindSorted(At(T, d), i);
  }

  lemma {:induction false} LoopOfEncodedRecords(
    T: Table, d: nat, i: nat, f: Field, ss: seq<Slot>, items: seq<Value>, more: seq<byte>, seen: set<nat>)
    requires TableOk(T) && i < |At(T, d)| && f == At(T, d)[i] && Conforms(T, d, ss, true)
    requires f.htype.Repeated? && !Packable(f.ltype)
    requires forall k :: 0 <= k < |items| ==> ConformsValue(T, f, items[k], false)
    requires Records(T, f, items).Some? && forall k :: 0 <= k < |items| ==> ValueLengthsFit(T, f, items[k])
    ensures Loop(T, d, Records(T, f, items).value + more, ss, seen)
         == ResumeSlot(T, d, i, more, ss, MergeSlot(T, d, f, ss[i], Many(items)), seen)
    decreases items, 1
  {
    FieldOkAt(T, d, i);
    assert ConformsSlot(T, d, f, ss[i], true);
    if items == [] {
      assert [] + more == more && ss[i := ss[i]] == ss;
    } else {
      var es := Records(T, f, items[1..]).value;
      assert Records(T, f, items).value + more == Record(T, f, items[0]).value + (es + more);
      LoopOfArrayRecord(T, d, i, f, ss, items[0], es + more, seen);
      var x := MergeValue(T, f, Fresh(T, f), items[0]);
      if |ss[i].items| < Capacity(f) && x.Some? {
        var ss' := ss[i := Many(ss[i].items + [x.value])];
        LoopOfEncodedRecords(T, d, i, f, ss', items[1..], more, seen);
        AppendOne(T, d, f, ss[i].items, items);
        StoredTwice(T, d, i, more, ss, ss'[i], MergeSlot(T, d, f, ss'[i], Many(items[1..])), seen);
      }
    }
  }

  /** Of two stores to the same member the second counts, and it is marked once. */
  lemma StoredTwice(
    T: Table, d: nat, i: nat, more: seq<byte>, ss: seq<Slot>, s: Slot, m: Option<Slot>, seen: set<nat>)
    requires i < |At(T, d)| && i < |ss|
    ensures ResumeSlot(T, d, i, more, ss[i := s], m, Mark(At(T, d), i, seen)) == ResumeSlot(T, d, i, more, ss, m, seen)
  {
    if m.Some? { assert ss[i := s][i := m.value] == ss[i := m.value]; }
    assert Mark(At(T, d), i, Mark(At(T, d), i, seen)) == Mark(At(T, d), i, seen);
  }

  /** One element of an unpacked array. */
  lemma {:induction false} LoopOfArrayRecord(
    T: Table, d: nat, i: nat, f: Field, ss: seq<Slot>, v: Value, more: seq<byte>, seen: set<nat>)
    requires TableOk(T) && i < |At(T, d)| && f == At(T, d)[i] && Conforms(T, d, ss, true)
    requires f.htype.Repeated? && !Packable(f.ltype) && ConformsValue(T, f, v, false)
    requires Record(T, f, v).Some? && ValueLengthsFit(T, f, v)
    ensures ss[i].Many?
    ensures var x := MergeValue(T, f, Fresh(T, f), v);
            && Loop(T, d, Record(T, f, v).value + more, ss, seen)
               == ResumeSlot(T, d, i, more, ss,
                    if |ss[i].items| >= Capacity(f) || x.None? then None else Some(Many(ss[i].items + [x.value])), seen)
            && (|ss[i].items| < Capacity(f) && x.Some? ==>
                 Conforms(T, d, ss[i := Many(ss[i].items + [x.value])], true))
    decreases v, 1
  {
    FieldOkAt(T, d, i);
    assert ConformsSlot(T, d, f, ss[i], true);
    var p := Payload(T, f, v).value;
    LoopOfRecord(T, d, i, f, ss, WireType(f.ltype), p, more, seen);
    if |ss[i].items| < Capacity(f) {
      if f.ltype.LSubmsg? { FreshConforms(T, f); }
      ReadEncodedValue(T, f, v, Fresh(T, f), more);
      if MergeValue(T, f, Fresh(T, f), v).Some? {
        ReadSlotConforms(T, d, f, WireType(f.ltype), p + more, ss[i]);
      }
    }
  }

  /** Merging a nonempty array into `had` is merging its first entry, then the others. */
  lemma AppendOne(T: Table, d: nat, f: Field, had: seq<Value>, items: seq<Value>)
    requires items != [] && MergeValue(T, f, Fresh(T, f), items[0]).Some?
    requires |had| < Capacity(f)
    ensures MergeSlot(T, d, f, Many(had), Many(items))
         == MergeSlot(T, d, f, Many(had + [MergeValue(T, f, Fresh(T, f), items[0]).value]), Many(items[1..]))
  {
    var x := MergeValue(T, f, Fresh(T, f), items[0]).value;
    var rest := MergeItems(T, f, items[1..]);
    if rest.Some? { assert had + ([x] + rest.value) == (had + [x]) + rest.value; }
    if items[1..] == [] { assert had + ([x] + []) == had + [x]; }
  }

  lemma {:induction false} LoopOfEncodedSlot(
    T: Table, d: nat, i: nat, f: Field, ss: seq<Slot>, s: Slot, more: seq<byte>, seen: set<nat>)
    requires TableOk(T) && i < |At(T, d)| && f == At(T, d)[i] && Conforms(T, d, ss, true)
    requires ConformsSlot(T, d, f, s, false)
    requires SlotForm(T, d, f, s).Some? && SlotLengthsFit(T, d, f, s)
    ensures Loop(T, d, SlotForm(T, d, f, s).value + more, ss, seen)
         == ResumeSlot(T, d, i, more, ss, MergeSlot(T, d, f, ss[i], s), seen)
    decreases s, 2
  {
    FieldOkAt(T, d, i);
    assert ConformsSlot(T, d, f, ss[i], true);
    if SlotForm(T, d, f, s) == Some([]) {
      MergeOfAbsent(T, d, f, s, ss[i]);
      assert [] + more == more && ss[i := ss[i]] == ss;
    } else {
      match s
      case One(v) => LoopOfEncodedSingle(T, d, i, f, ss, v, ss[i].v, more, seen);
      case Opt(_, v) => LoopOfEncodedSingle(T, d, i, f, ss, v, ss[i].v, more, seen);
      case Ptr(p) =>
        if f.ltype.LSubmsg? { FreshConforms(T, f); }
        LoopOfEncodedSingle(T, d, i, f, ss, p.value, Fresh(T, f), more, seen);
      case Many(items) =>
        if Packable(f.ltype) {
          LoopOfPacked(T, d, i, f, ss, items, more, seen);
        } else {
          LoopOfEncodedRecords(T, d, i, f, ss, items, more, seen);
        }
    }
  }

  /** Merging what is not written changes nothing. */
  lemma MergeOfAbsent(T: Table, d: nat, f: Field, s: Slot, c: Slot)
    requires SlotForm(T, d, f, s) == Some([]) && ConformsSlot(T, d, f, s, false)
    ensures MergeSlot(T, d, f, c, s) == Some(c)
    ensures !f.htype.Required?
  {
    EmptySlotIsDefault(T, d, f, s);
  }

  lemma {:induction false} LoopOfEncodedSingle(
    T: Table, d: nat, i: nat, f: Field, ss: seq<Slot>, v: Value, start: Value, more: seq<byte>, seen: set<nat>)
    requires TableOk(T) && i < |At(T, d)| && f == At(T, d)[i] && Conforms(T, d, ss, true)
    requires ConformsValue(T, f, v, false) && !ss[i].Many?
    requires start == if ss[i].Ptr? then Fresh(T, f) else ss[i].v
    requires f.ltype.LSubmsg? ==> ConformsValue(T, f, start, true)
    requires Record(T, f, v).Some? && ValueLengthsFit(T, f, v)
    ensures Loop(T, d, Record(T, f, v).value + more, ss, seen)
         == ResumeSlot(T, d, i, more, ss, StoredLike(ss[i], MergeValue(T, f, start, v)), seen)
    decreases v, 1
  {
    FieldOkAt(T, d, i);
    LoopOfRecord(T, d, i, f, ss, WireType(f.ltype), Payload(T, f, v).value, more, seen);
    ReadEncodedValue(T, f, v, start, more);
  }

  /** A merged value in the kind of storage that c has. */
  function StoredLike(c: Slot, x: Option<Value>): Option<Slot> {
    if x.None? then None
    else match c { case One(_) => Some(One(x.value)) case Opt(_, _) => Some(Opt(true, x.value)) case _ => Some(Ptr(x)) }
  }

  lemma LoopOfPacked(
    T: Table, d: nat, i: nat, f: Field, ss: seq<Slot>, items: seq<Value>, more: seq<byte>, seen: set<nat>)
    requires TableOk(T) && i < |At(T, d)| && f == At(T, d)[i] && Conforms(T, d, ss, true) && items != []
    requires ConformsSlot(T, d, f, Many(items), false) && Packable(f.ltype)
    requires ArrayForm(T, f, items).Some? && SlotLengthsFit(T, d, f, Many(items))
    ensures Loop(T, d, ArrayForm(T, f, items).value + more, ss, seen)
         == ResumeSlot(T, d, i, more, ss, MergeSlot(T, d, f, ss[i], Many(items)), seen)
  {
    FieldOkAt(T, d, i);
    assert ConformsSlot(T, d, f, ss[i], true);
    var e := Elements(f, items).value;
    LoopOfRecord(T, d, i, f, ss, WT_STRING, Prefixed(e), more, seen);
    ReadPrefixed(e, more);
    ReadPackedOfElements(f, items, ss[i].items);
    MergeLeaves(T, f, items);
  }

  /**
    The master lemma: decoding the encoded fields from number i on, followed
    by any bytes, continues from the merge of those fields, and fails exactly
    when the merge does not fit.
   */
  lemma {:induction false} LoopOfEncoded(
    T: Table, d: nat, ss: seq<Slot>, m: seq<Slot>, i: nat, more: seq<byte>, seen: set<nat>)
    requires TableOk(T) && Conforms(T, d, ss, true) && Conforms(T, d, m, false) && i <= |m|
    requires EncodeFrom(T, d, m, i).Some? && LengthsFit(T, d, m)
    ensures Loop(T, d, EncodeFrom(T, d, m, i).value + more, ss, seen)
         == Resume(T, d, more, MergeFrom(T, d, ss, m, i), MarkFrom(At(T, d), i, seen))
    decreases m, 3, |m| - i
  {
    if i == |m| {
      assert [] + more == more;
    } else {
      var f := At(T, d)[i];
      var e, es := SlotForm(T, d, f, m[i]).value, EncodeFrom(T, d, m, i + 1).value;
      assert EncodeFrom(T, d, m, i).value + more == e + (es + more);
      LoopOfEncodedSlot(T, d, i, f, ss, m[i], es + more, seen);
      var x := MergeSlot(T, d, f, ss[i], m[i]);
      if x.Some? {
        MergedSlotConforms(T, d, i, f, ss, m[i], seen);
        LoopOfEncoded(T, d, ss[i := x.value], m, i + 1, more, Mark(At(T, d), i, seen));
      }
    }
  }

  /** A merge step keeps the structure conforming, because decoding does. */
  lemma MergedSlotConforms(T: Table, d: nat, i: nat, f: Field, ss: seq<Slot>, s: Slot, seen: set<nat>)
    requires TableOk(T) && i < |At(T, d)| && f == At(T, d)[i] && Conforms(T, d, ss, true)
    requires ConformsSlot(T, d, f, s, false)
    requires SlotForm(T, d, f, s).Some? && SlotLengthsFit(T, d, f, s)
    requires MergeSlot(T, d, f, ss[i], s).Some?
    ensures Conforms(T, d, ss[i := MergeSlot(T, d, f, ss[i], s).value], true)
    decreases s, 3
  {
    var e := SlotForm(T, d, f, s).value;
    LoopOfEncodedSlot(T, d, i, f, ss, s, [], seen);
    LoopConforms(T, d, e + [], ss, seen);
  }

  // ----- theorems -----

  /** Decoding an encoded structure into any conforming one merges it in, or fails when an array overflows. */
  lemma DecodeIntoOfEncode(T: Table, d: nat, c: seq<Slot>, m: seq<Slot>)
    requires TableOk(T) && Conforms(T, d, c, true) && Conforms(T, d, m, false)
    requires Encode(T, d, m).Some? && LengthsFit(T, d, m)
    ensures DecodeInto(T, d, Encode(T, d, m).value, c) == Merge(T, d, c, m)
  {
    var e := Encode(T, d, m).value;
    LoopOfEncoded(T, d, c, m, 0, [], {});
    assert e + [] == e;
    MarkFromCovers(At(T, d), 0, {});
  }
}
