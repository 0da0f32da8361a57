/**
  The largest encoding of a message, as a function of its descriptor: no
  conforming structure exceeds it, and one attains it.
 */
module LargestEncoding {
  import opened Arithmetic
  import opened Wire
  import opened Varint
  import opened Descriptor
  import opened Encoding

  // ----- leaves -----

  /** The most bytes a number takes: the third column of the generator's table `datatypes`. */
  function NumberSize(ltype: LType, size: nat): nat {
    match ltype
    case LBool => 1
    case LFixed32 => 4
    case LFixed64 => 8
    case LUVarint | LSVarint => if size == 1 then 2 else if size == 2 then 3 else if size == 4 then 5 else 10
    case _ => 10
  }

  lemma {:induction false} ShortestWithin(n: nat, k: nat)
    requires k >= 1 && n < Weight(k)
    ensures |Shortest(n)| <= k
    decreases k
  {
    if n < 128 {
    } else {
      if k > 1 { ShortestWithin(n / 128, k - 1); }
    }
  }

  lemma NumberWithin(f: Field, n: int)
    requires SizeOk(f) && Packable(f.ltype) && LeafOk(f, Num(n))
    ensures PackedForm(f, Num(n)).Some? && |PackedForm(f, Num(n)).value| <= NumberSize(f.ltype, f.dataSize)
    ensures LeafForm(f, Num(n)).Some? && |LeafForm(f, Num(n)).value| <= NumberSize(f.ltype, f.dataSize)
  {
    Weights();
    if !f.ltype.LFixed32? && !f.ltype.LFixed64? {
      var m: nat := if f.ltype.LSVarint? then ZigZag(n) else n % TWO64;
      if f.ltype.LVarint? {
        RoundTrip64(m, []);
      } else if f.ltype.LBool? {
        assert m < 128;
      } else if f.dataSize == 8 {
        RoundTrip64(m, []);
      } else {
        assert m < 2 * HalfRange(f.dataSize);
        ShortestWithin(m, NumberSize(f.ltype, f.dataSize));
      }
    }
  }

  /** The wire type does not change the length of a tag. */
  lemma TagWithin(f: Field, wt: nat)
    requires wt < 8
    ensures |Tag(f, wt)| == |Shortest(8 * f.tag)|
  {
    TagLength(f.tag, wt);
  }

  lemma TagLength(tag: nat, wt: nat)
    requires wt < 8
    ensures |Shortest(8 * tag + wt)| == |Shortest(8 * tag)|
  {
    if tag >= 16 {
      assert (8 * tag + wt) / 128 == 8 * tag / 128;
    }
  }

  // ----- the largest encoding -----

  /** Static fields only, here and in all submessages. */
  predicate AllStatic(T: Table, d: nat)
    decreases d, 1
  {
    forall i :: 0 <= i < |At(T, d)| ==> StaticField(T, d, At(T, d)[i])
  }

  predicate StaticField(T: Table, d: nat, f: Field)
    decreases d, 0
  {
    f.atype.Static? && (f.ltype.LSubmsg? ==> f.sub < d && AllStatic(T, f.sub))
  }

  /** A length prefix and what it announces. */
  function WithPrefix(n: nat): nat {
    |Shortest(n)| + n
  }

  /** The most bytes a string or byte array member has room for. */
  function MostBytes(f: Field): nat {
    match f.ltype
    case LString => if f.dataSize > 0 then f.dataSize - 1 else 0
    case LBytes => if f.dataSize > BYTES_OFFSET then f.dataSize - BYTES_OFFSET else 0
    case _ => f.dataSize
  }

  function MaxPayload(T: Table, d: nat, f: Field): nat
    decreases d, 0
  {
    if Packable(f.ltype) then NumberSize(f.ltype, f.dataSize)
    else if IsBlob(f.ltype) then WithPrefix(MostBytes(f))
    else if f.sub < d then WithPrefix(MaxMessage(T, f.sub, 0))
    else 0
  }

  function MaxRecord(T: Table, d: nat, f: Field): nat
    decreases d, 1
  {
    |Shortest(8 * f.tag)| + MaxPayload(T, d, f)
  }

  /** A proto3 member that has only its default value, and so is never written. */
  predicate AlwaysAbsent(T: Table, d: nat, f: Field)
    decreases d, 1
  {
    && f.htype.Optional? && !Flagged(f) && !HasDefaults(At(T, d))
    && if f.ltype.LSubmsg? then f.sub < d && MaxMessage(T, f.sub, 0) == 0 else IsBlob(f.ltype) && MostBytes(f) == 0
  }

  /** The most bytes a static field takes. */
  function MaxSlot(T: Table, d: nat, f: Field): nat
    decreases d, 2
  {
    if f.htype.Repeated? then
      if f.arraySize == 0 then 0
      else if Packable(f.ltype) then |Shortest(8 * f.tag)| + WithPrefix(NumberSize(f.ltype, f.dataSize) * f.arraySize)
      else MaxRecord(T, d, f) * f.arraySize
    else if AlwaysAbsent(T, d, f) then 0
    else MaxRecord(T, d, f)
  }

  /** The most bytes the fields from number i on take. */
  function MaxMessage(T: Table, d: nat, i: nat): nat
    decreases d, 3, |At(T, d)| - i
  {
    if i >= |At(T, d)| then 0 else MaxSlot(T, d, At(T, d)[i]) + MaxMessage(T, d, i + 1)
  }

  // ----- nothing exceeds it -----

  lemma DelimitedGrows(m: nat, n: nat)
    requires m <= n
    ensures WithPrefix(m) <= WithPrefix(n)
    ensures m < n ==> WithPrefix(m) < WithPrefix(n)
  {
    ShortestGrows(m, n);
  }

  lemma OneLess(e: int, n: int)
    ensures e * n == e + e * (n - 1)
  {
  }

  /** One part, then n - 1 parts of at most e bytes. */
  lemma PartsFit(a: int, b: int, e: int, n: int)
    requires a <= e && b <= e * (n - 1)
    ensures a + b <= e * n
  {
    OneLess(e, n);
  }

  lemma Scaled(e: nat, m: nat, n: nat)
    requires m <= n
    ensures e * m <= e * n
  {
    MulMonotone(m, n, e);
  }

  lemma {:induction false} ElementsWithin(f: Field, items: seq<Value>)
    requires SizeOk(f) && Packable(f.ltype) && forall i :: 0 <= i < |items| ==> LeafOk(f, items[i])
    ensures Elements(f, items).Some?
    ensures |Elements(f, items).value| <= NumberSize(f.ltype, f.dataSize) * |items|
  {
    if items == [] {
    } else {
      NumberWithin(f, items[0].n);
      ElementsWithin(f, items[1..]);
      var e, es := PackedForm(f, items[0]).value, Elements(f, items[1..]).value;
      PartsFit(|e|, |es|, NumberSize(f.ltype, f.dataSize), |items|);
    }
  }

  lemma LeafWithin(T: Table, d: nat, f: Field, v: Value)
    requires SizeOk(f) && f.atype.Static? && LeafOk(f, v)
    ensures LeafForm(f, v).Some? && |LeafForm(f, v).value| <= MaxPayload(T, d, f)
  {
    if Packable(f.ltype) { NumberWithin(f, v.n); } else { DelimitedGrows(|v.bytes|, MostBytes(f)); }
  }

  /** A single value with its tag. */
  lemma {:induction false} RecordWithin(T: Table, d: nat, f: Field, v: Value)
    requires TableOk(T) && SizeOk(f) && StaticField(T, d, f) && ConformsValue(T, f, v, false)
    ensures Record(T, f, v).Some? && |Record(T, f, v).value| <= MaxRecord(T, d, f)
    decreases v, 1
  {
    TagWithin(f, WireType(f.ltype));
    if f.ltype.LSubmsg? {
      MessageWithin(T, f.sub, v.slots, 0);
      DelimitedGrows(|Encode(T, f.sub, v.slots).value|, MaxMessage(T, f.sub, 0));
    } else {
      LeafWithin(T, d, f, v);
    }
  }

  lemma {:induction false} RecordsWithin(T: Table, d: nat, f: Field, items: seq<Value>)
    requires TableOk(T) && SizeOk(f) && StaticField(T, d, f)
    requires forall i :: 0 <= i < |items| ==> ConformsValue(T, f, items[i], false)
    ensures Records(T, f, items).Some? && |Records(T, f, items).value| <= MaxRecord(T, d, f) * |items|
    decreases items, 2
  {
    if items == [] {
    } else {
      RecordWithin(T, d, f, items[0]);
      RecordsWithin(T, d, f, items[1..]);
      PartsFit(|Record(T, f, items[0]).value|, |Records(T, f, items[1..]).value|, MaxRecord(T, d, f), |items|);
    }
  }

  lemma {:induction false} ArrayWithin(T: Table, d: nat, f: Field, items: seq<Value>)
    requires TableOk(T) && SizeOk(f) && StaticField(T, d, f) && ConformsSlot(T, d, f, Many(items), false)
    ensures ArrayForm(T, f, items).Some? && |ArrayForm(T, f, items).value| <= MaxSlot(T, d, f)
    decreases items, 3
  {
    if items == [] {
    } else if Packable(f.ltype) {
      var e := NumberSize(f.ltype, f.dataSize);
      TagWithin(f, WT_STRING);
      ElementsWithin(f, items);
      Scaled(e, |items|, f.arraySize);
      DelimitedGrows(|Elements(f, items).value|, e * f.arraySize);
      assert ArrayForm(T, f, items) == Some(Tag(f, WT_STRING) + Prefixed(Elements(f, items).value));
    } else {
      RecordsWithin(T, d, f, items);
      Scaled(MaxRecord(T, d, f), |items|, f.arraySize);
    }
  }

  /** A member that has only its default value is left out. */
  lemma {:induction false} AbsentIsLeftOut(T: Table, d: nat, f: Field, s: Slot)
    requires TableOk(T) && SizeOk(f) && StaticField(T, d, f) && ConformsSlot(T, d, f, s, false)
    requires s.One? && AlwaysAbsent(T, d, f)
    ensures LeftOut(T, d, f, s)
    decreases s, 4
  {
    if !LeftOut(T, d, f, s) && f.ltype.LSubmsg? {
      MessageWithin(T, f.sub, s.v.slots, 0);
      EmptyIffDefault(T, f.sub, s.v.slots);
    }
  }

  lemma {:induction false} SlotWithin(T: Table, d: nat, f: Field, s: Slot)
    requires TableOk(T) && SizeOk(f) && StaticField(T, d, f) && ConformsSlot(T, d, f, s, false)
    ensures SlotForm(T, d, f, s).Some? && |SlotForm(T, d, f, s).value| <= MaxSlot(T, d, f)
    decreases s, 5
  {
    match s
    case One(v) =>
      if AlwaysAbsent(T, d, f) { AbsentIsLeftOut(T, d, f, s); }
      if !LeftOut(T, d, f, s) { RecordWithin(T, d, f, v); }
    case Opt(has, v) => if has { RecordWithin(T, d, f, v); }
    case Many(items) => ArrayWithin(T, d, f, items);
    case Ptr(p) =>
  }

  /** No conforming structure is encoded in more bytes than the largest encoding has. */
  lemma {:induction false} MessageWithin(T: Table, d: nat, ss: seq<Slot>, i: nat)
    requires TableOk(T) && AllStatic(T, d) && Conforms(T, d, ss, false)
    ensures EncodeFrom(T, d, ss, i).Some? && |EncodeFrom(T, d, ss, i).value| <= MaxMessage(T, d, i)
    decreases ss, 6, |ss| - i
  {
    if i >= |ss| {
    } else {
      FieldOkAt(T, d, i);
      assert StaticField(T, d, At(T, d)[i]);
      SlotWithin(T, d, At(T, d)[i], ss[i]);
      MessageWithin(T, d, ss, i + 1);
    }
  }

  // ----- and one structure attains it -----

  /** A number of the type that takes the most bytes. */
  function MostNumber(f: Field): int {
    match f.ltype
    case LVarint => -1
    case LUVarint => if IsIntSize(f.dataSize) then 2 * HalfRange(f.dataSize) - 1 else 1
    case LSVarint => if IsIntSize(f.dataSize) then -HalfRange(f.dataSize) else 1
    case _ => 1
  }

  function MostValue(T: Table, d: nat, f: Field): Value
    decreases d, 0
  {
    if Packable(f.ltype) then Num(MostNumber(f))
    else if IsBlob(f.ltype) then Blob(seq(MostBytes(f), _ => 1))
    else Msg(if f.sub < d then MostMessage(T, f.sub) else [])
  }

  function MostSlot(T: Table, d: nat, f: Field): Slot
    decreases d, 1
  {
    if f.htype.Repeated? then Many(seq(f.arraySize, _ => MostValue(T, d, f)))
    else if Flagged(f) then Opt(true, MostValue(T, d, f))
    else One(MostValue(T, d, f))
  }

  /** All arrays full, all strings and byte arrays as long as they can be, all numbers large. */
  function MostMessage(T: Table, d: nat): (ss: seq<Slot>)
    ensures |ss| == |At(T, d)|
    decreases d, 2
  {
    seq(|At(T, d)|, i requires 0 <= i < |At(T, d)| => MostSlot(T, d, At(T, d)[i]))
  }

  lemma {:induction false} ShortestBeyond(n: nat, k: nat)
    requires k >= 1 && n >= Weight(k)
    ensures |Shortest(n)| > k
    decreases k
  {
    if k == 1 {
      Weights();
    } else {
      assert Weight(k) == 128 * Weight(k - 1);
      ShortestBeyond(n / 128, k - 1);
    }
  }

  /** The number as it is written takes all the bytes of its type. */
  lemma UnsignedIsLong(size: nat)
    requires IsIntSize(size)
    ensures |Shortest(2 * HalfRange(size) - 1)|
         == if size == 1 then 2 else if size == 2 then 3 else if size == 4 then 5 else 10
  {
    Weights();
    var n: nat := 2 * HalfRange(size) - 1;
    if size == 1 {
      ShortestBeyond(n, 1);
      ShortestWithin(n, 2);
    } else if size == 2 {
      ShortestBeyond(n, 2);
      ShortestWithin(n, 3);
    } else if size == 4 {
      ShortestBeyond(n, 4);
      ShortestWithin(n, 5);
    } else {
      AllOnes();
    }
  }

  /** The form of -1, and of the largest 64-bit number. */
  lemma AllOnes()
    ensures |Shortest(TWO64 - 1)| == 10
  {
    LastWeight();
    ShortestBeyond(TWO64 - 1, 9);
    RoundTrip64(TWO64 - 1, []);
  }

  lemma MostVarintAttains(f: Field)
    requires SizeOk(f) && (f.ltype.LVarint? || f.ltype.LUVarint? || f.ltype.LSVarint?)
    ensures LeafOk(f, Num(MostNumber(f))) && VarintForm(f, MostNumber(f)).Some?
    ensures |VarintForm(f, MostNumber(f)).value| == NumberSize(f.ltype, f.dataSize)
  {
    if f.ltype.LVarint? {
      AllOnes();
      assert -1 % TWO64 == TWO64 - 1;
    } else {
      UnsignedIsLong(f.dataSize);
      assert f.ltype.LUVarint? ==> MostNumber(f) % TWO64 == MostNumber(f);
    }
  }

  lemma MostNumberAttains(f: Field)
    requires SizeOk(f) && Packable(f.ltype)
    ensures LeafOk(f, Num(MostNumber(f)))
    ensures PackedForm(f, Num(MostNumber(f))).Some?
    ensures |PackedForm(f, Num(MostNumber(f))).value| == NumberSize(f.ltype, f.dataSize)
    ensures LeafForm(f, Num(MostNumber(f))) == PackedForm(f, Num(MostNumber(f)))
  {
    match f.ltype
    case LVarint | LUVarint | LSVarint => MostVarintAttains(f);
    case LBool => assert 1 % TWO64 == 1;
    case _ =>
  }

  lemma {:induction false} ElementsAttain(f: Field, n: nat)
    requires SizeOk(f) && Packable(f.ltype)
    ensures Elements(f, seq(n, _ => Num(MostNumber(f)))).Some?
    ensures |Elements(f, seq(n, _ => Num(MostNumber(f)))).value| == NumberSize(f.ltype, f.dataSize) * n
  {
    if n == 0 {
    } else {
      var items := seq(n, _ => Num(MostNumber(f)));
      assert items[1..] == seq(n - 1, _ => Num(MostNumber(f)));
      MostNumberAttains(f);
      ElementsAttain(f, n - 1);
      OneLess(NumberSize(f.ltype, f.dataSize), n);
    }
  }

  lemma {:induction false} RecordsAttain(T: Table, f: Field, v: Value, n: nat)
    requires Record(T, f, v).Some?
    ensures Records(T, f, seq(n, _ => v)).Some?
    ensures |Records(T, f, seq(n, _ => v)).value| == |Record(T, f, v).value| * n
  {
    if n == 0 {
    } else {
      assert seq(n, _ => v)[1..] == seq(n - 1, _ => v);
      RecordsAttain(T, f, v, n - 1);
      OneLess(|Record(T, f, v).value|, n);
    }
  }

  lemma {:induction false} MostValueAttains(T: Table, d: nat, f: Field)
    requires TableOk(T) && SizeOk(f) && StaticField(T, d, f)
    ensures ConformsValue(T, f, MostValue(T, d, f), false)
    ensures Record(T, f, MostValue(T, d, f)).Some?
    ensures |Record(T, f, MostValue(T, d, f)).value| == MaxRecord(T, d, f)
    decreases d, 0
  {
    TagWithin(f, WireType(f.ltype));
    if f.ltype.LSubmsg? {
      MostMessageAttains(T, f.sub, 0);
    } else if Packable(f.ltype) {
      MostNumberAttains(f);
    }
  }

  lemma {:induction false} MostArrayAttains(T: Table, d: nat, f: Field)
    requires TableOk(T) && SizeOk(f) && StaticField(T, d, f) && f.htype.Repeated?
    ensures ConformsSlot(T, d, f, MostSlot(T, d, f), false) && SlotForm(T, d, f, MostSlot(T, d, f)).Some?
    ensures |SlotForm(T, d, f, MostSlot(T, d, f)).value| == MaxSlot(T, d, f)
    decreases d, 1
  {
    var v := MostValue(T, d, f);
    var items := seq(f.arraySize, _ => v);
    assert MostSlot(T, d, f) == Many(items);
    MostValueAttains(T, d, f);
    if f.arraySize == 0 {
    } else if Packable(f.ltype) {
      TagWithin(f, WT_STRING);
      assert items == seq(f.arraySize, _ => Num(MostNumber(f)));
      ElementsAttain(f, f.arraySize);
    } else {
      RecordsAttain(T, f, v, f.arraySize);
    }
  }

  /** The largest value of a proto3 member is left out only if there is no other. */
  lemma {:induction false} MostIsWritten(T: Table, d: nat, f: Field)
    requires TableOk(T) && SizeOk(f) && StaticField(T, d, f) && !f.htype.Repeated? && !Flagged(f)
    ensures LeftOut(T, d, f, One(MostValue(T, d, f))) <==> AlwaysAbsent(T, d, f)
    decreases d, 1
  {
    MostValueAttains(T, d, f);
    if f.ltype.LSubmsg? {
      MostMessageAttains(T, f.sub, 0);
      EmptyIffDefault(T, f.sub, MostMessage(T, f.sub));
    }
  }

  lemma {:induction false} MostSlotAttains(T: Table, d: nat, f: Field)
    requires TableOk(T) && SizeOk(f) && StaticField(T, d, f)
    ensures ConformsSlot(T, d, f, MostSlot(T, d, f), false) && SlotForm(T, d, f, MostSlot(T, d, f)).Some?
    ensures |SlotForm(T, d, f, MostSlot(T, d, f)).value| == MaxSlot(T, d, f)
    decreases d, 2
  {
    if f.htype.Repeated? {
      MostArrayAttains(T, d, f);
    } else {
      MostValueAttains(T, d, f);
      if !Flagged(f) { MostIsWritten(T, d, f); }
    }
  }

  /** The largest encoding is that of a conforming structure. */
  lemma {:induction false} MostMessageAttains(T: Table, d: nat, i: nat)
    requires TableOk(T) && AllStatic(T, d) && i <= |At(T, d)|
    ensures Conforms(T, d, MostMessage(T, d), false)
    ensures EncodeFrom(T, d, MostMessage(T, d), i).Some?
    ensures |EncodeFrom(T, d, MostMessage(T, d), i).value| == MaxMessage(T, d, i)
    decreases d, 3, |At(T, d)| - i
  {
    var ss := MostMessage(T, d);
    forall k | 0 <= k < |ss|
      ensures ConformsSlot(T, d, At(T, d)[k], ss[k], false)
      ensures SlotForm(T, d, At(T, d)[k], ss[k]).Some?
      ensures |SlotForm(T, d, At(T, d)[k], ss[k]).value| == MaxSlot(T, d, At(T, d)[k])
    {
      FieldOkAt(T, d, k);
      assert StaticField(T, d, At(T, d)[k]);
      MostSlotAttains(T, d, At(T, d)[k]);
    }
    if i == |At(T, d)| {
    } else {
      MostMessageAttains(T, d, i + 1);
    }
  }
}
