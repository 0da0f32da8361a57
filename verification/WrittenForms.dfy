/**
  What the encoder writes, byte by byte: the tag of each field type with its
  wire type in figures, the payload of each value, arrays packed and unpacked,
  and the values for which nothing is written at all.
 */
module WrittenForms {
  import opened Wire
  import opened Varint
  import opened Descriptor
  import opened Encoding
  import opened WireFormat
  import Arithmetic
  import OutputStream

  // ----- single values -----

  lemma IsOwnWord(x: int)
    requires -0x8000_0000_0000_0000 <= x < 0x1_0000_0000_0000_0000
    ensures x % TWO64 == if x < 0 then x + 0x1_0000_0000_0000_0000 else x
  {
  }

  lemma IsOwnResidue(x: nat, m: nat)
    requires x < m
    ensures x % m == x
  {
  }

  lemma TopByte(x: nat, p: nat)
    requires p > 0 && x < 0x100 * p
    ensures x / p % 0x100 == x / p
  {
    Arithmetic.DivDiv(x, p, 0x100);
    assert x / (p * 0x100) == 0;
  }

  /** int32, int64, uint32 and uint64: wire type 0 and the number, negative ones as 64-bit words. */
  lemma NumberIsWritten(T: Table, f: Field, x: int)
    requires (f.ltype.LVarint? || f.ltype.LUVarint?) && SizeOk(f)
    requires -0x8000_0000_0000_0000 <= x < 0x1_0000_0000_0000_0000
    ensures Record(T, f, Num(x))
         == Some(Shortest(8 * f.tag) + Shortest(if x < 0 then x + 0x1_0000_0000_0000_0000 else x))
  {
    IsOwnWord(x);
  }

  /** sint32 and sint64: 0, -1, 1, -2 as 0, 1, 2, 3. */
  lemma ZigZagIsWritten(T: Table, f: Field, x: int)
    requires f.ltype.LSVarint? && SizeOk(f)
    ensures Record(T, f, Num(x)) == Some(Shortest(8 * f.tag) + Shortest(if x < 0 then -2 * x - 1 else 2 * x))
  {
  }

  lemma WordStandsFor(f: Field, x: int, n: nat)
    requires (f.ltype.LVarint? && IsInt(x, f.dataSize)) || (f.ltype.LUVarint? && IsUInt(x, f.dataSize))
    requires n == if x < 0 then x + 0x1_0000_0000_0000_0000 else x
    ensures StandsFor(f, n, x)
  {
    assert x - n == if x < 0 then -0x1_0000_0000_0000_0000 else 0;
  }

  /** Whatever is written stands for what was meant. */
  lemma WrittenStandsFor(T: Table, f: Field, x: int) returns (n: nat)
    requires f.ltype.LVarint? || f.ltype.LUVarint? || f.ltype.LSVarint?
    requires SizeOk(f) && LeafOk(f, Num(x))
    ensures Record(T, f, Num(x)) == Some(Shortest(8 * f.tag) + Shortest(n))
    ensures n < 0x1_0000_0000_0000_0000 && StandsFor(f, n, x)
  {
    if f.ltype.LSVarint? {
      ZigZagIsWritten(T, f, x);
      n := if x < 0 then -2 * x - 1 else 2 * x;
    } else {
      NumberIsWritten(T, f, x);
      n := if x < 0 then x + 0x1_0000_0000_0000_0000 else x;
      WordStandsFor(f, x, n);
    }
  }

  lemma BoolIsWritten(T: Table, f: Field, x: int)
    requires f.ltype.LBool?
    ensures Record(T, f, Num(x)) == Some(Shortest(8 * f.tag) + [if x == 0 then 0 else 1])
  {
  }

  lemma FixedIsWord(f: Field, x: nat)
    requires f.dataSize == 4 || f.dataSize == 8
    requires x < if f.dataSize == 4 then 0x1_0000_0000 else 0x1_0000_0000_0000_0000
    ensures FixedForm(f, x) == Some(LittleEndian(x, f.dataSize))
  {
    IsOwnResidue(x, if f.dataSize == 4 then TWO32 else TWO64);
  }

  /** float, fixed32 and sfixed32: wire type 5 and four bytes. */
  lemma Fixed32IsWritten(T: Table, f: Field, x: nat)
    requires f.ltype.LFixed32? && f.dataSize == 4 && x < 0x1_0000_0000
    ensures Record(T, f, Num(x))
         == Some(Shortest(8 * f.tag + 5) + [x % 0x100, x / 0x100 % 0x100, x / 0x1_0000 % 0x100, x / 0x100_0000])
  {
    FixedIsWord(f, x);
    OutputStream.Bytes4(x);
    TopByte(x, 0x100_0000);
  }

  /** double, fixed64 and sfixed64: wire type 1 and eight bytes. */
  lemma Fixed64IsWritten(T: Table, f: Field, x: nat)
    requires f.ltype.LFixed64? && f.dataSize == 8 && x < 0x1_0000_0000_0000_0000
    ensures Record(T, f, Num(x))
         == Some(Shortest(8 * f.tag + 1) + [
                   x % 0x100, x / 0x100 % 0x100, x / 0x1_0000 % 0x100, x / 0x100_0000 % 0x100,
                   x / 0x1_0000_0000 % 0x100, x / 0x100_0000_0000 % 0x100,
                   x / 0x1_0000_0000_0000 % 0x100, x / 0x100_0000_0000_0000])
  {
    FixedIsWord(f, x);
    OutputStream.Bytes8(x);
    TopByte(x, 0x100_0000_0000_0000);
  }

  /** Strings and byte arrays: wire type 2, length and bytes, if the member can hold them. */
  lemma BlobIsWritten(T: Table, f: Field, b: seq<byte>)
    requires IsBlob(f.ltype)
    ensures Record(T, f, Blob(b))
         == if match f.ltype
               case LBytes => f.atype.Static? && |b| + 4 > f.dataSize
               case LString => f.atype.Static? && |b| + 1 > f.dataSize
               case _ => |b| != f.dataSize
            then None
            else Some(Shortest(8 * f.tag + 2) + (Shortest(|b|) + b))
  {
  }

  /** Submessages: wire type 2, length and the encoded submessage. */
  lemma MessageIsWritten(T: Table, f: Field, ss: seq<Slot>)
    requires f.ltype.LSubmsg?
    ensures Record(T, f, Msg(ss))
         == match Encode(T, f.sub, ss)
            { case None => None
              case Some(e) => Some(Shortest(8 * f.tag + 2) + (Shortest(|e|) + e)) }
  {
  }

  /** In every case a field is its tag and its payload. */
  lemma RecordIsTagged(T: Table, f: Field, v: Value)
    ensures Record(T, f, v)
         == match Payload(T, f, v)
            { case None => None
              case Some(p) => Some(Shortest(8 * f.tag + ExpectedType(f.ltype)) + p) }
  {
  }

  // ----- arrays -----

  /** Byte strings in order, each behind the same prefix. */
  function Each(prefix: seq<byte>, forms: seq<seq<byte>>): seq<byte> {
    if forms == [] then [] else prefix + forms[0] + Each(prefix, forms[1..])
  }

  /** An element is the payload of a single value; the words of booleans do not matter. */
  lemma ElementIsPayload(T: Table, f: Field, v: Value)
    requires Packable(f.ltype) && SizeOk(f) && LeafOk(f, v)
    ensures PackedForm(f, v) == Payload(T, f, v)
  {
    if f.ltype.LBool? { IsOwnWord(v.n); }
  }

  lemma {:induction false} ElementsAreJoined(T: Table, f: Field, items: seq<Value>, forms: seq<seq<byte>>)
    requires Packable(f.ltype) && SizeOk(f) && |forms| == |items|
    requires forall i :: 0 <= i < |items| ==> LeafOk(f, items[i]) && Payload(T, f, items[i]) == Some(forms[i])
    ensures Elements(f, items) == Some(Each([], forms))
  {
    if items == [] {
    } else {
      ElementsAreJoined(T, f, items[1..], forms[1..]);
      ElementIsPayload(T, f, items[0]);
      assert [] + forms[0] == forms[0];
    }
  }

  lemma {:induction false} RecordsAreJoined(T: Table, f: Field, items: seq<Value>, forms: seq<seq<byte>>)
    requires |forms| == |items|
    requires forall i :: 0 <= i < |items| ==> Payload(T, f, items[i]) == Some(forms[i])
    ensures Records(T, f, items) == Some(Each(Shortest(8 * f.tag + ExpectedType(f.ltype)), forms))
  {
    if items == [] {
    } else {
      RecordsAreJoined(T, f, items[1..], forms[1..]);
      RecordIsTagged(T, f, items[0]);
    }
  }

  /** Numbers: one packed field of wire type 2, its payloads back to back. Anything else: one field per entry. */
  lemma ArrayIsWritten(T: Table, f: Field, items: seq<Value>, forms: seq<seq<byte>>)
    requires |forms| == |items|
    requires forall i :: 0 <= i < |items| ==> Payload(T, f, items[i]) == Some(forms[i])
    requires Packable(f.ltype) ==> SizeOk(f) && forall i :: 0 <= i < |items| ==> LeafOk(f, items[i])
    ensures ArrayForm(T, f, items)
         == if items == [] then Some([])
            else if f.atype.Static? && |items| > f.arraySize then None
            else if Packable(f.ltype) then
              Some(Shortest(8 * f.tag + 2) + (Shortest(|Each([], forms)|) + Each([], forms)))
            else Some(Each(Shortest(8 * f.tag + 2), forms))
  {
    if Packable(f.ltype) { ElementsAreJoined(T, f, items, forms); } else { RecordsAreJoined(T, f, items, forms); }
  }

  /** A structure is its members in the order of the descriptor. */
  lemma {:induction false} MembersAreJoined(T: Table, d: nat, ss: seq<Slot>, i: nat, forms: seq<seq<byte>>)
    requires i + |forms| == |ss| == |At(T, d)|
    requires forall k :: 0 <= k < |forms| ==> SlotForm(T, d, At(T, d)[i + k], ss[i + k]) == Some(forms[k])
    ensures EncodeFrom(T, d, ss, i) == Some(Each([], forms))
    decreases |forms|
  {
    if forms == [] {
    } else {
      assert SlotForm(T, d, At(T, d)[i + 0], ss[i + 0]) == Some(forms[0]);
      forall k | 0 <= k < |forms[1..]|
        ensures SlotForm(T, d, At(T, d)[i + 1 + k], ss[i + 1 + k]) == Some(forms[1..][k])
      {
        assert SlotForm(T, d, At(T, d)[i + (k + 1)], ss[i + (k + 1)]) == Some(forms[k + 1]);
      }
      MembersAreJoined(T, d, ss, i + 1, forms[1..]);
      assert [] + forms[0] == forms[0];
    }
  }

  // ----- presence -----

  /** A plain proto3 member: neither required nor flagged, in a structure without declared defaults. */
  predicate IsPlain(T: Table, d: nat, f: Field) {
    && f.htype.Optional? && f.atype.Static? && f.sizeOffset == 0
    && forall i :: 0 <= i < |At(T, d)| ==> At(T, d)[i].dflt.None?
  }

  /** Its number is left out exactly if it is zero. */
  lemma NumberIsLeftOut(T: Table, d: nat, f: Field, n: int)
    requires IsPlain(T, d, f) && Packable(f.ltype)
    ensures SlotForm(T, d, f, One(Num(n))) == Some([]) <==> n == 0
    ensures n != 0 ==> SlotForm(T, d, f, One(Num(n))) == Record(T, f, Num(n))
  {
  }

  /** Its string or byte array exactly if it is empty, and one of fixed length only if that is zero. */
  lemma BlobIsLeftOut(T: Table, d: nat, f: Field, b: seq<byte>)
    requires IsPlain(T, d, f) && IsBlob(f.ltype)
    ensures SlotForm(T, d, f, One(Blob(b))) == Some([]) <==> b == [] && (f.ltype.LFixedBytes? ==> f.dataSize == 0)
    ensures b != [] ==> SlotForm(T, d, f, One(Blob(b))) == Record(T, f, Blob(b))
  {
  }

  /** Its submessage exactly if that would be encoded as nothing. */
  lemma MessageIsLeftOut(T: Table, d: nat, f: Field, ss: seq<Slot>)
    requires TableOk(T) && IsPlain(T, d, f) && f.ltype.LSubmsg? && Conforms(T, f.sub, ss, false)
    ensures SlotForm(T, d, f, One(Msg(ss))) == Some([]) <==> Encode(T, f.sub, ss) == Some([])
    ensures SlotForm(T, d, f, One(Msg(ss))) != Some([]) ==> SlotForm(T, d, f, One(Msg(ss))) == Record(T, f, Msg(ss))
  {
    EmptyIffDefault(T, f.sub, ss);
  }

  /** Required members, and all members beside a declared default, are written whatever they hold. */
  lemma AlwaysWritten(T: Table, d: nat, f: Field, v: Value)
    requires f.htype.Required? || exists i :: 0 <= i < |At(T, d)| && At(T, d)[i].dflt.Some?
    ensures SlotForm(T, d, f, One(v)) == Record(T, f, v) != Some([])
  {
  }

  /** Where presence is stored, it alone decides. */
  lemma StoredPresence(T: Table, d: nat, f: Field, v: Value)
    ensures SlotForm(T, d, f, Opt(true, v)) == SlotForm(T, d, f, Ptr(Some(v))) == Record(T, f, v) != Some([])
    ensures SlotForm(T, d, f, Opt(false, v)) == Some([])
    ensures SlotForm(T, d, f, Ptr(None)) == if f.htype.Required? then None else Some([])
  {
  }
}
