/**
  Tracking of required fields: the two-word bit field of pb_decode_inner holds
  exactly the set of ranks marked so far, and its whole-word and remainder
  checks pass exactly when no rank is missing.
 */
module RequiredFields {
  import opened Wire
  import opened Descriptor
  import opened Decoding
  import opened UnknownFields

  // ----- single words -----

  predicate Bit(w: nat, j: nat) {
    if j == 0 then w % 2 == 1 else Bit(w / 2, j - 1)
  }

  /** w | (1 << i) */
  function SetBit(w: nat, i: nat): nat {
    if i == 0 then w / 2 * 2 + 1 else w % 2 + 2 * SetBit(w / 2, i - 1)
  }

  /** The word with the low k bits set: ~0 >> (32 - k). */
  function LowBits(k: nat): nat {
    if k == 0 then 0 else 1 + 2 * LowBits(k - 1)
  }

  lemma Halves(low: nat, half: nat)
    requires low < 2
    ensures (low + 2 * half) / 2 == half && (low + 2 * half) % 2 == low
  {
  }

  lemma SetBitHalves(w: nat, i: nat)
    ensures SetBit(w, i) % 2 == if i == 0 then 1 else w % 2
    ensures SetBit(w, i) / 2 == if i == 0 then w / 2 else SetBit(w / 2, i - 1)
  {
    if i == 0 { Halves(1, w / 2); } else { Halves(w % 2, SetBit(w / 2, i - 1)); }
  }

  lemma {:induction false} BitOfSetBit(w: nat, i: nat, j: nat)
    ensures Bit(SetBit(w, i), j) <==> j == i || Bit(w, j)
    decreases i + j
  {
    SetBitHalves(w, i);
    if i > 0 && j > 0 { BitOfSetBit(w / 2, i - 1, j - 1); }
  }

  lemma {:induction false} BitOfZero(j: nat)
    ensures !Bit(0, j)
  {
    if j == 0 {
    } else {
      BitOfZero(j - 1);
    }
  }

  lemma {:induction false} BitOfLowBits(k: nat, j: nat)
    ensures Bit(LowBits(k), j) <==> j < k
  {
    if k == 0 {
      BitOfZero(j);
    } else if j > 0 {
      BitOfLowBits(k - 1, j - 1);
    }
  }

  /** Words with the same bits are equal. */
  lemma {:induction false} SameBits(w: nat, v: nat)
    requires forall j: nat :: Bit(w, j) <==> Bit(v, j)
    ensures w == v
    decreases w + v
  {
    assert Bit(w, 0) <==> Bit(v, 0);
    if w + v == 0 {
    } else {
      forall j: nat ensures Bit(w / 2, j) <==> Bit(v / 2, j) {
        assert Bit(w, j + 1) <==> Bit(v, j + 1);
      }
      SameBits(w / 2, v / 2);
    }
  }

  ghost predicate HasExactly(w: nat, k: nat) {
    forall j: nat :: Bit(w, j) <==> j < k
  }

  /** A word is the mask of k bits exactly when it has those bits and no others. */
  lemma IsMask(w: nat, k: nat)
    ensures w == LowBits(k) <==> HasExactly(w, k)
  {
    forall j: nat ensures Bit(LowBits(k), j) <==> j < k { BitOfLowBits(k, j); }
    if HasExactly(w, k) {
      forall j: nat ensures Bit(w, j) <==> Bit(LowBits(k), j) { BitOfLowBits(k, j); }
      SameBits(w, LowBits(k));
    }
  }

  // ----- pb_fields_seen_t -----

  class FieldsSeen {
    const bitfield: array<nat>

    ghost predicate Valid()
      reads bitfield
    {
      bitfield.Length == 2 && forall i, j :: 0 <= i < 2 && j >= 32 ==> !Bit(bitfield[i], j)
    }

    /** The ranks whose bits are set. */
    ghost function Ranks(): set<nat>
      requires bitfield.Length == 2
      reads bitfield
    {
      set r | 0 <= r < MAX_REQUIRED && Bit(bitfield[r / 32], r % 32)
    }

    constructor ()
      ensures Valid() && Ranks() == {} && fresh(bitfield)
    {
      bitfield := new nat[2](_ => 0);
      new;
      forall j: nat ensures !Bit(0, j) { BitOfZero(j); }
    }

    /** bitfield[rank >> 5] |= 1 << (rank & 31) */
    method Mark(rank: nat)
      requires Valid() && rank < MAX_REQUIRED
      modifies bitfield
      ensures Valid() && Ranks() == old(Ranks()) + {rank}
    {
      ghost var w := bitfield[rank / 32];
      forall j: nat ensures Bit(SetBit(w, rank % 32), j) <==> j == rank % 32 || Bit(w, j) {
        BitOfSetBit(w, rank % 32, j);
      }
      bitfield[rank / 32] := SetBit(bitfield[rank / 32], rank % 32);
    }

    /** The check of the whole words and of the remaining bits. */
    method Complete(requiredCount: nat) returns (ok: bool)
      requires Valid() && forall r :: r in Ranks() ==> r < requiredCount
      ensures ok <==> forall r :: 0 <= r < requiredCount && r < MAX_REQUIRED ==> r in Ranks()
    {
      var count := if requiredCount > MAX_REQUIRED then MAX_REQUIRED else requiredCount;
      var i := 0;
      while i < count / 32
        invariant 0 <= i <= count / 32
        invariant forall r :: 0 <= r < 32 * i ==> r in Ranks()
      {
        WordMask(i, 32);
        if bitfield[i] != LowBits(32) { return false; }
        i := i + 1;
      }
      if count % 32 != 0 {
        WordMask(count / 32, count % 32);
        if bitfield[count / 32] != LowBits(count % 32) { return false; }
      }
      ok := true;
    }

    lemma RankBit(i: nat, j: nat)
      requires bitfield.Length == 2 && i < 2 && j < 32
      ensures Bit(bitfield[i], j) <==> 32 * i + j in Ranks()
    {
      assert (32 * i + j) / 32 == i && (32 * i + j) % 32 == j;
    }

    /** Word i is the mask of k bits exactly when its first k ranks are marked and no later one. */
    lemma WordMask(i: nat, k: nat)
      requires Valid() && i < 2 && k <= 32
      requires forall r :: 32 * i + k <= r < 32 * i + 32 ==> r !in Ranks()
      ensures bitfield[i] == LowBits(k) <==> forall r :: 32 * i <= r < 32 * i + k ==> r in Ranks()
    {
      var w := bitfield[i];
      IsMask(w, k);
      if HasExactly(w, k) {
        forall r | 32 * i <= r < 32 * i + k ensures r in Ranks() {
          assert Bit(w, r - 32 * i);
          RankBit(i, r - 32 * i);
        }
      }
      if forall r :: 32 * i <= r < 32 * i + k ==> r in Ranks() {
        forall j: nat ensures Bit(w, j) <==> j < k {
          if j < 32 { RankBit(i, j); }
        }
      }
    }
  }

  // ----- which ranks the decoder has seen -----

  /** Whether some field of the frame carries the tag. */
  predicate Occurs(bs: seq<byte>, tag: nat)
    decreases |bs|
  {
    if bs == [] then false
    else
      match ReadTag(bs)
      case Fail => false
      case Ok((t, wt), r) =>
        t == tag ||
        match SkipValue(wt, r)
        case Fail => false
        case Ok(_, r') => Occurs(r', tag)
  }

  /** What a field reader consumes is what skipping the field would have consumed. */
  lemma ReadSlotSkips(T: Table, f: Field, wt: nat, bs: seq<byte>, s: Slot)
    requires wt < 8 && ReadSlot(T, f, wt, bs, s).Ok?
    ensures SkipValue(wt, bs) == Ok((), ReadSlot(T, f, wt, bs, s).rest)
  {
    if wt == WT_VARINT {
      if Varint.Read32(bs).Ok? { Varint.Read32Complete(bs, 0, 0); }
      if Varint.Read64(bs, 0).Ok? { Varint.Read64Complete(bs, 0); }
    }
    if SkipValue(wt, bs).Ok? {
      ReadSlotLocal(T, f, wt, bs, s, []);
    }
  }

  /** Required field i has rank r and occurs in the frame. */
  ghost predicate Met(fields: seq<Field>, bs: seq<byte>, r: nat) {
    exists i :: 0 <= i < |fields| && IsRank(fields, i, r) && Occurs(bs, fields[i].tag)
  }

  predicate IsRank(fields: seq<Field>, i: nat, r: nat)
    requires i < |fields|
  {
    fields[i].htype.Required? && Rank(fields, i) == r
  }

  lemma {:induction false} RankGrows(fields: seq<Field>, i: nat, j: nat)
    requires i <= j <= |fields|
    ensures Rank(fields, i) <= Rank(fields, j)
    decreases j - i
  {
    if i >= j {
    } else {
      RankGrows(fields, i, j - 1);
    }
  }

  /** Different required fields have different ranks, all below the number of required fields. */
  lemma RankIsUnique(fields: seq<Field>, i: nat, j: nat, r: nat)
    requires i < |fields| && j < |fields| && IsRank(fields, i, r) && IsRank(fields, j, r)
    ensures i == j && r < Rank(fields, |fields|)
  {
    RankGrows(fields, i + 1, |fields|);
    if i < j {
      RankGrows(fields, i + 1, j);
    } else if j < i {
      RankGrows(fields, j + 1, i);
    }
  }

  /** Every number below is the rank of a required field. */
  lemma {:induction false} RankIsOnto(fields: seq<Field>, n: nat, r: nat) returns (i: nat)
    requires n <= |fields| && r < Rank(fields, n)
    ensures i < n && IsRank(fields, i, r)
    decreases n
  {
    if fields[n - 1].htype.Required? && Rank(fields, n - 1) == r {
      i := n - 1;
    } else {
      i := RankIsOnto(fields, n - 1, r);
    }
  }

  /** After any frame, the ranks seen are those seen before and those of the fields that occur in it. */
  lemma {:induction false} SeenIsMet(T: Table, d: nat, bs: seq<byte>, ss: seq<Slot>, seen: set<nat>, r: nat)
    requires Sorted(At(T, d)) && Loop(T, d, bs, ss, seen).Done?
    ensures r in Loop(T, d, bs, ss, seen).seen <==>
              r in seen || (r < MAX_REQUIRED && Met(At(T, d), bs, r))
    decreases |bs|
  {
    if bs == [] {
    } else {
      var (tag, wt) := ReadTag(bs).value;
      var rest, fields := ReadTag(bs).rest, At(T, d);
      var i := Find(fields, tag);
      if i < |fields| {
        ReadSlotSkips(T, fields[i], wt, rest, ss[i]);
        var next := SkipValue(wt, rest).rest;
        var s := ReadSlot(T, fields[i], wt, rest, ss[i]).value;
        SeenIsMet(T, d, next, ss[i := s], Mark(fields, i, seen), r);
        MetStep(fields, bs, r);
        if IsRank(fields, i, r) && !Met(fields, next, r) { assert Met(fields, bs, r); }
      } else {
        SeenIsMet(T, d, SkipValue(wt, rest).rest, ss, seen, r);
        MetStep(fields, bs, r);
      }
    }
  }

  /** The first field of a frame, then the others. */
  lemma MetStep(fields: seq<Field>, bs: seq<byte>, r: nat)
    requires Sorted(fields) && bs != [] && ReadTag(bs).Ok?
    requires SkipValue(ReadTag(bs).value.1, ReadTag(bs).rest).Ok?
    ensures var (tag, wt) := ReadTag(bs).value;
            var i := Find(fields, tag);
            Met(fields, bs, r) <==>
              (i < |fields| && IsRank(fields, i, r)) || Met(fields, SkipValue(wt, ReadTag(bs).rest).rest, r)
  {
    var (tag, wt) := ReadTag(bs).value;
    var next := SkipValue(wt, ReadTag(bs).rest).rest;
    forall k | 0 <= k < |fields| && fields[k].tag == tag ensures k == Find(fields, tag) { FindSorted(fields, k); }
    if Met(fields, next, r) {
      var k :| 0 <= k < |fields| && IsRank(fields, k, r) && Occurs(next, fields[k].tag);
      assert Occurs(bs, fields[k].tag);
    }
    var i := Find(fields, tag);
    if i < |fields| && IsRank(fields, i, r) { assert Occurs(bs, fields[i].tag); }
  }

  /**
    For every frame whose fields all decode: the decoder accepts it exactly
    when each of the first 64 required fields occurs, in any order, any
    number of times.
   */
  lemma AcceptedIffRequiredOccur(T: Table, d: nat, bs: seq<byte>, ss: seq<Slot>)
    requires Sorted(At(T, d)) && Loop(T, d, bs, ss, {}).Done?
    ensures DecodeInto(T, d, bs, ss).Some? <==>
              forall i :: 0 <= i < |At(T, d)| && At(T, d)[i].htype.Required? && Rank(At(T, d), i) < 64 ==>
                Occurs(bs, At(T, d)[i].tag)
  {
    var fields, seen := At(T, d), Loop(T, d, bs, ss, {}).seen;
    forall r: nat ensures r in seen <==> r < MAX_REQUIRED && Met(fields, bs, r) { SeenIsMet(T, d, bs, ss, {}, r); }
    if AllSeen(fields, seen) {
      forall i | 0 <= i < |fields| && fields[i].htype.Required? && Rank(fields, i) < MAX_REQUIRED
        ensures Occurs(bs, fields[i].tag)
      {
        var r := Rank(fields, i);
        RankIsUnique(fields, i, i, r);
        assert Met(fields, bs, r);
        var k :| 0 <= k < |fields| && IsRank(fields, k, r) && Occurs(bs, fields[k].tag);
        RankIsUnique(fields, i, k, r);
      }
    } else {
      var r :| 0 <= r < Rank(fields, |fields|) && r < MAX_REQUIRED && r !in seen;
      var i := RankIsOnto(fields, |fields|, r);
      assert !Occurs(bs, fields[i].tag);
    }
  }
}
