/**
  Forward compatibility: fields the descriptor does not know do not change
  what is decoded, and whole fields are decoded one after the other,
  independently of the bytes around them.
 */
module UnknownFields {
  import opened Wire
  import opened Descriptor
  import opened Varint
  import opened Decoding

  /** A sequence of complete fields, known or not: the places between them are field boundaries. */
  predicate IsRecords(bs: seq<byte>)
    decreases |bs|
  {
    if bs == [] then true
    else
      match ReadTag(bs)
      case Fail => false
      case Ok((_, wt), r) =>
        match SkipValue(wt, r)
        case Fail => false
        case Ok(_, r') => IsRecords(r')
  }

  /** One complete field with a tag that is not in the list. */
  predicate IsUnknown(fields: seq<Field>, bs: seq<byte>) {
    match ReadTag(bs)
    case Fail => false
    case Ok((tag, wt), r) => tag != 0 && Find(fields, tag) == |fields| && SkipValue(wt, r) == Ok((), [])
  }

  // ----- a complete field is read the same way whatever follows it -----

  lemma ReadTagLocal(bs: seq<byte>, more: seq<byte>)
    requires ReadTag(bs).Ok?
    ensures ReadTag(bs + more) == ReadTag(bs).Then(more)
  {
    Read32Complete(bs, 0, 0);
    Read32Local(bs, 0, 0, more);
  }

  lemma ReadFrameLocal(bs: seq<byte>, more: seq<byte>)
    requires ReadFrame(bs).Ok?
    ensures ReadFrame(bs + more) == ReadFrame(bs).Then(more)
  {
    Read32Complete(bs, 0, 0);
    Read32Local(bs, 0, 0, more);
    var len, r := Read32(bs).value, Read32(bs).rest;
    assert (r + more)[..len] == r[..len] && (r + more)[len..] == r[len..] + more;
  }

  lemma SkipValueLocal(wt: nat, bs: seq<byte>, more: seq<byte>)
    requires SkipValue(wt, bs).Ok?
    ensures SkipValue(wt, bs + more) == SkipValue(wt, bs).Then(more)
  {
    if wt == WT_VARINT {
      SkipLocal(bs, more);
    } else if wt == WT_STRING {
      ReadFrameLocal(bs, more);
    } else if wt == WT_64BIT {
      assert (bs + more)[8..] == bs[8..] + more;
    } else {
      assert (bs + more)[4..] == bs[4..] + more;
    }
  }

  lemma ReadNumLocal(f: Field, wt: nat, bs: seq<byte>, more: seq<byte>)
    requires SkipValue(wt, bs).Ok?
    ensures ReadNum(f, wt, bs + more) == ReadNum(f, wt, bs).Then(more)
    ensures ReadNum(f, wt, bs).Ok? ==> ReadNum(f, wt, bs).rest == SkipValue(wt, bs).rest
  {
    match f.ltype
    case LBool => if wt == WT_VARINT { Read32Local(bs, 0, 0, more); }
    case LVarint | LUVarint | LSVarint => if wt == WT_VARINT { Read64Local(bs, 0, more); }
    case LFixed32 =>
      if wt == WT_32BIT { assert (bs + more)[..4] == bs[..4] && (bs + more)[4..] == bs[4..] + more; }
    case LFixed64 =>
      if wt == WT_64BIT { assert (bs + more)[..8] == bs[..8] && (bs + more)[8..] == bs[8..] + more; }
    case _ =>
  }

  lemma ReadBlobLocal(f: Field, bs: seq<byte>, more: seq<byte>)
    requires IsBlob(f.ltype) && ReadFrame(bs).Ok?
    ensures ReadBlob(f, WT_STRING, bs + more) == ReadBlob(f, WT_STRING, bs).Then(more)
    ensures ReadBlob(f, WT_STRING, bs).Ok? ==> ReadBlob(f, WT_STRING, bs).rest == ReadFrame(bs).rest
  {
    ReadFrameLocal(bs, more);
    var len, r := Read32(bs).value, Read32(bs).rest;
    Read32Complete(bs, 0, 0);
    Read32Local(bs, 0, 0, more);
    assert (r + more)[..len] == r[..len] && (r + more)[len..] == r[len..] + more;
    if len == 0 { assert r[0..] == r; }
  }

  lemma ReadValueLocal(T: Table, f: Field, wt: nat, bs: seq<byte>, start: Value, more: seq<byte>)
    requires SkipValue(wt, bs).Ok?
    ensures ReadValue(T, f, wt, bs + more, start) == ReadValue(T, f, wt, bs, start).Then(more)
    ensures ReadValue(T, f, wt, bs, start).Ok? ==> ReadValue(T, f, wt, bs, start).rest == SkipValue(wt, bs).rest
  {
    if f.ltype.LSubmsg? {
      if wt == WT_STRING { ReadFrameLocal(bs, more); }
    } else if Packable(f.ltype) {
      ReadNumLocal(f, wt, bs, more);
    } else if wt == WT_STRING {
      ReadBlobLocal(f, bs, more);
    }
  }

  lemma ReadSlotLocal(T: Table, f: Field, wt: nat, bs: seq<byte>, s: Slot, more: seq<byte>)
    requires SkipValue(wt, bs).Ok?
    ensures ReadSlot(T, f, wt, bs + more, s) == ReadSlot(T, f, wt, bs, s).Then(more)
    ensures ReadSlot(T, f, wt, bs, s).Ok? ==> ReadSlot(T, f, wt, bs, s).rest == SkipValue(wt, bs).rest
  {
    match s
    case One(v) => ReadValueLocal(T, f, wt, bs, v, more);
    case Opt(_, v) => ReadValueLocal(T, f, wt, bs, v, more);
    case Ptr(_) => ReadValueLocal(T, f, wt, bs, Fresh(T, f), more);
    case Many(items) =>
      if wt == WT_STRING { ReadFrameLocal(bs, more); }
      ReadValueLocal(T, f, wt, bs, Fresh(T, f), more);
  }

  // ----- the first field of a frame by itself -----

  lemma {:induction false} SkipTrim(bs: seq<byte>)
    requires Skip(bs).Ok?
    ensures var pre := bs[..|bs| - |Skip(bs).rest|];
            bs == pre + Skip(bs).rest && Skip(pre) == Ok((), [])
    decreases |bs|
  {
    if bs[0] < 128 {
    } else {
      SkipTrim(bs[1..]);
      var pre := bs[..|bs| - |Skip(bs).rest|];
      assert pre[1..] == bs[1..][..|bs| - 1 - |Skip(bs).rest|];
      assert bs == [bs[0]] + bs[1..];
    }
  }

  /** A varint by itself. */
  lemma Read32Trim(bs: seq<byte>) returns (pre: seq<byte>)
    requires Read32(bs).Ok?
    ensures bs == pre + Read32(bs).rest && Read32(pre) == Ok(Read32(bs).value, [])
  {
    Read32Complete(bs, 0, 0);
    SkipTrim(bs);
    pre := bs[..|bs| - |Skip(bs).rest|];
    Read32Local(pre, 0, 0, Skip(bs).rest);
  }

  lemma SkipValueTrim(wt: nat, bs: seq<byte>) returns (pre: seq<byte>)
    requires SkipValue(wt, bs).Ok?
    ensures bs == pre + SkipValue(wt, bs).rest && SkipValue(wt, pre) == Ok((), [])
  {
    if wt == WT_VARINT {
      SkipTrim(bs);
      pre := bs[..|bs| - |Skip(bs).rest|];
    } else if wt == WT_STRING {
      var head := Read32Trim(bs);
      var payload := ReadFrame(bs).value;
      pre := head + payload;
      Read32Complete(head, 0, 0);
      Read32Local(head, 0, 0, payload);
      assert [] + payload == payload;
    } else {
      pre := bs[..if wt == WT_64BIT then 8 else 4];
    }
  }

  /** One complete field at the head of a frame. */
  ghost predicate IsFirst(first: seq<byte>, bs: seq<byte>) {
    && ReadTag(bs).Ok? && ReadTag(first).Ok? && ReadTag(first).value == ReadTag(bs).value
    && SkipValue(ReadTag(bs).value.1, ReadTag(bs).rest).Ok?
    && SkipValue(ReadTag(bs).value.1, ReadTag(first).rest) == Ok((), [])
    && ReadTag(bs).rest == ReadTag(first).rest + SkipValue(ReadTag(bs).value.1, ReadTag(bs).rest).rest
    && IsRecords(first)
  }

  lemma FirstField(bs: seq<byte>) returns (first: seq<byte>)
    requires ReadTag(bs).Ok? && SkipValue(ReadTag(bs).value.1, ReadTag(bs).rest).Ok?
    ensures IsFirst(first, bs)
  {
    var wt, r := ReadTag(bs).value.1, ReadTag(bs).rest;
    var tag := Read32Trim(bs);
    var payload := SkipValueTrim(wt, r);
    ReadTagLocal(tag, payload);
    assert [] + payload == payload;
    first := tag + payload;
  }

  /** Decoding goes field by field: complete fields first, then what follows from where they left off. */
  lemma {:induction false} LoopOfRecords(
    T: Table, d: nat, pre: seq<byte>, post: seq<byte>, ss: seq<Slot>, seen: set<nat>)
    requires IsRecords(pre)
    ensures Loop(T, d, pre + post, ss, seen)
         == match Loop(T, d, pre, ss, seen)
            { case Stop => Stop
              case Done(ss', seen') => Loop(T, d, post, ss', seen') }
    decreases |pre|
  {
    if pre == [] {
      assert pre + post == post;
    } else {
      assert pre + post != [] by { assert (pre + post)[0] == pre[0]; }
      ReadTagLocal(pre, post);
      var (tag, wt) := ReadTag(pre).value;
      var r := ReadTag(pre).rest;
      var next := SkipValue(wt, r).rest;
      SkipValueLocal(wt, r, post);
      var i := Find(At(T, d), tag);
      if tag != 0 && i < |At(T, d)| {
        if i < |ss| {
          ReadSlotLocal(T, At(T, d)[i], wt, r, ss[i], post);
          var p := ReadSlot(T, At(T, d)[i], wt, r, ss[i]);
          if p.Ok? { LoopOfRecords(T, d, next, post, ss[i := p.value], Mark(At(T, d), i, seen)); }
        }
      } else if tag != 0 {
        LoopOfRecords(T, d, next, post, ss, seen);
      }
    }
  }

  lemma LoopOfUnknown(T: Table, d: nat, unknown: seq<byte>, ss: seq<Slot>, seen: set<nat>)
    requires IsUnknown(At(T, d), unknown)
    ensures IsRecords(unknown)
    ensures Loop(T, d, unknown, ss, seen) == Done(ss, seen)
  {
    var (tag, wt) := ReadTag(unknown).value;
    assert Step(T, d, tag, wt, ReadTag(unknown).rest, ss, seen) == Loop(T, d, [], ss, seen);
  }

  /**
    For every table, every structure decoded into, and every field boundary
    of the frame: inserting a complete field that the descriptor does not know
    changes neither the outcome nor the structure.
   */
  lemma UnknownFieldIsInvisible(
    T: Table, d: nat, pre: seq<byte>, unknown: seq<byte>, post: seq<byte>, ss: seq<Slot>)
    requires IsRecords(pre) && IsUnknown(At(T, d), unknown)
    ensures DecodeInto(T, d, pre + unknown + post, ss) == DecodeInto(T, d, pre + post, ss)
  {
    assert pre + unknown + post == pre + (unknown + post);
    LoopOfRecords(T, d, pre, unknown + post, ss, {});
    LoopOfRecords(T, d, pre, post, ss, {});
    match Loop(T, d, pre, ss, {})
    case Stop =>
    case Done(ss', seen) =>
      LoopOfUnknown(T, d, unknown, ss', seen);
      LoopOfRecords(T, d, unknown, post, ss', seen);
  }
}
