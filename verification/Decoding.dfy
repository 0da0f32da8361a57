/**
  The meaning of a byte string as a message: what pb_decode makes of a frame,
  as a function of the descriptor, the frame and the structure it starts from.
 */
module Decoding {
  import opened Wire
  import opened Descriptor
  import opened Varint

  // ----- skipping unknown fields -----

  /** A length-delimited payload and the bytes after it. */
  function ReadFrame(bs: seq<byte>): (p: Parsed<seq<byte>>)
    ensures p.Ok? ==> |p.rest| < |bs| && |p.value| < |bs|
  {
    match Read32(bs)
    case Fail => Fail
    case Ok(len, r) => if len > |r| then Fail else Ok(r[..len], r[len..])
  }

  /** pb_skip_field: the bytes after a field value of the given wire type. */
  function SkipValue(wt: nat, bs: seq<byte>): (p: Parsed<()>)
    ensures p.Ok? ==> |p.rest| <= |bs|
  {
    if wt == WT_VARINT then Skip(bs)
    else if wt == WT_64BIT then if |bs| < 8 then Fail else Ok((), bs[8..])
    else if wt == WT_STRING then
      match ReadFrame(bs)
      case Fail => Fail
      case Ok(_, r) => Ok((), r)
    else if wt == WT_32BIT then if |bs| < 4 then Fail else Ok((), bs[4..])
    else Fail
  }

  /** pb_decode_tag: field number and wire type. */
  function ReadTag(bs: seq<byte>): (p: Parsed<(nat, nat)>)
    ensures p.Ok? ==> |p.rest| < |bs|
  {
    match Read32(bs)
    case Fail => Fail
    case Ok(v, r) => Ok((v / 8, v % 8), r)
  }

  // ----- single values -----

  /** The signed number with the given low bits. */
  function Signed(n: nat, half: nat): int
  {
    if n < half then n else n - 2 * half
  }

  /** The casts of pb_dec_varint: to the field size, refusing what does not survive them. */
  function Narrow(f: Field, n: nat): Option<int> {
    if !IsIntSize(f.dataSize) then None
    else if f.ltype.LUVarint? then
      if FitsUnsigned(n, f.dataSize) then Some(n) else None
    else
      var s: int :=
        if f.ltype.LSVarint? then UnZigZag(n)
        else if f.dataSize == 8 then Signed(n, TWO63)
        else Signed(n % TWO32, TWO31);
      if FitsSigned(s, f.dataSize) then Some(s) else None
  }

  function ReadNum(f: Field, wt: nat, bs: seq<byte>): (p: Parsed<int>)
    ensures p.Ok? ==> |p.rest| < |bs|
  {
    match f.ltype
    case LBool =>
      if wt != WT_VARINT && wt != WT_PACKED then Fail
      else (match Read32(bs)
            case Fail => Fail
            case Ok(n, r) => Ok(if n != 0 then 1 else 0, r))
    case LVarint | LUVarint | LSVarint =>
      if wt != WT_VARINT && wt != WT_PACKED then Fail
      else (match Read64(bs, 0)
            case Fail => Fail
            case Ok(n, r) =>
              match Narrow(f, n)
              case None => Fail
              case Some(x) => Ok(x, r))
    case LFixed32 =>
      if (wt != WT_32BIT && wt != WT_PACKED) || |bs| < 4 then Fail
      else Ok(FromLittleEndian(bs[..4]), bs[4..])
    case LFixed64 =>
      if (wt != WT_64BIT && wt != WT_PACKED) || |bs| < 8 then Fail
      else Ok(FromLittleEndian(bs[..8]), bs[8..])
    case _ => Fail
  }

  /** pb_dec_bytes, pb_dec_string and pb_dec_fixed_length_bytes. */
  function ReadBlob(f: Field, wt: nat, bs: seq<byte>): (p: Parsed<seq<byte>>)
    ensures p.Ok? ==> |p.rest| < |bs|
  {
    if wt != WT_STRING then Fail
    else
      match Read32(bs)
      case Fail => Fail
      case Ok(len, r) =>
        match f.ltype
        case LBytes =>
          if (f.atype.Static? && len + BYTES_OFFSET > f.dataSize) || len > |r| then Fail
          else Ok(r[..len], r[len..])
        case LString =>
          if len >= TWO32 - 1 || (f.atype.Static? && len + 1 > f.dataSize) || len > |r| then Fail
          else Ok(CString(r[..len]), r[len..])
        case LFixedBytes =>
          if len == 0 then Ok(Zeros(f.dataSize), r)
          else if len != f.dataSize || len > |r| then Fail
          else Ok(r[..len], r[len..])
        case _ => Fail
  }

  /** The elements of a packed array, appended to `items` while there is room. */
  function ReadPacked(f: Field, frame: seq<byte>, items: seq<Value>): Option<seq<Value>>
    decreases |frame|
  {
    if frame == [] then Some(items)
    else if |items| >= Capacity(f) then None
    else
      match ReadNum(f, WT_PACKED, frame)
      case Fail => None
      case Ok(n, r) => ReadPacked(f, r, items + [Num(n)])
  }

  // ----- messages -----

  /** State of the decoder between two fields: the structure and the required ranks seen. */
  datatype Progress = Stop | Done(slots: seq<Slot>, seen: set<nat>)

  /** The final check of pb_decode_inner: the first 64 required fields all occurred. */
  predicate AllSeen(fields: seq<Field>, seen: set<nat>) {
    forall r :: 0 <= r < Rank(fields, |fields|) && r < MAX_REQUIRED ==> r in seen
  }

  /** The ranks seen once field i has been met. */
  function Mark(fields: seq<Field>, i: nat, seen: set<nat>): set<nat>
    requires i < |fields|
  {
    if fields[i].htype.Required? && Rank(fields, i) < MAX_REQUIRED then seen + {Rank(fields, i)} else seen
  }

  /** decode_basic_field; `start` is the value a submessage is merged into. */
  function ReadValue(T: Table, f: Field, wt: nat, bs: seq<byte>, start: Value): (p: Parsed<Value>)
    ensures p.Ok? ==> |p.rest| < |bs|
    decreases |bs|, 0
  {
    if f.ltype.LSubmsg? then
      if wt != WT_STRING || !start.Msg? then Fail
      else
        match ReadFrame(bs)
        case Fail => Fail
        case Ok(frame, r) =>
          match DecodeInto(T, f.sub, frame, start.slots)
          case None => Fail
          case Some(ss) => Ok(Msg(ss), r)
    else if Packable(f.ltype) then
      match ReadNum(f, wt, bs)
      case Fail => Fail
      case Ok(n, r) => Ok(Num(n), r)
    else
      match ReadBlob(f, wt, bs)
      case Fail => Fail
      case Ok(b, r) => Ok(Blob(b), r)
  }

  /** decode_static_field and decode_pointer_field, by the kind of storage. */
  function ReadSlot(T: Table, f: Field, wt: nat, bs: seq<byte>, s: Slot): (p: Parsed<Slot>)
    ensures p.Ok? ==> |p.rest| < |bs|
    decreases |bs|, 1
  {
    match s
    case One(v) =>
      (match ReadValue(T, f, wt, bs, v)
       case Fail => Fail
       case Ok(x, r) => Ok(One(x), r))
    case Opt(_, v) =>
      (match ReadValue(T, f, wt, bs, v)
       case Fail => Fail
       case Ok(x, r) => Ok(Opt(true, x), r))
    case Ptr(_) =>
      (match ReadValue(T, f, wt, bs, Fresh(T, f))
       case Fail => Fail
       case Ok(x, r) => Ok(Ptr(Some(x)), r))
    case Many(items) =>
      if wt == WT_STRING && Packable(f.ltype) then
        match ReadFrame(bs)
        case Fail => Fail
        case Ok(frame, r) =>
          match ReadPacked(f, frame, items)
          case None => Fail
          case Some(xs) => Ok(Many(xs), r)
      else if |items| >= Capacity(f) then Fail
      else
        match ReadValue(T, f, wt, bs, Fresh(T, f))
        case Fail => Fail
        case Ok(x, r) => Ok(Many(items + [x]), r)
  }

  /** The loop of pb_decode_inner over one frame. */
  function Loop(T: Table, d: nat, bs: seq<byte>, ss: seq<Slot>, seen: set<nat>): Progress
    decreases |bs|, 2
  {
    if bs == [] then Done(ss, seen)
    else
      match ReadTag(bs)
      case Fail => Stop
      case Ok((tag, wt), r) => Step(T, d, tag, wt, r, ss, seen)
  }

  /** One field, whose tag has been read, and the rest of the loop. */
  function Step(T: Table, d: nat, tag: nat, wt: nat, r: seq<byte>, ss: seq<Slot>, seen: set<nat>): Progress
    decreases |r|, 3
  {
    var i := Find(At(T, d), tag);
    if tag == 0 then Stop
    else if i < |At(T, d)| then
      if i >= |ss| then Stop
      else
        match ReadSlot(T, At(T, d)[i], wt, r, ss[i])
        case Fail => Stop
        case Ok(s, r') => Loop(T, d, r', ss[i := s], Mark(At(T, d), i, seen))
    else
      match SkipValue(wt, r)
      case Fail => Stop
      case Ok(_, r') => Loop(T, d, r', ss, seen)
  }

  /** pb_decode_inner without initialisation: a frame decoded into an existing structure. */
  function DecodeInto(T: Table, d: nat, bs: seq<byte>, ss: seq<Slot>): Option<seq<Slot>>
    decreases |bs|, 4
  {
    match Loop(T, d, bs, ss, {})
    case Stop => None
    case Done(ss', seen) => if AllSeen(At(T, d), seen) then Some(ss') else None
  }

  /** A submessage is its frame decoded into what it starts from. */
  lemma ReadSubmessage(T: Table, f: Field, bs: seq<byte>, start: Value)
    requires f.ltype.LSubmsg? && start.Msg? && ReadFrame(bs).Ok?
    ensures ReadValue(T, f, WT_STRING, bs, start)
         == match DecodeInto(T, f.sub, ReadFrame(bs).value, start.slots)
            { case None => Fail
              case Some(ss) => Ok(Msg(ss), ReadFrame(bs).rest) }
  {
  }

  /** pb_decode: a frame decoded into an initialised structure. */
  function Decode(T: Table, d: nat, bs: seq<byte>): Option<seq<Slot>> {
    DecodeInto(T, d, bs, InitMsg(T, d))
  }
}
