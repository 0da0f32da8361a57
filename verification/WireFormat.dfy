/**
  The wire format in numbers: what single values, tags and fields look like as
  bytes, with the constants of the Protocol Buffers encoding written out, and
  what every such byte string is read as, whoever wrote it.
 */
module WireFormat {
  import opened Arithmetic
  import opened Wire
  import opened Varint
  import opened Descriptor
  import opened Decoding

  // ----- varints -----

  /** A complete base-128 form: the top bit is set in all bytes but the last. */
  predicate IsVarint(form: seq<byte>) {
    |form| > 0 && form[|form| - 1] < 128 && forall i :: 0 <= i < |form| - 1 ==> form[i] >= 128
  }

  /** The number it stands for, least significant group first. */
  function NumberOf(form: seq<byte>): nat {
    if form == [] then 0 else form[0] % 128 + 128 * NumberOf(form[1..])
  }

  /** The form that is written is one of its number. */
  lemma {:induction false} NumberOfShortest(n: nat)
    ensures IsVarint(Shortest(n)) && NumberOf(Shortest(n)) == n
  {
    if n < 128 {
    } else {
      NumberOfShortest(n / 128);
      assert Shortest(n)[1..] == Shortest(n / 128);
    }
  }

  lemma TailIsVarint(form: seq<byte>)
    requires IsVarint(form) && |form| > 1
    ensures IsVarint(form[1..]) && form[0] >= 128
  {
  }

  /** Seven bits more fit exactly if the groups above them do. */
  lemma RoomForGroup(b: nat, n: nat, k: nat)
    requires b < 128 && k < 9
    ensures b + 128 * n < Room(k) <==> n < Room(k + 1)
  {
  }

  lemma {:induction false} Read64From(form: seq<byte>, k: nat, more: seq<byte>)
    requires IsVarint(form) && k <= 9
    ensures Read64(form + more, k)
         == if |form| <= 10 - k && NumberOf(form) < Room(k) then Ok(NumberOf(form), more) else Fail
    decreases |form|
  {
    if |form| == 1 {
      assert form + more == [form[0]] + more;
      assert NumberOf(form) == form[0] by { assert NumberOf(form[1..]) == 0; }
      if k < 9 { RoomForGroup(form[0], 0, k); }
    } else {
      TailIsVarint(form);
      assert (form + more)[1..] == form[1..] + more;
      if k < 9 {
        RoomForGroup(form[0] % 128, NumberOf(form[1..]), k);
        Read64From(form[1..], k + 1, more);
      }
    }
  }

  /** The 64-bit reader takes exactly the forms of ten bytes at most that stand for a 64-bit number. */
  lemma Read64IsExact(form: seq<byte>, more: seq<byte>)
    requires IsVarint(form)
    ensures Read64(form + more, 0)
         == if |form| <= 10 && NumberOf(form) < TWO64 then Ok(NumberOf(form), more) else Fail
  {
    Room0();
    Read64From(form, 0, more);
  }

  /** What no reader accepts: bytes that break off within a number. */
  lemma {:induction false} Unfinished(bs: seq<byte>, k: nat, low: nat)
    requires forall i :: 0 <= i < |bs| ==> bs[i] >= 128
    ensures Read64(bs, k) == Fail && Read32From(bs, k, low) == Fail && Skip(bs) == Fail
    decreases |bs|
  {
    if bs == [] {
    } else {
      Unfinished(bs[1..], k + 1, Gather32(bs[0], k, low));
    }
  }

  lemma {:induction false} SkipIsExact(form: seq<byte>, more: seq<byte>)
    requires IsVarint(form)
    ensures Skip(form + more) == Ok((), more)
    decreases |form|
  {
    if |form| == 1 {
      assert form + more == [form[0]] + more;
    } else {
      TailIsVarint(form);
      assert (form + more)[1..] == form[1..] + more;
      SkipIsExact(form[1..], more);
    }
  }

  /** Bits 4 to 6 of the fifth byte, which do not fit 32 bits, are zero, or a sign with bit 3. */
  predicate FifthOk(b: byte) {
    b / 0x10 % 8 == 0 || b / 8 % 0x10 == 0xF
  }

  /** A byte behind the fifth adds nothing, or extends the sign. */
  predicate ExtensionOk(b: byte, i: nat, low: nat) {
    b % 128 == 0 || (low >= 0x8000_0000 && b == if i < 9 then 0xFF else 0x01)
  }

  /** What the 32-bit reader takes. */
  predicate Is32(form: seq<byte>) {
    && |form| <= 10
    && (|form| > 4 ==> FifthOk(form[4]))
    && forall i :: 5 <= i < |form| ==> ExtensionOk(form[i], i, NumberOf(form) % 0x1_0000_0000)
  }

  /** The same for the rest of a form, k bytes into it. */
  predicate Is32From(form: seq<byte>, k: nat, low: nat) {
    && |form| + k <= 10
    && (k <= 4 < |form| + k ==> FifthOk(form[4 - k]))
    && forall i :: 0 <= i < |form| && i + k >= 5 ==> ExtensionOk(form[i], i + k, low)
  }

  lemma Is32Step(form: seq<byte>, k: nat, low: nat)
    requires IsVarint(form) && |form| > 1
    ensures Is32From(form, k, low) <==>
              && (k == 4 ==> FifthOk(form[0])) && (k >= 5 ==> k < 10 && ExtensionOk(form[0], k, low))
              && Is32From(form[1..], k + 1, low)
  {
    if Is32From(form, k, low) {
      assert k >= 5 ==> ExtensionOk(form[0], 0 + k, low);
      forall i | 0 <= i < |form[1..]| && i + (k + 1) >= 5 ensures ExtensionOk(form[1..][i], i + (k + 1), low) {
        assert ExtensionOk(form[i + 1], i + 1 + k, low);
      }
    }
    if Is32From(form[1..], k + 1, low) && (k >= 5 ==> k < 10 && ExtensionOk(form[0], k, low)) {
      forall i | 0 <= i < |form| && i + k >= 5 ensures ExtensionOk(form[i], i + k, low) {
        if i > 0 { assert ExtensionOk(form[1..][i - 1], i - 1 + (k + 1), low); }
      }
    }
  }

  /** Behind the fifth byte the low bits do not change any more. */
  lemma {:induction false} Read32Tail(form: seq<byte>, k: nat, low: nat, more: seq<byte>)
    requires IsVarint(form) && k >= 5
    ensures Read32From(form + more, k, low) == if Is32From(form, k, low) then Ok(low, more) else Fail
    decreases |form|
  {
    assert Accepts32(form[0], k, low) <==> k < 10 && ExtensionOk(form[0], k, low);
    if |form| == 1 {
      assert form + more == [form[0]] + more;
      assert Is32From(form, k, low) ==> ExtensionOk(form[0], 0 + k, low);
    } else {
      TailIsVarint(form);
      Is32Step(form, k, low);
      assert (form + more)[1..] == form[1..] + more;
      if Accepts32(form[0], k, low) { Read32Tail(form[1..], k + 1, low, more); }
    }
  }

  lemma {:induction false} Read32Start(form: seq<byte>, k: nat, low: nat, more: seq<byte>)
    requires IsVarint(form) && k <= 4 && low < Weight(k)
    ensures var whole := Low32(low, k, NumberOf(form));
            Read32From(form + more, k, low) == if Is32From(form, k, whole) then Ok(whole, more) else Fail
    decreases |form|
  {
    var b, whole := form[0], Low32(low, k, NumberOf(form));
    assert low < TWO32 by { Weights(); }
    GatherBound(b, k, low);
    if |form| == 1 {
      assert form + more == [b] + more && form[1..] == [] && NumberOf(form) == b;
      GatherLast(b, k, low);
    } else {
      TailIsVarint(form);
      Is32Step(form, k, whole);
      assert (form + more)[1..] == form[1..] + more;
      assert NumberOf(form) == b - 128 + 128 * NumberOf(form[1..]);
      GatherStep(b, k, low, NumberOf(form[1..]));
      if k == 4 {
        if FifthOk(b) { Read32Tail(form[1..], 5, whole, more); }
      } else {
        Read32Start(form[1..], k + 1, Gather32(b, k, low), more);
      }
    }
  }

  /** The 32-bit reader takes exactly those forms, and reads the number modulo 2^32. */
  lemma Read32IsExact(form: seq<byte>, more: seq<byte>)
    requires IsVarint(form)
    ensures Read32(form + more) == if Is32(form) then Ok(NumberOf(form) % 0x1_0000_0000, more) else Fail
  {
    Weights();
    OneGroup(NumberOf(form));
    Read32Start(form, 0, 0, more);
    Is32Whole(form, NumberOf(form) % 0x1_0000_0000);
  }

  lemma Is32Whole(form: seq<byte>, low: nat)
    requires low == NumberOf(form) % 0x1_0000_0000
    ensures Is32From(form, 0, low) <==> Is32(form)
  {
    if Is32From(form, 0, low) {
      forall i | 5 <= i < |form| ensures ExtensionOk(form[i], i, low) { assert ExtensionOk(form[i], i + 0, low); }
    }
  }

  /** Every byte string starts with a varint, or breaks off within one. */
  lemma {:induction false} FirstVarint(bs: seq<byte>) returns (form: seq<byte>, more: seq<byte>)
    ensures bs == form + more
    ensures IsVarint(form) || (more == [] && forall i :: 0 <= i < |form| ==> form[i] >= 128)
  {
    if bs == [] {
      form, more := [], [];
    } else if bs[0] < 128 {
      form, more := [bs[0]], bs[1..];
    } else {
      var tail;
      tail, more := FirstVarint(bs[1..]);
      form := [bs[0]] + tail;
      assert bs == [bs[0]] + (tail + more);
    }
  }

  // ----- zig-zag -----

  /** 0, -1, 1, -2 are 0, 1, 2, 3, and so on alternately. */
  lemma ZigZagAlternates(v: int)
    ensures ZigZag(0) == 0 && ZigZag(-1) == 1 && ZigZag(1) == 2 && ZigZag(-2) == 3
    ensures v > 0 ==> ZigZag(-v) == ZigZag(v) - 1 && ZigZag(v) == ZigZag(v - 1) + 2
    ensures v >= 0 ==> UnZigZag(2 * v) == v && UnZigZag(2 * v + 1) == -v - 1
  {
  }

  // ----- numbers -----

  /** The range of a signed member of the given size. */
  predicate IsInt(x: int, size: nat) {
    match size
    case 1 => -0x80 <= x < 0x80
    case 2 => -0x8000 <= x < 0x8000
    case 4 => -0x8000_0000 <= x < 0x8000_0000
    case 8 => -0x8000_0000_0000_0000 <= x < 0x8000_0000_0000_0000
    case _ => false
  }

  predicate IsUInt(x: int, size: nat) {
    match size
    case 1 => 0 <= x < 0x100
    case 2 => 0 <= x < 0x1_0000
    case 4 => 0 <= x < 0x1_0000_0000
    case 8 => 0 <= x < 0x1_0000_0000_0000_0000
    case _ => false
  }

  /** A varint of the wire, or an element of a packed array. */
  predicate TakesVarint(wt: nat) {
    wt == 0 || wt == 255
  }

  lemma SameResidue(x: int, n: int, m: int)
    requires m > 0
    ensures (x - n) % m == 0 <==> x % m == n % m
  {
    var q, r, p, s := x / m, x % m, n / m, n % m;
    if (x - n) % m == 0 {
      var k := (x - n) / m;
      assert x == (p + k) * m + s;
      DivUnique(q, r, p + k, s, m);
    }
    if r == s {
      assert x - n == (q - p) * m + 0;
      DivUnique((x - n) / m, (x - n) % m, q - p, 0, m);
    }
  }

  /** Of the numbers in the upper and lower half of a word, one has the given low bits. */
  lemma SignedIsResidue(n: nat, half: int, x: int)
    requires half > 0 && n < 2 * half
    ensures Signed(n, half) == x <==> -half <= x < half && (x - n) % (2 * half) == 0
  {
    SameResidue(x, n, 2 * half);
    if -half <= x < half {
      DivUnique(x / (2 * half), x % (2 * half), if x < 0 then -1 else 0, if x < 0 then x + 2 * half else x, 2 * half);
      DivUnique(n / (2 * half), n % (2 * half), 0, n, 2 * half);
    }
  }

  /** Which of its forms a 64-bit reader takes: ten bytes at most, for a 64-bit number. */
  predicate Is64(form: seq<byte>) {
    |form| <= 10 && NumberOf(form) < 0x1_0000_0000_0000_0000
  }

  /**
    Which number x a member takes from the number n of a varint. int32, int64
    and their small variants: n modulo 2^64 for members of eight bytes, modulo
    2^32 for smaller ones. uint32, uint64: n itself. sint32, sint64: n counts
    0, -1, 1, -2 and so on. In each case only what is in the range of the member.
   */
  predicate StandsFor(f: Field, n: nat, x: int) {
    match f.ltype
    case LVarint =>
      IsInt(x, f.dataSize) && (x - n) % (if f.dataSize == 8 then 0x1_0000_0000_0000_0000 else 0x1_0000_0000) == 0
    case LUVarint => IsUInt(x, f.dataSize) && x == n
    case LSVarint => IsInt(x, f.dataSize) && n == if x < 0 then -2 * x - 1 else 2 * x
    case _ => false
  }

  lemma NarrowToWord(f: Field, n: nat, x: int)
    requires f.ltype.LVarint? && f.dataSize == 8 && n < 0x1_0000_0000_0000_0000
    ensures Narrow(f, n) == Some(x) <==> IsInt(x, 8) && (x - n) % 0x1_0000_0000_0000_0000 == 0
  {
    SignedIsResidue(n, 0x8000_0000_0000_0000, x);
  }

  lemma NarrowToHalf(f: Field, n: nat, x: int)
    requires f.ltype.LVarint? && f.dataSize != 8
    ensures Narrow(f, n) == Some(x) <==> IsInt(x, f.dataSize) && (x - n) % 0x1_0000_0000 == 0
  {
    var low := n % 0x1_0000_0000;
    SignedIsResidue(low, 0x8000_0000, x);
    SameResidue(x, n, 0x1_0000_0000);
    SameResidue(x, low, 0x1_0000_0000);
  }

  /** The casts of the decoder find that number, or refuse when there is none. */
  lemma NarrowIsExact(f: Field, n: nat, x: int)
    requires f.ltype.LVarint? || f.ltype.LUVarint? || f.ltype.LSVarint?
    requires n < 0x1_0000_0000_0000_0000
    ensures Narrow(f, n) == Some(x) <==> StandsFor(f, n, x)
  {
    if f.ltype.LVarint? {
      if f.dataSize == 8 { NarrowToWord(f, n, x); } else { NarrowToHalf(f, n, x); }
    }
  }

  /** A number is read exactly from the forms of ten bytes and 64 bits at most that stand for one. */
  lemma NumberIsRead(f: Field, wt: nat, form: seq<byte>, more: seq<byte>, x: int)
    requires f.ltype.LVarint? || f.ltype.LUVarint? || f.ltype.LSVarint?
    requires TakesVarint(wt) && IsVarint(form)
    ensures ReadNum(f, wt, form + more) == Ok(x, more) <==> Is64(form) && StandsFor(f, NumberOf(form), x)
    ensures ReadNum(f, wt, form + more).Ok? ==> ReadNum(f, wt, form + more).rest == more
  {
    Read64IsExact(form, more);
    if Is64(form) { NarrowIsExact(f, NumberOf(form), x); }
  }

  /** Ten bytes or five: older encoders write a negative int32 in 32 bits, and it is read as what was meant. */
  lemma Negative32IsRead(f: Field, n: nat, more: seq<byte>)
    requires f.ltype.LVarint? && f.dataSize == 4 && 0x8000_0000 <= n < 0x1_0000_0000
    ensures ReadNum(f, 0, Shortest(n) + more) == Ok(n - 0x1_0000_0000, more)
    ensures ReadNum(f, 0, Shortest(n + 0xFFFF_FFFF_0000_0000) + more) == Ok(n - 0x1_0000_0000, more)
  {
    var x := n - 0x1_0000_0000;
    RoundTrip64(n, more);
    NarrowIsExact(f, n, x);
    RoundTrip64(n + 0xFFFF_FFFF_0000_0000, more);
    NarrowIsExact(f, n + 0xFFFF_FFFF_0000_0000, x);
  }

  /** A boolean is whether the low 32 bits are not all zero. */
  lemma BoolIsRead(f: Field, wt: nat, form: seq<byte>, more: seq<byte>)
    requires f.ltype.LBool? && TakesVarint(wt) && IsVarint(form)
    ensures ReadNum(f, wt, form + more)
         == if !Is32(form) then Fail else Ok(if NumberOf(form) % 0x1_0000_0000 == 0 then 0 else 1, more)
  {
    Read32IsExact(form, more);
  }

  /** float, fixed32 and sfixed32: four bytes, least significant first. */
  lemma Fixed32IsRead(f: Field, wt: nat, b0: byte, b1: byte, b2: byte, b3: byte, more: seq<byte>)
    requires f.ltype.LFixed32? && (wt == 5 || wt == 255)
    ensures ReadNum(f, wt, [b0, b1, b2, b3] + more) == Ok(b0 + 0x100 * b1 + 0x1_0000 * b2 + 0x100_0000 * b3, more)
  {
    var bs := [b0, b1, b2, b3];
    assert (bs + more)[..4] == bs && (bs + more)[4..] == more;
    assert bs + [] == bs;
    FourBytes(b0, b1, b2, b3, []);
  }

  lemma FourBytes(b0: byte, b1: byte, b2: byte, b3: byte, tail: seq<byte>)
    ensures FromLittleEndian([b0, b1, b2, b3] + tail)
         == b0 + 0x100 * b1 + 0x1_0000 * b2 + 0x100_0000 * b3 + 0x1_0000_0000 * FromLittleEndian(tail)
  {
    var s3 := [b3] + tail;
    var s2 := [b2] + s3;
    var s1 := [b1] + s2;
    assert [b0, b1, b2, b3] + tail == [b0] + s1;
    assert FromLittleEndian(s3) == b3 + 256 * FromLittleEndian(tail) by { assert s3[1..] == tail; }
    assert FromLittleEndian(s2) == b2 + 256 * FromLittleEndian(s3) by { assert s2[1..] == s3; }
    assert FromLittleEndian(s1) == b1 + 256 * FromLittleEndian(s2) by { assert s1[1..] == s2; }
    assert ([b0] + s1)[1..] == s1;
  }

  /** double, fixed64 and sfixed64: eight. */
  lemma Fixed64IsRead(
    f: Field, wt: nat,
    b0: byte, b1: byte, b2: byte, b3: byte, b4: byte, b5: byte, b6: byte, b7: byte, more: seq<byte>)
    requires f.ltype.LFixed64? && (wt == 1 || wt == 255)
    ensures ReadNum(f, wt, [b0, b1, b2, b3, b4, b5, b6, b7] + more)
         == Ok(b0 + 0x100 * b1 + 0x1_0000 * b2 + 0x100_0000 * b3 + 0x1_0000_0000 * b4 + 0x100_0000_0000 * b5
               + 0x1_0000_0000_0000 * b6 + 0x100_0000_0000_0000 * b7, more)
  {
    var low, high := [b0, b1, b2, b3], [b4, b5, b6, b7];
    var bs := [b0, b1, b2, b3, b4, b5, b6, b7];
    assert (bs + more)[..8] == bs && (bs + more)[8..] == more;
    assert bs == low + high && high + [] == high;
    FourBytes(b0, b1, b2, b3, high);
    FourBytes(b4, b5, b6, b7, []);
  }

  /** Every other input is refused: a wrong wire type, and bytes that break off. */
  lemma NumberIsRefused(f: Field, wt: nat, bs: seq<byte>)
    requires wt != 255
    requires match f.ltype
             case LFixed32 => wt != 5 || |bs| < 4
             case LFixed64 => wt != 1 || |bs| < 8
             case _ => wt != 0 || forall i :: 0 <= i < |bs| ==> bs[i] >= 128
    ensures ReadNum(f, wt, bs) == Fail
  {
    if !f.ltype.LFixed32? && !f.ltype.LFixed64? && wt == 0 { Unfinished(bs, 0, 0); }
  }

  // ----- strings and byte arrays -----

  /** The number of bytes a length prefix announces. */
  function LengthOf(form: seq<byte>): nat {
    NumberOf(form) % 0x1_0000_0000
  }

  /** A prefix is any form the 32-bit reader takes, and its bytes must all be there. */
  lemma FrameIsRead(form: seq<byte>, payload: seq<byte>)
    requires IsVarint(form)
    ensures var n := LengthOf(form);
            ReadFrame(form + payload)
              == if !Is32(form) || n > |payload| then Fail else Ok(payload[..n], payload[n..])
  {
    Read32IsExact(form, payload);
  }

  /** bytes: as announced, if they fit the member behind its count of four bytes. */
  lemma BytesAreRead(f: Field, form: seq<byte>, payload: seq<byte>)
    requires f.ltype.LBytes? && IsVarint(form)
    ensures var n := LengthOf(form);
            ReadBlob(f, 2, form + payload)
              == if !Is32(form) || n > |payload| || (f.atype.Static? && n + 4 > f.dataSize) then Fail
                 else Ok(payload[..n], payload[n..])
  {
    Read32IsExact(form, payload);
  }

  /** string: what is before the first NUL, if the announced bytes and a NUL behind them fit the member. */
  lemma StringIsRead(f: Field, form: seq<byte>, text: seq<byte>, more: seq<byte>)
    requires f.ltype.LString? && IsVarint(form) && LengthOf(form) == |text|
    ensures ReadBlob(f, 2, form + (text + more))
         == if !Is32(form) || |text| == 0xFFFF_FFFF || (f.atype.Static? && |text| >= f.dataSize) then Fail
            else Ok(CString(text), more)
  {
    Read32IsExact(form, text + more);
    assert (text + more)[..|text|] == text && (text + more)[|text|..] == more;
  }

  /** A longer announcement than there are bytes is refused. */
  lemma TruncatedIsRefused(f: Field, form: seq<byte>, payload: seq<byte>)
    requires IsVarint(form) && LengthOf(form) > |payload| && (f.ltype.LFixedBytes? ==> LengthOf(form) > 0)
    ensures ReadBlob(f, 2, form + payload) == Fail && ReadFrame(form + payload) == Fail
  {
    Read32IsExact(form, payload);
  }

  /** So is a length, or anything else in a varint, that breaks off. */
  lemma BrokenOffIsRefused(f: Field, bs: seq<byte>)
    requires forall i :: 0 <= i < |bs| ==> bs[i] >= 128
    ensures ReadTag(bs) == Fail && ReadFrame(bs) == Fail && ReadBlob(f, 2, bs) == Fail
    ensures SkipValue(0, bs) == Fail && SkipValue(2, bs) == Fail
  {
    Unfinished(bs, 0, 0);
  }

  /** fixed-length bytes: exactly as many, or none at all for all zeros. */
  lemma FixedBytesAreRead(f: Field, form: seq<byte>, payload: seq<byte>)
    requires f.ltype.LFixedBytes? && IsVarint(form)
    ensures var n := LengthOf(form);
            ReadBlob(f, 2, form + payload)
              == if Is32(form) && n == 0 then Ok(Zeros(f.dataSize), payload)
                 else if !Is32(form) || n > |payload| || n != f.dataSize then Fail
                 else Ok(payload[..n], payload[n..])
  {
    Read32IsExact(form, payload);
  }

  /** A length of zero clears the member. */
  lemma EmptyIsZeros(f: Field, more: seq<byte>)
    requires f.ltype.LFixedBytes?
    ensures ReadBlob(f, 2, [0] + more) == Ok(Zeros(f.dataSize), more)
  {
    FixedBytesAreRead(f, [0], more);
  }

  // ----- tags and unknown fields -----

  /** A tag is eight times the field number, plus the wire type. */
  lemma TagIsRead(form: seq<byte>, more: seq<byte>)
    requires IsVarint(form)
    ensures ReadTag(form + more)
         == if Is32(form) then Ok((NumberOf(form) % 0x1_0000_0000 / 8, NumberOf(form) % 8), more) else Fail
  {
    Read32IsExact(form, more);
    LowBits(NumberOf(form));
  }

  lemma LowBits(n: nat)
    ensures n % 0x1_0000_0000 % 8 == n % 8
  {
  }

  /** Wire type 0 is a varint of any length, 1 eight bytes, 5 four bytes, 2 a prefix and its bytes; nothing else is. */
  lemma SkipIsByWireType(wt: nat, form: seq<byte>, more: seq<byte>)
    requires IsVarint(form)
    ensures SkipValue(0, form + more) == Ok((), more)
    ensures SkipValue(1, more) == if |more| < 8 then Fail else Ok((), more[8..])
    ensures SkipValue(5, more) == if |more| < 4 then Fail else Ok((), more[4..])
    ensures SkipValue(2, form + more)
         == if !Is32(form) || LengthOf(form) > |more| then Fail else Ok((), more[LengthOf(form)..])
    ensures wt !in {0, 1, 2, 5} ==> SkipValue(wt, more) == Fail
  {
    SkipIsExact(form, more);
    FrameIsRead(form, more);
  }

  /** The wire type each field type must have. */
  function ExpectedType(l: LType): nat {
    match l
    case LBool | LVarint | LUVarint | LSVarint => 0
    case LFixed64 => 1
    case LFixed32 => 5
    case LBytes | LString | LSubmsg | LFixedBytes => 2
  }

  /** A field with any other is refused, but for wire type 2, which packs numbers of an array. */
  lemma OtherTypesAreRefused(T: Table, f: Field, wt: nat, bs: seq<byte>, s: Slot)
    requires wt < 8 && wt != ExpectedType(f.ltype)
    requires !(s.Many? && wt == 2)
    ensures ReadSlot(T, f, wt, bs, s) == Fail
  {
  }
}
