/**
  Base 128 varints: the shortest form, the 64-bit and 32-bit readers of
  pb_decode.c as functions of the bytes they see, and zig-zag numbers.
 */
module Varint {
  import opened Arithmetic
  import opened Wire

  /** The shortest base-128 form, least significant group first. */
  function Shortest(n: nat): (bs: seq<byte>)
    ensures |bs| > 0
    ensures forall i :: 0 <= i < |bs| - 1 ==> bs[i] >= 128
    ensures bs[|bs| - 1] < 128
    ensures |bs| > 1 ==> bs[|bs| - 1] != 0
  {
    if n < 128 then [n] else [128 + n % 128] + Shortest(n / 128)
  }

  /** 2 to the power 64 - 7k: what k groups of seven bits leave of a 64-bit word. */
  function Room(k: nat): (r: nat)
    requires k <= 9
    ensures r >= 2
    decreases 9 - k
  {
    if k == 9 then 2 else 128 * Room(k + 1)
  }

  /** The 64-bit reader, having already read k bytes. */
  function Read64(bs: seq<byte>, k: nat): (p: Parsed<nat>)
    ensures p.Ok? ==> |p.rest| < |bs|
    decreases |bs|
  {
    if bs == [] then Fail
    else if k >= 9 && bs[0] >= 2 then Fail
    else if bs[0] < 128 then Ok(bs[0], bs[1..])
    else
      match Read64(bs[1..], k + 1)
      case Fail => Fail
      case Ok(v, rest) => Ok(bs[0] - 128 + 128 * v, rest)
  }

  /** Weight of the seven-bit group that follows k groups. */
  function Weight(k: nat): (w: nat)
    ensures w > 0
  {
    if k == 0 then 1 else 128 * Weight(k - 1)
  }

  /** Whether the 32-bit reader takes byte b as byte number k, after the low bits `low`. */
  predicate Accepts32(b: byte, k: nat, low: nat) {
    if k >= 5 then
      k < 10 && (b % 128 == 0 || (low >= TWO31 && b == if k < 9 then 0xFF else 0x01))
    else if k == 4 then
      b / 16 % 8 == 0 || b / 8 % 16 == 15
    else true
  }

  /** The low 32 bits after byte b has been read as byte number k. */
  function Gather32(b: byte, k: nat, low: nat): nat {
    if k >= 5 then low
    else if k == 4 then low + (b % 16) * Weight(4)
    else low + (b % 128) * Weight(k)
  }

  /** The 32-bit reader, having already read k bytes that gave the bits `low`. */
  function Read32From(bs: seq<byte>, k: nat, low: nat): (p: Parsed<nat>)
    ensures p.Ok? ==> |p.rest| < |bs|
    decreases |bs|
  {
    if bs == [] || !Accepts32(bs[0], k, low) then Fail
    else if bs[0] < 128 then Ok(Gather32(bs[0], k, low), bs[1..])
    else Read32From(bs[1..], k + 1, Gather32(bs[0], k, low))
  }

  function Read32(bs: seq<byte>): (p: Parsed<nat>)
    ensures p.Ok? ==> |p.rest| < |bs|
  {
    Read32From(bs, 0, 0)
  }

  lemma Weights()
    ensures Weight(0) == 1 && Weight(1) == 0x80 && Weight(2) == 0x4000
    ensures Weight(3) == 0x20_0000 && Weight(4) == 0x1000_0000 && Weight(5) == 0x8_0000_0000
  {
    assert Weight(2) == 128 * Weight(1);
    assert Weight(4) == 128 * Weight(3) && Weight(3) == 128 * Weight(2);
  }

  /** Every accepted number fits the word. */
  lemma {:induction false} Read64Bound(bs: seq<byte>, k: nat)
    requires k <= 9 && Read64(bs, k).Ok?
    ensures Read64(bs, k).value < Room(k)
    ensures |bs| - |Read64(bs, k).rest| <= 10 - k
    decreases |bs|
  {
    if bs[0] < 128 {
    } else {
      Read64Bound(bs[1..], k + 1);
    }
  }

  lemma Room0()
    ensures Room(0) == TWO64
  {
    assert Room(8) == 0x100 && Room(7) == 0x8000 && Room(6) == 0x40_0000;
    assert Room(5) == 0x2000_0000 && Room(4) == 0x10_0000_0000 && Room(3) == 0x800_0000_0000;
    assert Room(2) == 0x4_0000_0000_0000 && Room(1) == 0x200_0000_0000_0000;
  }

  lemma GroupLess(n: nat, k: nat)
    requires k <= 9 && 128 <= n < Room(k)
    ensures k < 9 && n / 128 < Room(k + 1)
  {
  }

  lemma {:induction false} Read64Shortest(n: nat, k: nat, more: seq<byte>)
    requires k <= 9 && n < Room(k)
    ensures Read64(Shortest(n) + more, k) == Ok(n, more)
    ensures |Shortest(n)| <= 10 - k
    decreases n
  {
    if n < 128 {
      assert ([n] + more)[1..] == more;
    } else {
      assert k < 9 && n / 128 < Room(k + 1) by { GroupLess(n, k); }
      Read64Shortest(n / 128, k + 1, more);
      assert (Shortest(n) + more)[1..] == Shortest(n / 128) + more;
    }
  }

  /** For every 64-bit number: at most ten bytes, read back exactly, whatever follows. */
  lemma RoundTrip64(n: nat, more: seq<byte>)
    requires n < TWO64
    ensures Read64(Shortest(n) + more, 0) == Ok(n, more)
    ensures 1 <= |Shortest(n)| <= 10
  {
    Room0();
    Read64Shortest(n, 0, more);
  }

  /** No accepted form of a number is shorter than Shortest. */
  lemma {:induction false} ShortestIsShortest(bs: seq<byte>, k: nat)
    requires Read64(bs, k).Ok?
    ensures |Shortest(Read64(bs, k).value)| <= |bs| - |Read64(bs, k).rest|
    decreases |bs|
  {
    if bs[0] < 128 {
    } else {
      ShortestIsShortest(bs[1..], k + 1);
      var v := Read64(bs[1..], k + 1).value;
      var n := bs[0] - 128 + 128 * v;
      assert n / 128 == v;
    }
  }

  lemma {:induction false} ShortestGrows(m: nat, n: nat)
    requires m <= n
    ensures |Shortest(m)| <= |Shortest(n)|
  {
    if n >= 128 && m >= 128 { ShortestGrows(m / 128, n / 128); }
  }

  // ----- the 32-bit reader against the 64-bit reader -----

  lemma {:induction false} Read32RefinesFrom(bs: seq<byte>, k: nat, low: nat)
    requires k < 5 ==> low < Weight(k)
    requires low < TWO32 && k <= 10
    requires Read32From(bs, k, low).Ok?
    ensures k <= 9 && Read64(bs, k).Ok?
    ensures Read64(bs, k).rest == Read32From(bs, k, low).rest
    ensures k < 5 ==> Read32From(bs, k, low).value == Low32(low, k, Read64(bs, k).value)
    ensures k >= 5 ==> Read32From(bs, k, low).value == low
    ensures Read32From(bs, k, low).value < TWO32
    decreases |bs|
  {
    var b := bs[0];
    var g := Gather32(b, k, low);
    GatherBound(b, k, low);
    if b >= 128 {
      Read32RefinesFrom(bs[1..], k + 1, g);
      var v := Read64(bs[1..], k + 1).value;
      if k < 5 { GatherStep(b, k, low, v); }
    } else if k < 5 {
      GatherLast(b, k, low);
    }
  }

  /** The number whose first k groups are `low` and whose other groups form v. */
  function Joined(low: nat, k: nat, v: nat): nat {
    low + Weight(k) * v
  }

  /** The low 32 bits of that number. */
  function Low32(low: nat, k: nat, v: nat): nat {
    Joined(low, k, v) % TWO32
  }

  lemma GatherBound(b: byte, k: nat, low: nat)
    requires k < 5 ==> low < Weight(k)
    requires low < TWO32
    ensures k < 4 ==> Gather32(b, k, low) < Weight(k + 1)
    ensures Gather32(b, k, low) < TWO32
  {
    Weights();
  }

  lemma JoinedStep(b: nat, k: nat, low: nat, v: nat)
    requires b >= 128
    ensures Joined(low, k, b - 128 + 128 * v) == Joined(low + (b - 128) * Weight(k), k + 1, v)
  {
    Regroup(v, 128, b - 128, Weight(k));
  }

  lemma GatherStep(b: byte, k: nat, low: nat, v: nat)
    requires k < 5 && low < Weight(k) && b >= 128
    ensures Low32(low, k, b - 128 + 128 * v)
         == if k < 4 then Low32(Gather32(b, k, low), k + 1, v) else Gather32(b, k, low)
  {
    if k < 4 {
      JoinedStep(b, k, low, v);
      assert b % 128 == b - 128;
    } else {
      FifthGather(b, low, b - 128 + 128 * v);
    }
  }

  lemma GatherLast(b: byte, k: nat, low: nat)
    requires k < 5 && low < Weight(k) && low < TWO32 && b < 128
    ensures Low32(low, k, b) == Gather32(b, k, low)
  {
    if k == 4 {
      FifthGather(b, low, b);
    } else {
      assert Joined(low, k, b) == Gather32(b, k, low) by { assert b % 128 == b; }
      GatherBound(b, k, low);
    }
  }

  /** Of the fifth group and everything after it only four bits reach the low word. */
  lemma FifthGather(b: byte, low: nat, x: nat)
    requires low < Weight(4) && x % 16 == b % 16
    ensures Low32(low, 4, x) == Gather32(b, 4, low)
  {
    Weights();
    Discard(low, x);
  }

  /** Adding a multiple of 2^28 to 28 bits keeps only four bits of it, modulo 2^32. */
  lemma Discard(low: nat, x: nat)
    requires low < 0x1000_0000
    ensures (low + 0x1000_0000 * x) % TWO32 == low + 0x1000_0000 * (x % 16)
  {
    assert low + 0x1000_0000 * x == low + 0x1000_0000 * (x % 16) + TWO32 * (x / 16);
  }

  /**
    Whatever the 32-bit reader accepts, the 64-bit reader accepts with the
    same number of bytes, at most ten, and a value equal modulo 2^32.
   */
  lemma Read32Refines64(bs: seq<byte>)
    requires Read32(bs).Ok?
    ensures Read64(bs, 0).Ok?
    ensures Read64(bs, 0).rest == Read32(bs).rest
    ensures Read64(bs, 0).value % TWO32 == Read32(bs).value
    ensures |bs| - |Read32(bs).rest| <= 10
  {
    Weights();
    Read32RefinesFrom(bs, 0, 0);
    Read64Bound(bs, 0);
  }

  /** One step of the 32-bit reader over a shortest form of more than one byte. */
  lemma Continue32(n: nat, k: nat, low: nat, more: seq<byte>)
    requires n >= 128 && Accepts32(128 + n % 128, k, low)
    ensures Read32From(Shortest(n) + more, k, low)
         == Read32From(Shortest(n / 128) + more, k + 1, Gather32(128 + n % 128, k, low))
  {
    var bs := Shortest(n) + more;
    assert bs[0] == 128 + n % 128 && bs[1..] == Shortest(n / 128) + more;
  }

  lemma Last32(n: nat, k: nat, low: nat, more: seq<byte>)
    requires n < 128 && Accepts32(n, k, low)
    ensures Read32From(Shortest(n) + more, k, low) == Ok(Gather32(n, k, low), more)
  {
    var bs := Shortest(n) + more;
    assert bs == [n] + more && bs[1..] == more;
  }

  /** Taking a group into the low bits keeps the number that is being read. */
  lemma GatherKeeps(n: nat, k: nat, low: nat)
    requires k < 4
    ensures n >= 128 ==>
              Gather32(128 + n % 128, k, low) + Weight(k + 1) * (n / 128) == low + Weight(k) * n
    ensures n < 128 ==> Gather32(n, k, low) == low + Weight(k) * n
  {
    if n >= 128 {
      assert (128 + n % 128) % 128 == n % 128;
      Regroup(n / 128, 128, n % 128, Weight(k));
    }
  }

  lemma FifthSmall(n: nat, low: nat)
    requires low + Weight(4) * n < TWO32
    ensures n < 16 && Gather32(n, 4, low) == low + Weight(4) * n
  {
    Weights();
  }

  lemma {:induction false} Read32ShortestFrom(n: nat, k: nat, low: nat, more: seq<byte>)
    requires k <= 4 && low < Weight(k) && low + Weight(k) * n < TWO32
    ensures Read32From(Shortest(n) + more, k, low) == Ok(low + Weight(k) * n, more)
    decreases n
  {
    if k == 4 {
      FifthSmall(n, low);
      Last32(n, 4, low, more);
    } else if n < 128 {
      GatherKeeps(n, k, low);
      Last32(n, k, low, more);
    } else {
      var g := Gather32(128 + n % 128, k, low);
      assert g + Weight(k + 1) * (n / 128) == low + Weight(k) * n by { GatherKeeps(n, k, low); }
      Continue32(n, k, low, more);
      assert g < Weight(k + 1) by { GatherBound(128 + n % 128, k, low); }
      Read32ShortestFrom(n / 128, k + 1, g, more);
    }
  }

  /** The 32-bit reader accepts the shortest form of every 32-bit number. */
  lemma RoundTrip32(n: nat, more: seq<byte>)
    requires n < TWO32
    ensures Read32(Shortest(n) + more) == Ok(n, more)
    ensures |Shortest(n)| <= 10
  {
    Weights();
    Read32ShortestFrom(n, 0, 0, more);
    RoundTrip64(n, more);
  }

  /** The five-byte forms that pass for negative numbers. */
  const LAST_REFUSED: int := 0x7_8000_0000
  const FIVE_BYTES: int := 0x8_0000_0000

  /** What the 32-bit reader makes of numbers that do not fit 32 bits. */
  function LongOutcome(n: nat, more: seq<byte>): Parsed<nat> {
    if LAST_REFUSED <= n < FIVE_BYTES then Ok(n % TWO32, more) else Fail
  }

  lemma LongFifth(n: nat, low: nat, more: seq<byte>)
    requires low < Weight(4) && TWO32 <= low + Weight(4) * n < FIVE_BYTES
    ensures Read32From(Shortest(n) + more, 4, low) == LongOutcome(low + Weight(4) * n, more)
  {
    Weights();
    assert 16 <= n < 128;
    assert Shortest(n) + more == [n] + more;
    if n >= 120 {
      Last32(n, 4, low, more);
      Discard(low, n);
    } else {
      assert !Accepts32(n, 4, low);
    }
  }

  lemma LongContinues(n: nat, k: nat, low: nat)
    requires k < 4 && low < Weight(k) && TWO32 <= low + Weight(k) * n
    ensures n >= 128
  {
    Weights();
  }

  lemma {:induction false} Read32LongFrom(n: nat, k: nat, low: nat, more: seq<byte>)
    requires k <= 4 && low < Weight(k) && TWO32 <= low + Weight(k) * n < FIVE_BYTES
    ensures Read32From(Shortest(n) + more, k, low) == LongOutcome(low + Weight(k) * n, more)
    decreases n
  {
    if k == 4 {
      LongFifth(n, low, more);
    } else {
      LongContinues(n, k, low);
      var g := Gather32(128 + n % 128, k, low);
      assert g + Weight(k + 1) * (n / 128) == low + Weight(k) * n by { GatherKeeps(n, k, low); }
      Continue32(n, k, low, more);
      assert g < Weight(k + 1) by { Weights(); GatherBound(128 + n % 128, k, low); }
      Read32LongFrom(n / 128, k + 1, g, more);
    }
  }

  lemma OneGroup(n: nat)
    ensures Weight(0) > 0 && 0 + Weight(0) * n == n
  {
  }

  lemma FiveBytes(n: nat, more: seq<byte>)
    requires TWO32 <= n < FIVE_BYTES
    ensures Read32(Shortest(n) + more) == LongOutcome(n, more)
  {
    OneGroup(n);
    Read32LongFrom(n, 0, 0, more);
  }

  lemma LastWeight()
    ensures Weight(9) == TWO63
  {
    Weights();
    assert Weight(9) == 128 * Weight(8) && Weight(8) == 128 * Weight(7);
    assert Weight(7) == 128 * Weight(6) && Weight(6) == 128 * Weight(5);
  }

  /** Behind the fifth byte the last byte of a shortest form is neither zero nor a sign extension. */
  lemma {:induction false} TailIsRefused(n: nat, k: nat, low: nat, more: seq<byte>)
    requires 5 <= k <= 8 && 0 < n < Weight(9 - k)
    ensures Read32From(Shortest(n) + more, k, low) == Fail
    decreases 8 - k
  {
    if n < 128 {
      assert Shortest(n) + more == [n] + more;
    } else if Accepts32(128 + n % 128, k, low) {
      assert Weight(9 - k) == 128 * Weight(8 - k);
      assert k == 8 ==> Weight(1) == 128 by { Weights(); }
      Continue32(n, k, low, more);
      TailIsRefused(n / 128, k + 1, low, more);
    } else {
      assert (Shortest(n) + more)[0] == 128 + n % 128;
    }
  }

  lemma {:induction false} BeyondFive(n: nat, k: nat, low: nat, more: seq<byte>)
    requires k <= 5 && Weight(5 - k) <= n < Weight(9 - k)
    ensures Read32From(Shortest(n) + more, k, low) == Fail
    decreases 5 - k
  {
    if k == 5 {
      TailIsRefused(n, 5, low, more);
    } else {
      assert Weight(9 - k) == 128 * Weight(8 - k) && Weight(5 - k) == 128 * Weight(4 - k);
      assert (Shortest(n) + more)[0] == 128 + n % 128;
      if Accepts32(128 + n % 128, k, low) {
        Continue32(n, k, low, more);
        BeyondFive(n / 128, k + 1, Gather32(128 + n % 128, k, low), more);
      }
    }
  }

  /**
    A length of 2^32 or more is refused by the 32-bit reader, except that the
    largest numbers of five bytes pass for negative ones and lose their upper bits.
   */
  lemma LongLength(n: nat, more: seq<byte>)
    requires TWO32 <= n < TWO63
    ensures Read32(Shortest(n) + more) == LongOutcome(n, more)
  {
    if n < FIVE_BYTES {
      FiveBytes(n, more);
    } else {
      assert Weight(5) <= n < Weight(9) by {
        Weights();
        LastWeight();
      }
      BeyondFive(n, 0, 0, more);
    }
  }

  /** What follows the fifth byte of a negative number: 7j + 1 sign bits. */
  function SignBits(j: nat): (n: nat)
    ensures n % 2 == 1
  {
    if j == 0 then 1 else 127 + 128 * SignBits(j - 1)
  }

  lemma {:induction false} SignTail(j: nat, low: nat, more: seq<byte>)
    requires j <= 4 && TWO31 <= low < TWO32
    ensures Read32From(Shortest(SignBits(j)) + more, 9 - j, low) == Ok(low, more)
  {
    if j == 0 {
      Last32(1, 9, low, more);
    } else {
      var n := SignBits(j);
      assert 128 + n % 128 == 0xFF && n / 128 == SignBits(j - 1);
      Continue32(n, 9 - j, low, more);
      SignTail(j - 1, low, more);
    }
  }

  lemma {:induction false} Read32NegativeFrom(n: nat, k: nat, low: nat, v: nat, more: seq<byte>)
    requires k <= 4 && low < Weight(k) && TWO31 <= v < TWO32
    requires low + Weight(k) * n == TWO64 - TWO32 + v
    ensures Read32From(Shortest(n) + more, k, low) == Ok(v, more)
    decreases 4 - k
  {
    Long(n, k, low, v);
    if k == 4 {
      NegativeTail(n, low, v, more);
    } else {
      var g := Gather32(128 + n % 128, k, low);
      assert g + Weight(k + 1) * (n / 128) == low + Weight(k) * n by { GatherKeeps(n, k, low); }
      assert g < Weight(k + 1) by { Weights(); GatherBound(128 + n % 128, k, low); }
      Continue32(n, k, low, more);
      Read32NegativeFrom(n / 128, k + 1, g, v, more);
    }
  }

  lemma NegativeTail(n: nat, low: nat, v: nat, more: seq<byte>)
    requires n >= 128 && low < Weight(4) && TWO31 <= v < TWO32
    requires low + Weight(4) * n == TWO64 - TWO32 + v
    ensures Read32From(Shortest(n) + more, 4, low) == Ok(v, more)
  {
    assert Accepts32(128 + n % 128, 4, low) && Gather32(128 + n % 128, 4, low) == v && n / 128 == SignBits(4) by {
      Weights();
      FifthByte(n, low, v);
    }
    Continue32(n, 4, low, more);
    SignTail(4, v, more);
  }

  lemma Long(n: nat, k: nat, low: nat, v: nat)
    requires k <= 4 && low < Weight(k)
    requires low + Weight(k) * n == TWO64 - TWO32 + v
    ensures n >= 128
  {
    Weights();
  }

  lemma FifthByte(n: nat, low: nat, v: nat)
    requires low < 0x1000_0000 && TWO31 <= v < TWO32
    requires low + 0x1000_0000 * n == TWO64 - TWO32 + v
    ensures n / 128 == SignBits(4)
    ensures (128 + n % 128) / 8 % 16 == 15
    ensures low + 0x1000_0000 * ((128 + n % 128) % 16) == v
  {
    assert SignBits(2) == 127 + 128 * 255 && SignBits(4) == 0x1FFF_FFFF;
    var q := v / 0x1000_0000;
    assert 8 <= q < 16;
    assert n == 0xF_FFFF_FFF0 + q;
  }

  /** It also accepts the ten-byte form of every negative 32-bit number. */
  lemma Negative32(v: nat, more: seq<byte>)
    requires TWO31 <= v < TWO32
    ensures Read32(Shortest(TWO64 - TWO32 + v) + more) == Ok(v, more)
  {
    Weights();
    Read32NegativeFrom(TWO64 - TWO32 + v, 0, 0, v, more);
  }

  // ----- skipping -----

  /** pb_skip_varint: drop bytes up to the first one below 0x80. */
  function Skip(bs: seq<byte>): (p: Parsed<()>)
    ensures p.Ok? ==> |p.rest| < |bs|
    decreases |bs|
  {
    if bs == [] then Fail
    else if bs[0] < 128 then Ok((), bs[1..])
    else Skip(bs[1..])
  }

  /** A complete varint is read the same way whatever follows it. */
  lemma {:induction false} Read64Local(bs: seq<byte>, k: nat, more: seq<byte>)
    requires Skip(bs).Ok?
    ensures Read64(bs + more, k) == Read64(bs, k).Then(more)
    ensures Read64(bs, k).Ok? ==> Read64(bs, k).rest == Skip(bs).rest
    decreases |bs|
  {
    assert (bs + more)[1..] == bs[1..] + more;
    if bs[0] < 128 {
    } else {
      Read64Local(bs[1..], k + 1, more);
    }
  }

  lemma {:induction false} Read32Local(bs: seq<byte>, k: nat, low: nat, more: seq<byte>)
    requires Skip(bs).Ok?
    ensures Read32From(bs + more, k, low) == Read32From(bs, k, low).Then(more)
    ensures Read32From(bs, k, low).Ok? ==> Read32From(bs, k, low).rest == Skip(bs).rest
    decreases |bs|
  {
    assert (bs + more)[1..] == bs[1..] + more;
    if bs[0] >= 128 && Accepts32(bs[0], k, low) {
      Read32Local(bs[1..], k + 1, Gather32(bs[0], k, low), more);
    }
  }

  lemma {:induction false} SkipLocal(bs: seq<byte>, more: seq<byte>)
    requires Skip(bs).Ok?
    ensures Skip(bs + more) == Skip(bs).Then(more)
    decreases |bs|
  {
    assert (bs + more)[1..] == bs[1..] + more;
    if bs[0] < 128 {
    } else {
      SkipLocal(bs[1..], more);
    }
  }

  /** Whatever a reader accepts is a complete varint. */
  lemma {:induction false} Read32Complete(bs: seq<byte>, k: nat, low: nat)
    requires Read32From(bs, k, low).Ok?
    ensures Skip(bs) == Ok((), Read32From(bs, k, low).rest)
    decreases |bs|
  {
    if bs[0] < 128 {
    } else {
      Read32Complete(bs[1..], k + 1, Gather32(bs[0], k, low));
    }
  }

  lemma {:induction false} Read64Complete(bs: seq<byte>, k: nat)
    requires Read64(bs, k).Ok?
    ensures Skip(bs) == Ok((), Read64(bs, k).rest)
    decreases |bs|
  {
    if bs[0] < 128 {
    } else {
      Read64Complete(bs[1..], k + 1);
    }
  }

  // ----- zig-zag -----

  function ZigZag(v: int): (n: nat) {
    if v < 0 then -2 * v - 1 else 2 * v
  }

  function UnZigZag(n: nat): int {
    if n % 2 == 1 then -(n / 2) - 1 else n / 2
  }

  /** Zig-zag and back is the identity on all of int64, through the varint as well. */
  lemma ZigZagRoundTrip(v: int, more: seq<byte>)
    requires -TWO63 <= v < TWO63
    ensures ZigZag(v) < TWO64 && UnZigZag(ZigZag(v)) == v
    ensures Read64(Shortest(ZigZag(v)) + more, 0) == Ok(ZigZag(v), more)
  {
    RoundTrip64(ZigZag(v), more);
  }

  lemma UnZigZagRange(n: nat)
    requires n < TWO64
    ensures -TWO63 <= UnZigZag(n) < TWO63 && ZigZag(UnZigZag(n)) == n
  {
  }
}
