/**
  Shared vocabulary of the codec: bytes, optional results, the result of a
  parser that leaves unread bytes behind, and little-endian integers.
 */
module Wire {

  type byte = n: nat | n < 256

  const TWO31: int := 0x8000_0000
  const TWO32: int := 0x1_0000_0000
  const TWO63: int := 0x8000_0000_0000_0000
  const TWO64: int := 0x1_0000_0000_0000_0000

  datatype Option<+T> = None | Some(value: T)

  /** Outcome of reading from the front of a frame: a value and the unread bytes. */
  datatype Parsed<+T> = Fail | Ok(value: T, rest: seq<byte>) {
    /** The same outcome when `more` follows the frame. */
    function Then(more: seq<byte>): Parsed<T> {
      if Fail? then Fail else Ok(value, rest + more)
    }
  }

  /** The k-byte little-endian form of n. */
  function LittleEndian(n: nat, k: nat): (bs: seq<byte>)
    ensures |bs| == k
    decreases k
  {
    if k == 0 then [] else [n % 256] + LittleEndian(n / 256, k - 1)
  }

  /** The number whose little-endian form is bs. */
  function FromLittleEndian(bs: seq<byte>): nat {
    if bs == [] then 0 else bs[0] + 256 * FromLittleEndian(bs[1..])
  }

  function Pow256(k: nat): (p: nat)
    ensures p > 0
  {
    if k == 0 then 1 else 256 * Pow256(k - 1)
  }

  lemma Pow256Values()
    ensures Pow256(0) == 1 && Pow256(1) == 0x100 && Pow256(2) == 0x1_0000 && Pow256(3) == 0x100_0000
    ensures Pow256(4) == TWO32 && Pow256(5) == 0x100_0000_0000
    ensures Pow256(6) == 0x1_0000_0000_0000 && Pow256(7) == 0x100_0000_0000_0000
    ensures Pow256(8) == TWO64
  {
    assert Pow256(1) == 256 * Pow256(0) && Pow256(2) == 256 * Pow256(1) && Pow256(3) == 256 * Pow256(2);
    assert Pow256(4) == 256 * Pow256(3) && Pow256(5) == 256 * Pow256(4) && Pow256(6) == 256 * Pow256(5);
    assert Pow256(7) == 256 * Pow256(6) && Pow256(8) == 256 * Pow256(7);
  }

  lemma {:induction false} LittleEndianRoundTrip(n: nat, k: nat)
    requires n < Pow256(k)
    ensures FromLittleEndian(LittleEndian(n, k)) == n
    decreases k
  {
    if k == 0 {
    } else {
      LittleEndianRoundTrip(n / 256, k - 1);
      assert LittleEndian(n, k)[1..] == LittleEndian(n / 256, k - 1);
    }
  }

  lemma {:induction false} FromLittleEndianBound(bs: seq<byte>)
    ensures FromLittleEndian(bs) < Pow256(|bs|)
    ensures LittleEndian(FromLittleEndian(bs), |bs|) == bs
  {
    if bs == [] {
    } else {
      FromLittleEndianBound(bs[1..]);
      assert bs == [bs[0]] + bs[1..];
    }
  }

  function Zeros(k: nat): (bs: seq<byte>)
    ensures |bs| == k
    ensures forall i :: 0 <= i < k ==> bs[i] == 0
  {
    seq(k, _ => 0)
  }

  /** The content of a C string held in bs: the bytes before the first NUL. */
  function CString(bs: seq<byte>): (s: seq<byte>)
    ensures |s| <= |bs| && s == bs[..|s|]
    ensures forall i :: 0 <= i < |s| ==> s[i] != 0
    ensures |s| < |bs| ==> bs[|s|] == 0
  {
    if bs == [] || bs[0] == 0 then [] else [bs[0]] + CString(bs[1..])
  }

  lemma {:induction false} CStringOfClean(s: seq<byte>, more: seq<byte>)
    requires forall i :: 0 <= i < |s| ==> s[i] != 0
    ensures CString(s) == s
    ensures CString(s + [0] + more) == s
  {
    var t := s + [0] + more;
    forall i | 0 <= i < |s| ensures t[i] != 0 { assert t[i] == s[i]; }
    assert t[|s|] == 0;
    assert CString(t) == t[..|s|] == s;
  }

  /** A buffer that holds s and then a NUL holds the same C string as s alone. */
  lemma {:induction false} CStringInBuffer(buf: seq<byte>, s: seq<byte>)
    requires |s| < |buf| && buf[..|s|] == s && buf[|s|] == 0
    ensures CString(buf) == CString(s)
  {
    if s != [] && s[0] != 0 {
      assert buf[1..][..|s| - 1] == s[1..];
      CStringInBuffer(buf[1..], s[1..]);
    }
  }
}
