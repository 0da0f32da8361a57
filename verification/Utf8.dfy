/**
  pb_validate_utf8 against the grammar of RFC 3629, section 4, and the
  grammar against the code points it stands for.
 */
module Utf8 {
  import opened Wire

  // ----- the grammar -----

  predicate Tail(b: byte) {
    0x80 <= b <= 0xBF
  }

  predicate Utf8One(c: seq<byte>) {
    |c| == 1 && c[0] <= 0x7F
  }

  predicate Utf8Two(c: seq<byte>) {
    |c| == 2 && 0xC2 <= c[0] <= 0xDF && Tail(c[1])
  }

  predicate Utf8Three(c: seq<byte>) {
    && |c| == 3 && Tail(c[2])
    && (|| (c[0] == 0xE0 && 0xA0 <= c[1] <= 0xBF)
        || (0xE1 <= c[0] <= 0xEC && Tail(c[1]))
        || (c[0] == 0xED && 0x80 <= c[1] <= 0x9F)
        || (0xEE <= c[0] <= 0xEF && Tail(c[1])))
  }

  predicate Utf8Four(c: seq<byte>) {
    && |c| == 4 && Tail(c[2]) && Tail(c[3])
    && (|| (c[0] == 0xF0 && 0x90 <= c[1] <= 0xBF)
        || (0xF1 <= c[0] <= 0xF3 && Tail(c[1]))
        || (c[0] == 0xF4 && 0x80 <= c[1] <= 0x8F))
  }

  predicate Utf8Char(c: seq<byte>) {
    Utf8One(c) || Utf8Two(c) || Utf8Three(c) || Utf8Four(c)
  }

  /** The two noncharacters U+FFFE and U+FFFF. */
  predicate Nonchar(c: seq<byte>) {
    |c| == 3 && c[0] == 0xEF && c[1] == 0xBF && c[2] >= 0xBE
  }

  /** A concatenation of well-formed sequences, none of them U+FFFE or U+FFFF. */
  ghost predicate IsText(bs: seq<byte>)
    decreases |bs|
  {
    bs == [] || exists n :: 1 <= n <= |bs| && StartsWithChar(bs, n) && IsText(bs[n..])
  }

  predicate StartsWithChar(bs: seq<byte>, n: nat)
    requires n <= |bs|
  {
    Utf8Char(bs[..n]) && !Nonchar(bs[..n])
  }

  /** The first byte fixes the length of a sequence; 0 if it starts none. */
  function LengthOf(b: byte): nat {
    if b <= 0x7F then 1
    else if 0xC2 <= b <= 0xDF then 2
    else if 0xE0 <= b <= 0xEF then 3
    else if 0xF0 <= b <= 0xF4 then 4
    else 0
  }

  /** Only one way of splitting off the first sequence has to be tried. */
  lemma TextStep(bs: seq<byte>)
    requires bs != []
    ensures IsText(bs) <==>
              && 1 <= LengthOf(bs[0]) <= |bs|
              && StartsWithChar(bs, LengthOf(bs[0]))
              && IsText(bs[LengthOf(bs[0])..])
  {
    forall n | 1 <= n <= |bs| && StartsWithChar(bs, n) ensures n == LengthOf(bs[0]) {
      assert bs[..n][0] == bs[0];
    }
  }

  // ----- the validator -----

  /** The tests of the two-byte branch, by the leading bits of the bytes. */
  predicate Accepts2(a: byte, b: byte) {
    b / 0x40 == 2 && a / 2 != 0x60
  }

  predicate Accepts3(a: byte, b: byte, c: byte) {
    && b / 0x40 == 2 && c / 0x40 == 2
    && !(a == 0xE0 && b / 0x20 == 4)
    && !(a == 0xED && b / 0x20 == 5)
    && !(a == 0xEF && b == 0xBF && c / 2 == 0x5F)
  }

  predicate Accepts4(a: byte, b: byte, c: byte, d: byte) {
    && b / 0x40 == 2 && c / 0x40 == 2 && d / 0x40 == 2
    && !(a == 0xF0 && b / 0x10 == 8) && !(a == 0xF4 && b > 0x8F) && a <= 0xF4
  }

  lemma TwoBytes(a: byte, b: byte)
    requires a / 0x20 == 6
    ensures Accepts2(a, b) <==> Utf8Two([a, b])
  {
  }

  lemma ThreeBytes(a: byte, b: byte, c: byte)
    requires a / 0x10 == 14
    ensures Accepts3(a, b, c) <==> Utf8Three([a, b, c]) && !Nonchar([a, b, c])
  {
  }

  lemma FourBytes(a: byte, b: byte, c: byte, d: byte)
    requires a / 8 == 30
    ensures Accepts4(a, b, c, d) <==> Utf8Four([a, b, c, d])
  {
  }

  /** The first sequence of bs is well formed and n bytes long; n is 0 if there is none. */
  ghost predicate FirstChar(bs: seq<byte>, n: nat)
    requires bs != []
  {
    if n > 0 then n == LengthOf(bs[0]) && n <= |bs| && StartsWithChar(bs, n)
    else !(1 <= LengthOf(bs[0]) <= |bs|) || !StartsWithChar(bs, LengthOf(bs[0]))
  }

  lemma First2(bs: seq<byte>, accepted: bool)
    requires |bs| >= 1 && bs[0] / 0x20 == 6
    requires accepted <==> |bs| >= 2 && Accepts2(bs[0], bs[1])
    ensures FirstChar(bs, if accepted then 2 else 0)
  {
    if |bs| >= 2 {
      TwoBytes(bs[0], bs[1]);
      assert bs[..2] == [bs[0], bs[1]];
    }
  }

  lemma First3(bs: seq<byte>, accepted: bool)
    requires |bs| >= 1 && bs[0] / 0x10 == 14
    requires accepted <==> |bs| >= 3 && Accepts3(bs[0], bs[1], bs[2])
    ensures FirstChar(bs, if accepted then 3 else 0)
  {
    if |bs| >= 3 {
      ThreeBytes(bs[0], bs[1], bs[2]);
      assert bs[..3] == [bs[0], bs[1], bs[2]];
    }
  }

  lemma First4(bs: seq<byte>, accepted: bool)
    requires |bs| >= 1 && bs[0] / 8 == 30
    requires accepted <==> |bs| >= 4 && Accepts4(bs[0], bs[1], bs[2], bs[3])
    ensures FirstChar(bs, if accepted then 4 else 0)
  {
    if |bs| >= 4 {
      FourBytes(bs[0], bs[1], bs[2], bs[3]);
      assert bs[..4] == [bs[0], bs[1], bs[2], bs[3]];
    }
  }

  /**
    The body of the loop of pb_validate_utf8: the number of bytes to step
    over, or 0 to reject. Indexing proves that nothing after the NUL is read.
   */
  method StepOver(buf: array<byte>, s: nat) returns (n: nat)
    requires s + 1 < buf.Length && buf[buf.Length - 1] == 0
    requires forall k :: 0 <= k < buf.Length - 1 ==> buf[k] != 0
    ensures FirstChar(buf[s..buf.Length - 1], n)
  {
    ghost var bs := buf[s..buf.Length - 1];
    var ok;
    if buf[s] < 0x80 {
      n := 1;
    } else if buf[s] / 0x20 == 6 {
      ok := Accepts2(buf[s], buf[s + 1]);
      First2(bs, ok);
      n := if ok then 2 else 0;
    } else if buf[s] / 0x10 == 14 {
      ok := buf[s + 1] / 0x40 == 2 && Accepts3(buf[s], buf[s + 1], buf[s + 2]);
      First3(bs, ok);
      n := if ok then 3 else 0;
    } else if buf[s] / 8 == 30 {
      ok := buf[s + 1] / 0x40 == 2 && buf[s + 2] / 0x40 == 2 && Accepts4(buf[s], buf[s + 1], buf[s + 2], buf[s + 3]);
      First4(bs, ok);
      n := if ok then 4 else 0;
    } else {
      n := 0;
    }
  }

  /** What a round says of the text from position s on. */
  lemma Onward(text: seq<byte>, s: nat, n: nat)
    requires s < |text| && FirstChar(text[s..], n)
    ensures if n == 0 then !IsText(text[s..]) else s + n <= |text| && (IsText(text[s..]) <==> IsText(text[s + n..]))
  {
    TextStep(text[s..]);
    if n > 0 { assert text[s..][n..] == text[s + n..]; }
  }

  /**
    pb_validate_utf8 on a buffer that ends with the terminating NUL: true
    exactly if the bytes before it are a concatenation of well-formed sequences.
   */
  method ValidateUtf8(buf: array<byte>) returns (valid: bool)
    requires buf.Length > 0 && buf[buf.Length - 1] == 0
    requires forall k :: 0 <= k < buf.Length - 1 ==> buf[k] != 0
    ensures valid <==> IsText(buf[..buf.Length - 1])
  {
    ghost var text := buf[..buf.Length - 1];
    var s := 0;
    assert text[0..] == text;
    while buf[s] != 0
      invariant 0 <= s <= |text|
      invariant IsText(text) <==> IsText(text[s..])
      decreases |text| - s
    {
      assert text[s..] == buf[s..buf.Length - 1];
      var n := StepOver(buf, s);
      Onward(text, s, n);
      if n == 0 { return false; }
      s := s + n;
    }
    valid := true;
  }

  // ----- code points -----

  /** A Unicode scalar value other than U+FFFE and U+FFFF. */
  predicate Scalar(c: nat) {
    c <= 0x10_FFFF && !(0xD800 <= c <= 0xDFFF) && c != 0xFFFE && c != 0xFFFF
  }

  /** The UTF-8 form of a code point: its bits in groups of six behind a length mark. */
  function Utf8Of(c: nat): seq<byte>
    requires c <= 0x10_FFFF
  {
    if c < 0x80 then [c]
    else if c < 0x800 then [0xC0 + c / 0x40, 0x80 + c % 0x40]
    else if c < 0x1_0000 then [0xE0 + c / 0x40 / 0x40, 0x80 + c / 0x40 % 0x40, 0x80 + c % 0x40]
    else [0xF0 + c / 0x40 / 0x40 / 0x40, 0x80 + c / 0x40 / 0x40 % 0x40, 0x80 + c / 0x40 % 0x40, 0x80 + c % 0x40]
  }

  /** Six more bits behind those read so far. */
  function Six(high: int, b: byte): int {
    high * 0x40 + (b as int - 0x80)
  }

  function PointOf(bs: seq<byte>): int {
    if |bs| == 1 then bs[0]
    else if |bs| == 2 then Six(bs[0] as int - 0xC0, bs[1])
    else if |bs| == 3 then Six(Six(bs[0] as int - 0xE0, bs[1]), bs[2])
    else if |bs| == 4 then Six(Six(Six(bs[0] as int - 0xF0, bs[1]), bs[2]), bs[3])
    else 0
  }

  lemma SixSplits(high: nat, b: byte)
    requires Tail(b)
    ensures Six(high, b) >= 0 && Six(high, b) / 0x40 == high && 0x80 + Six(high, b) % 0x40 == b
  {
  }

  /** The sequences of the grammar are the forms of the code points, one for one. */
  lemma CharsArePoints(bs: seq<byte>)
    requires Utf8Char(bs) && !Nonchar(bs)
    ensures Scalar(PointOf(bs)) && Utf8Of(PointOf(bs)) == bs
  {
    if Utf8Two(bs) {
      SixSplits(bs[0] - 0xC0, bs[1]);
    } else if Utf8Three(bs) {
      ThreePoint(bs);
    } else if Utf8Four(bs) {
      FourPoint(bs);
    }
  }

  lemma ThreePoint(bs: seq<byte>)
    requires Utf8Three(bs) && !Nonchar(bs)
    ensures Scalar(PointOf(bs)) && PointOf(bs) >= 0x800 && Utf8Of(PointOf(bs)) == bs
  {
    var h := Six(bs[0] as int - 0xE0, bs[1]);
    SixSplits(bs[0] - 0xE0, bs[1]);
    SixSplits(h, bs[2]);
    assert 0x20 <= h < 0x400 && !(0x360 <= h < 0x380);
  }

  lemma FourRange(a: int, b: int, c: int, d: int, g: int)
    requires g == a * 0x40 + b && 0 <= c < 0x40 && 0 <= d < 0x40 && 0x10 <= g < 0x110
    ensures 0x1_0000 <= (g * 0x40 + c) * 0x40 + d <= 0x10_FFFF
  {
  }

  lemma FourLead(a: int, b: int)
    requires 0 <= a <= 4 && 0 <= b < 0x40 && (a == 0 ==> b >= 0x10) && (a == 4 ==> b < 0x10)
    ensures 0x10 <= a * 0x40 + b < 0x110
  {
  }

  lemma FourSplits(bs: seq<byte>, p: int, h: int, g: int)
    requires |bs| == 4 && p == Six(h, bs[3]) && h == Six(g, bs[2]) && g == Six(bs[0] as int - 0xF0, bs[1])
    requires bs[0] >= 0xF0 && g >= 0 && Tail(bs[1]) && Tail(bs[2]) && Tail(bs[3]) && 0x1_0000 <= p <= 0x10_FFFF
    ensures Utf8Of(p) == bs
  {
    SixSplits(bs[0] - 0xF0, bs[1]);
    SixSplits(g, bs[2]);
    SixSplits(h, bs[3]);
    assert p / 0x40 == h && h / 0x40 == g && g / 0x40 == bs[0] - 0xF0;
  }

  lemma FourPoint(bs: seq<byte>)
    requires Utf8Four(bs)
    ensures Scalar(PointOf(bs)) && Utf8Of(PointOf(bs)) == bs
  {
    var a, b, c, d := bs[0] as int - 0xF0, bs[1] as int - 0x80, bs[2] as int - 0x80, bs[3] as int - 0x80;
    FourLead(a, b);
    FourRange(a, b, c, d, a * 0x40 + b);
    var g := Six(a, bs[1]);
    FourSplits(bs, PointOf(bs), Six(g, bs[2]), g);
  }

  lemma PointsAreChars(c: nat)
    requires Scalar(c)
    ensures Utf8Char(Utf8Of(c)) && !Nonchar(Utf8Of(c)) && PointOf(Utf8Of(c)) == c
  {
    var h, l := c / 0x40, c % 0x40;
    assert c == h * 0x40 + l;
    if c >= 0x800 {
      var g, m := h / 0x40, h % 0x40;
      assert h == g * 0x40 + m;
      if c < 0x1_0000 { ThreeForm(c, g, m, l); } else { FourForm(c, g, g / 0x40, g % 0x40, m, l); }
    }
  }

  /** The first and last code points of each length, and those around the gaps. */
  lemma Boundaries()
    ensures Utf8Of(0x7F) == [0x7F] && Utf8Of(0x80) == [0xC2, 0x80] && Utf8Of(0x7FF) == [0xDF, 0xBF]
    ensures Utf8Of(0x800) == [0xE0, 0xA0, 0x80] && Utf8Of(0xFFFD) == [0xEF, 0xBF, 0xBD]
    ensures Utf8Of(0x1_0000) == [0xF0, 0x90, 0x80, 0x80] && Utf8Of(0x10_FFFF) == [0xF4, 0x8F, 0xBF, 0xBF]
    ensures Utf8Of(0xD7FF) == [0xED, 0x9F, 0xBF] && Utf8Of(0xE000) == [0xEE, 0x80, 0x80]
    ensures Scalar(0) && Scalar(0xD7FF) && !Scalar(0xD800) && !Scalar(0xDFFF) && Scalar(0xE000)
    ensures Scalar(0xFFFD) && !Scalar(0xFFFE) && !Scalar(0xFFFF) && Scalar(0x1_0000) && Scalar(0x10_FFFF)
    ensures !Scalar(0x11_0000)
  {
  }

  lemma ThreeForm(c: nat, g: nat, m: nat, l: nat)
    requires Scalar(c) && 0x800 <= c < 0x1_0000 && c == (g * 0x40 + m) * 0x40 + l && m < 0x40 && l < 0x40
    ensures g < 0x10 && Utf8Three([0xE0 + g, 0x80 + m, 0x80 + l]) && !Nonchar([0xE0 + g, 0x80 + m, 0x80 + l])
  {
  }

  lemma FourForm(c: nat, g: nat, f: nat, k: nat, m: nat, l: nat)
    requires Scalar(c) && 0x1_0000 <= c && g == f * 0x40 + k && c == (g * 0x40 + m) * 0x40 + l
    requires k < 0x40 && m < 0x40 && l < 0x40
    ensures f < 8 && Utf8Four([0xF0 + f, 0x80 + k, 0x80 + m, 0x80 + l])
  {
  }

  /** The form of a sequence of code points. */
  function TextOf(cs: seq<nat>): seq<byte>
    requires forall i :: 0 <= i < |cs| ==> Scalar(cs[i])
  {
    if cs == [] then [] else assert Scalar(cs[0]); Utf8Of(cs[0]) + TextOf(cs[1..])
  }

  ghost predicate Spells(cs: seq<nat>, bs: seq<byte>) {
    (forall i :: 0 <= i < |cs| ==> Scalar(cs[i])) && TextOf(cs) == bs
  }

  lemma SplitText(bs: seq<byte>) returns (u: seq<byte>, more: seq<byte>)
    requires IsText(bs) && bs != []
    ensures bs == u + more && |u| > 0 && Utf8Char(u) && !Nonchar(u) && IsText(more)
  {
    var n :| 1 <= n <= |bs| && StartsWithChar(bs, n) && IsText(bs[n..]);
    u, more := bs[..n], bs[n..];
  }

  /** Whatever the grammar accepts is the form of some sequence of code points. */
  lemma {:induction false} TextIsSpelled(bs: seq<byte>) returns (cs: seq<nat>)
    requires IsText(bs)
    ensures Spells(cs, bs)
    decreases |bs|
  {
    if bs == [] {
      cs := [];
    } else {
      var u, more := SplitText(bs);
      var ds := TextIsSpelled(more);
      CharsArePoints(u);
      cs := [PointOf(u)] + ds;
      SpellsMore(PointOf(u), ds, u, more);
    }
  }

  lemma SpellsMore(c: nat, cs: seq<nat>, u: seq<byte>, bs: seq<byte>)
    requires Scalar(c) && Utf8Of(c) == u && Spells(cs, bs)
    ensures Spells([c] + cs, u + bs)
  {
    assert ([c] + cs)[1..] == cs;
  }

  /** And every such form is accepted. */
  lemma {:induction false} SpelledIsText(cs: seq<nat>)
    requires forall i :: 0 <= i < |cs| ==> Scalar(cs[i])
    ensures IsText(TextOf(cs))
  {
    if cs == [] {
    } else {
      SpelledIsText(cs[1..]);
      PointsAreChars(cs[0]);
      var u := Utf8Of(cs[0]);
      var bs := TextOf(cs);
      assert bs[..|u|] == u && bs[|u|..] == TextOf(cs[1..]);
      assert StartsWithChar(bs, |u|);
    }
  }

  /** The validator accepts exactly the forms of sequences of code points. */
  lemma TextIffSpelled(bs: seq<byte>)
    ensures IsText(bs) <==> exists cs: seq<nat> :: Spells(cs, bs)
  {
    if IsText(bs) { var cs := TextIsSpelled(bs); }
    forall cs: seq<nat> | Spells(cs, bs) ensures IsText(bs) { SpelledIsText(cs); }
  }
}
