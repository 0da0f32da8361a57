/**
  The few facts about division that a word made of bit ranges needs: how a
  number splits at a multiple of b, and how two divisions combine.
 */
module Arithmetic {

  lemma MulMonotone(a: int, b: int, c: int)
    requires a <= b && 0 <= c
    ensures a * c <= b * c
  {
    assert (b - a) * c >= 0;
  }

  lemma MulSuccessor(a: int, b: int)
    ensures (a + 1) * b == a * b + b
  {
  }

  /** Quotient and remainder are unique. */
  lemma DivUnique(q: int, r: int, p: int, s: int, b: int)
    requires 0 <= r < b && 0 <= s < b && q * b + r == p * b + s
    ensures q == p && r == s
  {
    if q > p {
      MulMonotone(p + 1, q, b);
    } else if q < p {
      MulMonotone(q + 1, p, b);
    }
  }

  /** A number made of a low part below b and a high part. */
  lemma Split(lo: nat, hi: nat, b: nat)
    requires lo < b
    ensures (lo + hi * b) / b == hi && (lo + hi * b) % b == lo
  {
    var x := lo + hi * b;
    assert x == (x / b) * b + x % b;
    DivUnique(hi, lo, x / b, x % b, b);
  }

  lemma Regroup(q: int, b: int, r: int, a: int)
    ensures (q * b + r) * a == q * (a * b) + r * a
  {
  }

  lemma RemainderBound(r: nat, s: nat, a: nat, b: nat)
    requires r < b && s < a
    ensures 0 <= r * a + s < a * b
  {
    MulMonotone(r, b - 1, a);
    MulMonotone(0, r, a);
    assert (b - 1) * a == a * b - a;
  }

  lemma Assemble(x: nat, y: nat, q: nat, r: nat, s: nat, a: nat, b: nat)
    requires y == q * b + r && x == y * a + s
    ensures x == (r * a + s) + q * (a * b)
  {
    Regroup(q, b, r, a);
  }

  lemma DivTwice(x: nat, y: nat, q: nat, r: nat, s: nat, a: nat, b: nat)
    requires r < b && s < a && y == q * b + r && x == y * a + s
    ensures a * b > 0 && x / (a * b) == q
  {
    RemainderBound(r, s, a, b);
    Assemble(x, y, q, r, s, a, b);
    Split(r * a + s, q, a * b);
  }

  lemma DivDiv(x: nat, a: nat, b: nat)
    requires a > 0 && b > 0
    ensures a * b > 0 && x / (a * b) == x / a / b
  {
    var y, s := x / a, x % a;
    DivTwice(x, y, y / b, y % b, s, a, b);
  }
}
