/** Bytes and the bitwise AND that a NOR cell performs when it is programmed. */
module Bits {

  type byte = x: int | 0 <= x < 256

  /** AND of the low `k` bits of `a` and `b`. */
  function AndBits(a: nat, b: nat, k: nat): nat
  {
    if k == 0 then 0
    else (if a % 2 == 1 && b % 2 == 1 then 1 else 0) + 2 * AndBits(a / 2, b / 2, k - 1)
  }

  function And(a: byte, b: byte): (r: byte)
    ensures r <= a && r <= b
  {
    AndBitsBelow(a, b, 8);
    AndBits(a, b, 8)
  }

  function Pow2(k: nat): (p: nat)
    ensures p > 0
  {
    if k == 0 then 1 else 2 * Pow2(k - 1)
  }

  lemma {:induction false} AndBitsBelow(a: nat, b: nat, k: nat)
    ensures AndBits(a, b, k) <= a && AndBits(a, b, k) <= b
  {
    if k > 0 {
      AndBitsBelow(a / 2, b / 2, k - 1);
    }
  }

  /** Bit `k` of a number, counted from the low end. */
  predicate BitSet(x: nat, k: nat) {
    x / Pow2(k) % 2 == 1
  }

  lemma {:induction false} HalfBit(x: nat, k: nat)
    requires k > 0
    ensures BitSet(x, k) <==> BitSet(x / 2, k - 1)
  {
    var p := Pow2(k - 1);
    assert Pow2(k) == 2 * p;
    DivDiv(x, p);
  }

  lemma DivDiv(x: nat, p: nat)
    requires p > 0
    ensures x / (2 * p) == x / 2 / p
  {
    var q := x / (2 * p);
    var r := x - 2 * p * q;
    assert 0 <= r < 2 * p;
    assert x / 2 == p * q + r / 2;
    Quotient(x / 2, p, q, r / 2);
  }

  lemma Quotient(x: nat, p: nat, q: nat, r: nat)
    requires p > 0 && x == p * q + r && r < p
    ensures x / p == q
  {
    var d := x / p;
    assert x == p * d + x % p;
    if d < q {
      assert p * d + p <= p * q by { Times(p, d + 1, q); }
    } else if d > q {
      assert p * q + p <= p * d by { Times(p, q + 1, d); }
    }
  }

  lemma Times(p: nat, a: nat, b: nat)
    requires a <= b
    ensures p * a <= p * b
  {
  }

  lemma {:induction false} AndBitsBitwise(a: nat, b: nat, n: nat, k: nat)
    requires k < n
    ensures BitSet(AndBits(a, b, n), k) <==> BitSet(a, k) && BitSet(b, k)
  {
    if k > 0 {
      HalfBit(a, k);
      HalfBit(b, k);
      HalfBit(AndBits(a, b, n), k);
      assert AndBits(a, b, n) / 2 == AndBits(a / 2, b / 2, n - 1);
      AndBitsBitwise(a / 2, b / 2, n - 1, k - 1);
    } else {
      assert Pow2(0) == 1;
    }
  }

  /** A bit of the AND is set exactly when it is set on both sides: programming only clears bits. */
  lemma AndBitwise(a: byte, b: byte, k: nat)
    requires k < 8
    ensures BitSet(And(a, b), k) <==> BitSet(a, k) && BitSet(b, k)
  {
    AndBitsBitwise(a, b, 8, k);
  }

  lemma {:induction false} AndBitsComm(a: nat, b: nat, k: nat)
    ensures AndBits(a, b, k) == AndBits(b, a, k)
  {
    if k > 0 {
      AndBitsComm(a / 2, b / 2, k - 1);
    }
  }

  lemma {:induction false} AndBitsOnes(a: nat, k: nat)
    requires a < Pow2(k)
    ensures AndBits(a, Pow2(k) - 1, k) == a
  {
    if k > 0 {
      assert (Pow2(k) - 1) / 2 == Pow2(k - 1) - 1;
      AndBitsOnes(a / 2, k - 1);
    }
  }

  /** An erased cell (all ones) is neutral for AND, on either side. */
  lemma AndErased(a: byte)
    ensures And(a, 0xFF) == a
    ensures And(0xFF, a) == a
  {
    assert Pow2(8) == 256 by {
      assert Pow2(2) == 4;
      assert Pow2(4) == 16;
      assert Pow2(6) == 64;
    }
    AndBitsOnes(a, 8);
    AndBitsComm(a, 0xFF, 8);
  }
}
