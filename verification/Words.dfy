/** Unsigned 64-bit words and the bitwise operators of the source, on naturals.
    `And` and `Or` are defined bit by bit; the lemmas turn the masks the sources use
    into arithmetic. */
module Words {

  const TWO_64: nat := 0x1_0000_0000_0000_0000

  type u64 = x: nat | x < 0x1_0000_0000_0000_0000

  function Pow2(k: nat): (p: nat)
    ensures p >= 1
  {
    if k == 0 then 1 else 2 * Pow2(k - 1)
  }

  /** Bitwise conjunction. */
  function And(a: nat, b: nat): nat {
    if a == 0 then 0
    else 2 * And(a / 2, b / 2) + (if a % 2 == 1 && b % 2 == 1 then 1 else 0)
  }

  /** Bitwise disjunction. */
  function Or(a: nat, b: nat): nat {
    if a == 0 then b
    else 2 * Or(a / 2, b / 2) + (if a % 2 == 1 || b % 2 == 1 then 1 else 0)
  }

  /** Bitwise complement of a 64-bit word. */
  function Not(a: u64): u64 {
    TWO_64 - 1 - a
  }

  /** Unsigned subtraction with 64-bit wrap-around. */
  function WrapSub(a: u64, b: u64): u64 {
    if a >= b then a - b else a + TWO_64 - b
  }

  /** Shift to the left, without a bound on the width. */
  function Shl(x: nat, k: nat): (r: nat)
    ensures r >= x
  {
    if k == 0 then x else 2 * Shl(x, k - 1)
  }

  lemma MulAtLeast(d: nat, n: nat)
    requires n >= 1
    ensures d * n >= d
  {
  }

  lemma DivModUnique(a: nat, d: nat, q: nat, r: nat)
    requires a == d * q + r && r < d
    ensures a / d == q && a % d == r
  {
    var q', r' := a / d, a % d;
    assert a == d * q' + r';
    assert d * (q' - q) == r - r';
    if q < q' {
      MulAtLeast(d, q' - q);
    } else if q' < q {
      MulAtLeast(d, q - q');
    }
  }

  lemma {:induction false} Pow2Add(a: nat, b: nat)
    ensures Pow2(a + b) == Shl(Pow2(a), b)
  {
    if b == 0 {
    } else {
      Pow2Add(a, b - 1);
    }
  }

  lemma AndStep(a: nat, b: nat)
    ensures And(a, b) == 2 * And(a / 2, b / 2) + (if a % 2 == 1 && b % 2 == 1 then 1 else 0)
  {
  }

  lemma OrStep(a: nat, b: nat)
    ensures Or(a, b) == 2 * Or(a / 2, b / 2) + (if a % 2 == 1 || b % 2 == 1 then 1 else 0)
  {
  }

  lemma AndJoinNothing(a1: nat, b1: nat)
    ensures Pow2(0) == 1 && And(0 + Shl(a1, 0), 0 + Shl(b1, 0)) == And(0, 0) + Shl(And(a1, b1), 0)
  {
  }

  lemma OrJoinNothing(a1: nat, b1: nat)
    ensures Pow2(0) == 1 && Or(0 + Shl(a1, 0), 0 + Shl(b1, 0)) == Or(0, 0) + Shl(Or(a1, b1), 0)
  {
  }

  lemma ShlStep(x: nat, k: nat)
    requires k > 0
    ensures Shl(x, k) == 2 * Shl(x, k - 1)
  {
  }

  lemma HalfBelow(a: nat, k: nat)
    requires k > 0 && a < Pow2(k)
    ensures a / 2 < Pow2(k - 1)
  {
  }

  lemma HalfOfSum(a0: nat, a: nat)
    ensures (a0 + 2 * a) / 2 == a0 / 2 + a && (a0 + 2 * a) % 2 == a0 % 2
  {
  }

  /** The lowest bit of the result, and the halves that give the rest of it. */
  lemma AndHalves(a0: nat, a: nat, b0: nat, b: nat, k: nat) returns (x: nat, y: nat, bit: nat)
    requires k > 0 && a0 < Pow2(k) && b0 < Pow2(k)
    ensures x < Pow2(k - 1) && y < Pow2(k - 1) && x <= a0
    ensures And(a0, b0) == 2 * And(x, y) + bit
    ensures And(a0 + 2 * a, b0 + 2 * b) == 2 * And(x + a, y + b) + bit
  {
    hide And, Pow2;
    x, y, bit := a0 / 2, b0 / 2, if a0 % 2 == 1 && b0 % 2 == 1 then 1 else 0;
    HalfOfSum(a0, a);
    HalfOfSum(b0, b);
    HalfBelow(a0, k);
    HalfBelow(b0, k);
    AndStep(a0, b0);
    AndStep(a0 + 2 * a, b0 + 2 * b);
  }

  /** The lowest bit of the result, and the halves that give the rest of it. */
  lemma OrHalves(a0: nat, a: nat, b0: nat, b: nat, k: nat) returns (x: nat, y: nat, bit: nat)
    requires k > 0 && a0 < Pow2(k) && b0 < Pow2(k)
    ensures x < Pow2(k - 1) && y < Pow2(k - 1) && x <= a0
    ensures Or(a0, b0) == 2 * Or(x, y) + bit
    ensures Or(a0 + 2 * a, b0 + 2 * b) == 2 * Or(x + a, y + b) + bit
  {
    hide Or, Pow2;
    x, y, bit := a0 / 2, b0 / 2, if a0 % 2 == 1 || b0 % 2 == 1 then 1 else 0;
    HalfOfSum(a0, a);
    HalfOfSum(b0, b);
    HalfBelow(a0, k);
    HalfBelow(b0, k);
    OrStep(a0, b0);
    OrStep(a0 + 2 * a, b0 + 2 * b);
  }

  /** The parts of a conjunction below and above bit k do not influence each other. */
  lemma {:induction false} AndJoin(a0: nat, a1: nat, b0: nat, b1: nat, k: nat)
    requires a0 < Pow2(k) && b0 < Pow2(k)
    ensures And(a0 + Shl(a1, k), b0 + Shl(b1, k)) == And(a0, b0) + Shl(And(a1, b1), k)
    decreases k
  {
    hide And, Pow2, Shl;
    if k == 0 {
      AndJoinNothing(a1, b1);
    } else {
      ShlStep(a1, k);
      ShlStep(b1, k);
      ShlStep(And(a1, b1), k);
      var x, y, bit := AndHalves(a0, Shl(a1, k - 1), b0, Shl(b1, k - 1), k);
      AndJoin(x, a1, y, b1, k - 1);
    }
  }

  lemma {:induction false} OrJoin(a0: nat, a1: nat, b0: nat, b1: nat, k: nat)
    requires a0 < Pow2(k) && b0 < Pow2(k)
    ensures Or(a0 + Shl(a1, k), b0 + Shl(b1, k)) == Or(a0, b0) + Shl(Or(a1, b1), k)
    decreases k
  {
    hide Or, Pow2, Shl;
    if k == 0 {
      OrJoinNothing(a1, b1);
    } else {
      ShlStep(a1, k);
      ShlStep(b1, k);
      ShlStep(Or(a1, b1), k);
      var x, y, bit := OrHalves(a0, Shl(a1, k - 1), b0, Shl(b1, k - 1), k);
      OrJoin(x, a1, y, b1, k - 1);
    }
  }

  lemma {:induction a} AndZeroRight(a: nat)
    ensures And(a, 0) == 0
  {
  }

  lemma {:induction a} OrZeroRight(a: nat)
    ensures Or(a, 0) == a
  {
  }

  /** Masking with k ones keeps a k-bit word. */
  lemma {:induction false} AndOnes(a: nat, k: nat)
    requires a < Pow2(k)
    ensures And(a, Pow2(k) - 1) == a
  {
    if k == 0 {
    } else {
      AndOnes(a / 2, k - 1);
      AndStep(a, Pow2(k) - 1);
    }
  }

  /** Or-ing a word that has no bit from k on with one that has none below k adds them. */
  lemma OrDisjoint(lo: nat, hi: nat, k: nat)
    requires lo < Pow2(k)
    ensures Or(Shl(hi, k), lo) == Or(lo, Shl(hi, k)) == lo + Shl(hi, k)
  {
    hide Pow2, Shl;
    OrZeroRight(lo);
    OrZeroRight(hi);
    ShlZero(k);
    OrJoin(lo, 0, 0, hi, k);
    OrJoin(0, hi, lo, 0, k);
    assert Or(0, lo) == lo && Or(0, hi) == hi;
  }

  lemma {:induction k} ShlZero(k: nat)
    ensures Shl(0, k) == 0
  {
  }

  lemma {:induction false} OrBound(a: nat, b: nat, k: nat)
    requires a < Pow2(k) && b < Pow2(k)
    ensures Or(a, b) < Pow2(k)
  {
    if k == 0 {
    } else {
      OrBound(a / 2, b / 2, k - 1);
      OrStep(a, b);
    }
  }

  /** Masking with a complement removes what the mask selects. */
  lemma {:induction false} AndComplement(a: nat, b: nat, k: nat)
    requires a < Pow2(k) && b < Pow2(k)
    ensures And(a, Pow2(k) - 1 - b) == a - And(a, b)
  {
    if k == 0 {
    } else {
      AndComplement(a / 2, b / 2, k - 1);
      AndStep(a, b);
      AndStep(a, Pow2(k) - 1 - b);
      assert (Pow2(k) - 1 - b) / 2 == Pow2(k - 1) - 1 - b / 2;
    }
  }

  /** Masking with ones from bit lo up to bit lo + n selects that field. */
  lemma AndField(below: nat, field: nat, above: nat, lo: nat, n: nat)
    requires below < Pow2(lo) && field < Pow2(n)
    ensures And(below + Shl(field + Shl(above, n), lo), Shl(Pow2(n) - 1, lo)) == Shl(field, lo)
  {
    hide Pow2, Shl;
    ShlZero(n);
    AndZeroRight(below);
    AndZeroRight(above);
    AndOnes(field, n);
    AndJoin(below, field + Shl(above, n), 0, Pow2(n) - 1, lo);
    AndJoin(field, above, Pow2(n) - 1, 0, n);
  }

  lemma Divide(w: nat, d: nat) returns (q: nat, r: nat)
    requires d > 0
    ensures w == r + d * q && r < d && q == w / d && r == w % d
  {
    q, r := w / d, w % d;
  }

  /** Shifting is multiplying by the power of two. */
  lemma {:induction false} ShlIs(x: nat, k: nat, m: nat)
    requires m == Pow2(k)
    ensures Shl(x, k) == m * x
  {
    if k == 0 {
    } else {
      var h := Pow2(k - 1);
      ShlIs(x, k - 1, h);
      assert 2 * (h * x) == m * x;
    }
  }

  /** The powers of two that occur in the sources. */
  lemma Pow2Values()
    ensures Pow2(0) == 1 && Pow2(1) == 2 && Pow2(2) == 4 && Pow2(7) == 0x80 && Pow2(8) == 0x100
    ensures Pow2(12) == 0x1000 && Pow2(13) == 0x2000 && Pow2(16) == 0x1_0000 && Pow2(21) == 0x20_0000
    ensures Pow2(31) == 0x8000_0000 && Pow2(32) == 0x1_0000_0000 && Pow2(39) == 0x80_0000_0000
    ensures Pow2(40) == 0x100_0000_0000 && Pow2(52) == 0x10_0000_0000_0000 && Pow2(64) == TWO_64
  {
    hide Pow2, Shl;
    Pow2Multiples();
    SmallPow2();
    Pow2Add(8, 4);
    Pow2Add(8, 5);
    Pow2Add(16, 5);
    Pow2Add(24, 7);
    Pow2Add(32, 7);
    Pow2Add(48, 4);
    ShlBy8(Pow2(8));
    ShlBy8(Pow2(16));
    ShlBy8(Pow2(24));
    ShlBy8(Pow2(32));
    ShlBy8(Pow2(48));
  }

  lemma SmallPow2()
    ensures Pow2(0) == 1 && Pow2(1) == 2 && Pow2(2) == 4 && Pow2(7) == 0x80 && Pow2(8) == 0x100
  {
  }

  lemma Pow2Multiples()
    ensures Pow2(16) == 0x1_0000 && Pow2(24) == 0x100_0000 && Pow2(32) == 0x1_0000_0000
    ensures Pow2(40) == 0x100_0000_0000 && Pow2(48) == 0x1_0000_0000_0000 && Pow2(64) == TWO_64
  {
    hide Pow2;
    SmallPow2();
    Pow2By8(8);
    Pow2By8(16);
    Pow2By8(24);
    Pow2By8(32);
    Pow2By8(40);
    Pow2By8(48);
    Pow2By8(56);
  }

  lemma Pow2By8(k: nat)
    ensures Pow2(k + 8) == 0x100 * Pow2(k)
  {
    Pow2Add(k, 8);
    ShlBy8(Pow2(k));
  }

  lemma ShlBy8(x: nat)
    ensures Shl(x, 0) == x && Shl(x, 1) == 2 * x && Shl(x, 2) == 4 * x && Shl(x, 3) == 8 * x && Shl(x, 4) == 0x10 * x
    ensures Shl(x, 5) == 0x20 * x && Shl(x, 6) == 0x40 * x && Shl(x, 7) == 0x80 * x && Shl(x, 8) == 0x100 * x
  {
  }

  lemma AndNot(w: u64, mask: u64)
    ensures And(w, Not(mask)) == w - And(w, mask)
  {
    hide Pow2, And;
    Pow2Values();
    AndComplement(w, mask, 64);
  }

  // The same facts with the shifts written as multiplications by m = Pow2(k).

  lemma AndParts(a0: nat, a1: nat, b0: nat, b1: nat, k: nat, m: nat)
    requires m == Pow2(k) && a0 < m && b0 < m
    ensures And(a0 + m * a1, b0 + m * b1) == And(a0, b0) + m * And(a1, b1)
  {
    hide Pow2, Shl, And;
    ShlIs(a1, k, m);
    ShlIs(b1, k, m);
    ShlIs(And(a1, b1), k, m);
    AndJoin(a0, a1, b0, b1, k);
  }

  lemma OrParts(a0: nat, a1: nat, b0: nat, b1: nat, k: nat, m: nat)
    requires m == Pow2(k) && a0 < m && b0 < m
    ensures Or(a0 + m * a1, b0 + m * b1) == Or(a0, b0) + m * Or(a1, b1)
  {
    hide Pow2, Shl, Or;
    ShlIs(a1, k, m);
    ShlIs(b1, k, m);
    ShlIs(Or(a1, b1), k, m);
    OrJoin(a0, a1, b0, b1, k);
  }

  lemma OrAdds(lo: nat, hi: nat, k: nat, m: nat)
    requires m == Pow2(k) && lo < m
    ensures Or(m * hi, lo) == Or(lo, m * hi) == lo + m * hi
  {
    hide Pow2, Shl, Or;
    ShlIs(hi, k, m);
    OrDisjoint(lo, hi, k);
  }

  lemma AndSelects(below: nat, field: nat, above: nat, lo: nat, n: nat, unit: nat, width: nat)
    requires unit == Pow2(lo) && width == Pow2(n) && below < unit && field < width
    ensures And(below + unit * (field + width * above), unit * (width - 1)) == unit * field
  {
    hide Pow2, Shl, And;
    ShlIs(above, n, width);
    ShlIs(field + Shl(above, n), lo, unit);
    ShlIs(width - 1, lo, unit);
    ShlIs(field, lo, unit);
    AndField(below, field, above, lo, n);
  }
}
