/** Single bits of words, and the helpers that search a bitmap for one. */
module Bitmap {
  import opened Words

  predicate Bit(x: nat, k: nat) {
    if k == 0 then x % 2 == 1 else Bit(x / 2, k - 1)
  }

  /** The number of the lowest bit that is set. */
  function Lowest(x: nat): nat
    requires x > 0
  {
    if x % 2 == 1 then 0 else 1 + Lowest(x / 2)
  }

  lemma {:induction false} LowestIsLowest(x: nat, n: nat)
    requires 0 < x < Pow2(n)
    ensures Lowest(x) < n && Bit(x, Lowest(x)) && forall j: nat :: j < Lowest(x) ==> !Bit(x, j)
  {
    if x % 2 == 0 {
      LowestIsLowest(x / 2, n - 1);
    }
  }

  lemma {:induction false} NoBits(k: nat)
    ensures !Bit(0, k)
  {
    if k == 0 {
    } else {
      NoBits(k - 1);
    }
  }

  lemma {:induction false} BitAnd(a: nat, b: nat, k: nat)
    ensures Bit(And(a, b), k) <==> Bit(a, k) && Bit(b, k)
  {
    hide And;
    AndStep(a, b);
    if k == 0 {
    } else {
      BitAnd(a / 2, b / 2, k - 1);
    }
  }

  lemma {:induction false} BitOr(a: nat, b: nat, k: nat)
    ensures Bit(Or(a, b), k) <==> Bit(a, k) || Bit(b, k)
  {
    hide Or;
    OrStep(a, b);
    if k == 0 {
    } else {
      BitOr(a / 2, b / 2, k - 1);
    }
  }

  lemma {:induction false} BitComplement(a: nat, n: nat, k: nat)
    requires a < Pow2(n) && k < n
    ensures Bit(Pow2(n) - 1 - a, k) <==> !Bit(a, k)
  {
    var q, r := ComplementHalves(a, n);
    if k == 0 {
    } else {
      BitComplement(q, n - 1, k - 1);
    }
  }

  lemma ComplementHalves(a: nat, n: nat) returns (q: nat, r: nat)
    requires n > 0 && a < Pow2(n)
    ensures a / 2 == q && a % 2 == r && q < Pow2(n - 1)
    ensures (Pow2(n) - 1 - a) / 2 == Pow2(n - 1) - 1 - q && (Pow2(n) - 1 - a) % 2 == 1 - r
  {
    q, r := Divide(a, 2);
    DivModUnique(Pow2(n) - 1 - a, 2, Pow2(n - 1) - 1 - q, 1 - r);
  }

  lemma {:induction false} BitOfPow2(k: nat, j: nat)
    ensures Bit(Pow2(k), j) <==> j == k
  {
    if k > 0 && j > 0 {
      BitOfPow2(k - 1, j - 1);
    } else if k == 0 && j > 0 {
      NoBits(j - 1);
    }
  }

  /** A word of n ones. */
  lemma {:induction false} BitOfOnes(n: nat, k: nat)
    ensures Bit(Pow2(n) - 1, k) <==> k < n
  {
    if n == 0 {
      NoBits(k);
    } else if k > 0 {
      assert (Pow2(n) - 1) / 2 == Pow2(n - 1) - 1;
      BitOfOnes(n - 1, k - 1);
    }
  }

  lemma {:induction false} AndSelf(a: nat)
    ensures And(a, a) == a
  {
    if a == 0 {
    } else {
      AndSelf(a / 2);
    }
  }

  /** A word and its negation have one bit in common: the lowest. */
  lemma {:induction false} AndNegation(x: nat, n: nat)
    requires 0 < x < Pow2(n)
    ensures And(x, Pow2(n) - x) == Pow2(Lowest(x))
  {
    hide And;
    var y, p := Pow2(n) - x, Pow2(n - 1);
    var q, r := Divide(x, 2);
    AndStep(x, y);
    if r == 1 {
      DivModUnique(y, 2, p - 1 - q, 1);
      AndComplement(q, q, n - 1);
      AndSelf(q);
    } else {
      DivModUnique(y, 2, p - q, 0);
      AndNegation(q, n - 1);
    }
  }

  /** x & -x, the negation being that of 64-bit words. */
  function LeastSignificantSetBitOf(x: u64): u64 {
    AndBelow(x, WrapSub(0, x));
    And(x, WrapSub(0, x))
  }

  lemma {:induction false} AndBelow(a: nat, b: nat)
    ensures And(a, b) <= a
  {
    if a == 0 {
    } else {
      AndBelow(a / 2, b / 2);
    }
  }

  lemma LeastBit(x: u64)
    ensures x == 0 ==> LeastSignificantSetBitOf(x) == 0
    ensures x > 0 ==> LeastSignificantSetBitOf(x) == Pow2(Lowest(x)) && Lowest(x) < 64 && Bit(x, Lowest(x))
    ensures x > 0 ==> forall j: nat :: j < Lowest(x) ==> !Bit(x, j)
  {
    Pow2Values();
    if x > 0 {
      AndNegation(x, 64);
      LowestIsLowest(x, 64);
    }
  }

  predicate IsPowerOfTwo(x: u64)
    requires x != 0
  {
    x == LeastSignificantSetBitOf(x)
  }

  lemma {:induction false} LowestOfPow2(k: nat)
    ensures Lowest(Pow2(k)) == k
  {
    if k == 0 {
    } else {
      LowestOfPow2(k - 1);
    }
  }

  /** The test tells exactly the powers of two. */
  lemma PowersOfTwo(x: u64)
    requires x != 0
    ensures IsPowerOfTwo(x) <==> exists k: nat :: k < 64 && x == Pow2(k)
  {
    hide LeastSignificantSetBitOf;
    LeastBit(x);
    if k: nat :| k < 64 && x == Pow2(k) {
      LowestOfPow2(k);
    }
  }

  /** Logarithms of the powers of two below 256; the other entries are never looked up. */
  function ByteLog(x: nat): nat
    requires x < 129
  {
    if x == 2 then 1 else if x == 4 then 2 else if x == 8 then 3 else if x == 16 then 4
    else if x == 32 then 5 else if x == 64 then 6 else if x == 128 then 7 else 0
  }

  lemma {:induction false} Pow2Monotone(a: nat, b: nat)
    requires a <= b
    ensures Pow2(a) <= Pow2(b)
    decreases b
  {
    if a < b {
      Pow2Monotone(a, b - 1);
    }
  }

  /** The low n bits of a power of two are zero exactly when its bit lies above; then shifting by n divides it. */
  lemma LowBitsOfPow2(k: nat, n: nat, m: nat)
    requires m == Pow2(n)
    ensures And(Pow2(k), m - 1) == 0 <==> k >= n
    ensures k >= n ==> Pow2(k) / m == Pow2(k - n)
  {
    if k >= n {
      HighPow2(k, n, m);
    } else {
      LowPow2(k, n, m);
    }
  }

  lemma HighPow2(k: nat, n: nat, m: nat)
    requires m == Pow2(n) && k >= n
    ensures And(Pow2(k), m - 1) == 0 && Pow2(k) / m == Pow2(k - n)
  {
    hide And, Pow2;
    Pow2Values();
    var h := Pow2(k - n);
    Pow2Add(k - n, n);
    ShlIs(h, n, m);
    AndSelects(0, 0, h, 0, n, 1, m);
    DivModUnique(Pow2(k), m, h, 0);
  }

  lemma LowPow2(k: nat, n: nat, m: nat)
    requires m == Pow2(n) && k < n
    ensures And(Pow2(k), m - 1) != 0
  {
    hide And;
    Pow2Values();
    Pow2Monotone(k, n - 1);
    AndSelects(0, Pow2(k), 0, 0, n, 1, m);
  }

  /** The logarithm of a power of two, by halving the word and a table for the last byte. */
  method BinaryLog(x0: u64, ghost k: nat) returns (r: nat)
    requires k < 64 && x0 == Pow2(k)
    ensures r == k
  {
    hide And, Pow2;
    Pow2Values();
    var x: nat := x0;
    var res := 0;
    LowBitsOfPow2(k, 32, 0x1_0000_0000);
    if And(x, 0xFFFF_FFFF) == 0 {
      res := res + 32;
      x := x / 0x1_0000_0000;
    }
    LowBitsOfPow2(k - res, 16, 0x1_0000);
    if And(x, 0xFFFF) == 0 {
      res := res + 16;
      x := x / 0x1_0000;
    }
    LowBitsOfPow2(k - res, 8, 0x100);
    if And(x, 0xFF) == 0 {
      res := res + 8;
      x := x / 0x100;
    }
    ByteLogs(k - res);
    r := ByteLog(x) + res;
  }

  lemma ByteLogs(k: nat)
    requires k < 8
    ensures Pow2(k) < 129 && ByteLog(Pow2(k)) == k
  {
    assert k == 0 || k == 1 || k == 2 || k == 3 || k == 4 || k == 5 || k == 6 || k == 7;
  }

  // A bitmap of several words.

  predicate Slot(bm: seq<u64>, i: nat)
    requires i < 64 * |bm|
  {
    Bit(bm[i / 64], i % 64)
  }

  /** Clearing the lowest bit of a word, as the allocation does. */
  lemma ClearLowest(w: u64, k: nat)
    requires w > 0 && k < 64
    ensures And(w, Not(LeastSignificantSetBitOf(w))) < TWO_64
    ensures Bit(And(w, Not(LeastSignificantSetBitOf(w))), k) <==> Bit(w, k) && k != Lowest(w)
  {
    hide And, Bit, LeastSignificantSetBitOf;
    LeastBit(w);
    var b := LeastSignificantSetBitOf(w);
    Pow2Values();
    AndNot(w, b);
    BitAnd(w, Not(b), k);
    BitComplement(b, 64, k);
    BitOfPow2(Lowest(w), k);
  }

  lemma SetBit(w: u64, j: nat, k: nat)
    requires j < 64 && k < 64
    ensures Or(w, Pow2(j)) < TWO_64
    ensures Bit(Or(w, Pow2(j)), k) <==> Bit(w, k) || k == j
  {
    hide Or, Bit;
    Pow2Values();
    Pow2Monotone(j, 63);
    assert Pow2(j) < TWO_64 by {
      Pow2Add(63, 1);
      ShlBy8(Pow2(63));
    }
    OrBound(w, Pow2(j), 64);
    BitOr(w, Pow2(j), k);
    BitOfPow2(j, k);
  }
}
