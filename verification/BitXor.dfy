/** Exclusive or on unsigned numbers of any width, bit by bit. */
module BitXor {

  function Xor(a: nat, b: nat): nat
    decreases a + b
  {
    if a == 0 && b == 0 then 0 else 2 * Xor(a / 2, b / 2) + (if a % 2 != b % 2 then 1 else 0)
  }

  lemma XorBits(a: nat, b: nat)
    ensures Xor(a, b) / 2 == Xor(a / 2, b / 2)
    ensures Xor(a, b) % 2 == if a % 2 != b % 2 then 1 else 0
  {
  }

  /** Two numbers with the same low bit and the same rest are the same. */
  lemma SameBits(a: nat, b: nat)
    requires a / 2 == b / 2 && a % 2 == b % 2
    ensures a == b
  {
  }

  lemma {:induction false} Commutes(a: nat, b: nat)
    ensures Xor(a, b) == Xor(b, a)
    decreases a + b
  {
    if a + b > 0 {
      Commutes(a / 2, b / 2);
    }
  }

  lemma {:induction false} Associates(a: nat, b: nat, c: nat)
    ensures Xor(Xor(a, b), c) == Xor(a, Xor(b, c))
    decreases a + b + c
  {
    if a + b + c > 0 {
      Associates(a / 2, b / 2, c / 2);
      XorBits(a, b);
      XorBits(b, c);
      XorBits(Xor(a, b), c);
      XorBits(a, Xor(b, c));
      SameBits(Xor(Xor(a, b), c), Xor(a, Xor(b, c)));
    }
  }

  lemma {:induction false} WithZero(a: nat)
    ensures Xor(a, 0) == a && Xor(0, a) == a
  {
    if a > 0 {
      WithZero(a / 2);
    }
  }

  lemma {:induction false} ZeroIffEqual(a: nat, b: nat)
    ensures Xor(a, b) == 0 <==> a == b
    decreases a + b
  {
    if a + b > 0 {
      ZeroIffEqual(a / 2, b / 2);
    }
  }

  /** (a ^ x) ^ (b ^ y) == (a ^ b) ^ (x ^ y) */
  lemma Regrouped(a: nat, x: nat, b: nat, y: nat)
    ensures Xor(Xor(a, x), Xor(b, y)) == Xor(Xor(a, b), Xor(x, y))
  {
    Associates(a, x, Xor(b, y));
    Associates(x, b, y);
    Commutes(x, b);
    Associates(b, x, y);
    Associates(a, b, Xor(x, y));
  }

  lemma Cancels(a: nat, x: nat)
    ensures Xor(Xor(a, x), x) == a
  {
    Associates(a, x, x);
    ZeroIffEqual(x, x);
    WithZero(a);
  }

  function Pow2(n: nat): (p: nat)
    ensures p >= 1
    decreases n
  {
    if n == 0 then 1 else 2 * Pow2(n - 1)
  }

  lemma {:induction false} StaysBelow(a: nat, b: nat, n: nat)
    requires a < Pow2(n) && b < Pow2(n)
    ensures Xor(a, b) < Pow2(n)
    decreases n
  {
    if n > 0 {
      StaysBelow(a / 2, b / 2, n - 1);
    }
  }

  /** A bit above all the others passes through. */
  lemma {:induction false} TopBitPasses(a: nat, b: nat, n: nat)
    requires a < Pow2(n) && b < Pow2(n)
    ensures Xor(a, b + Pow2(n)) == Xor(a, b) + Pow2(n)
    decreases n
  {
    if n == 0 {
      WithZero(1);
    } else {
      TopBitPasses(a / 2, b / 2, n - 1);
    }
  }

  /** Bits above and below the same line do not meet. */
  lemma {:induction false} Disjoint(high: nat, low: nat, n: nat)
    requires low < Pow2(n)
    ensures Xor(high * Pow2(n) + low, low) == high * Pow2(n)
    decreases n
  {
    if n == 0 {
      WithZero(high);
    } else {
      var h := high * Pow2(n - 1);
      assert high * Pow2(n) == 2 * h;
      Disjoint(high, low / 2, n - 1);
      assert (2 * h + low) / 2 == h + low / 2;
    }
  }

  /** Whether an odd number of the bits are ones. */
  function Odd(a: nat): bool {
    if a == 0 then false else (a % 2 == 1) != Odd(a / 2)
  }

  lemma {:induction false} OddOfXor(a: nat, b: nat)
    ensures Odd(Xor(a, b)) == (Odd(a) != Odd(b))
    decreases a + b
  {
    if a + b > 0 {
      OddOfXor(a / 2, b / 2);
      XorBits(a, b);
    }
  }
}
