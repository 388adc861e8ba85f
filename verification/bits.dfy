/** Unsigned machine words (`uint`, `ulong`) as natural numbers below a power of two,
    with the bitwise operators defined bit by bit. */
module Bits {

  function Pow2(n: nat): (r: nat)
    ensures r >= 1
  {
    if n == 0 then 1 else 2 * Pow2(n - 1)
  }

  /** `1 << (a + b)` is `(1 << a) << b`. */
  lemma {:induction false} Pow2Add(a: nat, b: nat)
    ensures Pow2(a + b) == Pow2(a) * Pow2(b)
  {
    if a > 0 {
      Pow2Add(a - 1, b);
    }
  }

  lemma {:induction false} Pow2Monotone(a: nat, b: nat)
    requires a <= b
    ensures Pow2(a) <= Pow2(b)
  {
    if a < b {
      Pow2Monotone(a, b - 1);
    }
  }

  /** Bit `i` of `a`. */
  predicate Bit(a: nat, i: nat) {
    if i == 0 then a % 2 == 1 else Bit(a / 2, i - 1)
  }

  /** `a | b`. */
  function Or(a: nat, b: nat): nat
    decreases a + b
  {
    if a == 0 then b
    else if b == 0 then a
    else 2 * Or(a / 2, b / 2) + (if a % 2 == 1 || b % 2 == 1 then 1 else 0)
  }

  /** `a & b`. */
  function And(a: nat, b: nat): nat
    decreases a + b
  {
    if a == 0 || b == 0 then 0
    else 2 * And(a / 2, b / 2) + (if a % 2 == 1 && b % 2 == 1 then 1 else 0)
  }

  /** `a & ~b`. */
  function AndNot(a: nat, b: nat): nat
    decreases a + b
  {
    if a == 0 then 0
    else if b == 0 then a
    else 2 * AndNot(a / 2, b / 2) + (if a % 2 == 1 && b % 2 == 0 then 1 else 0)
  }

  /** `a ^ b`. */
  function Xor(a: nat, b: nat): nat
    decreases a + b
  {
    if a == 0 then b
    else if b == 0 then a
    else 2 * Xor(a / 2, b / 2) + (if a % 2 != b % 2 then 1 else 0)
  }

  /** `BitOperations.PopCount`: the number of set bits. */
  function Pop(a: nat): nat {
    if a == 0 then 0 else Pop(a / 2) + a % 2
  }

  /** A number is its halved part doubled plus its low bit. */
  lemma BitCons(a: nat, i: nat)
    ensures Bit(a, 0) == (a % 2 == 1)
    ensures Bit(a, i + 1) == Bit(a / 2, i)
  {
  }

  lemma ZeroBit(i: nat)
    ensures !Bit(0, i)
  {
    if i > 0 {
      ZeroBit(i - 1);
    }
  }

  lemma {:induction false} TwiceBit(x: nat, r: nat, i: nat)
    requires r < 2
    ensures Bit(2 * x + r, 0) == (r == 1)
    ensures Bit(2 * x + r, i + 1) == Bit(x, i)
  {
    assert (2 * x + r) / 2 == x;
  }

  lemma {:induction false} OrBit(a: nat, b: nat, i: nat)
    ensures Bit(Or(a, b), i) == (Bit(a, i) || Bit(b, i))
    decreases a + b
  {
    if a == 0 {
      ZeroBit(i);
    } else if b == 0 {
      ZeroBit(i);
    } else {
      var r := if a % 2 == 1 || b % 2 == 1 then 1 else 0;
      if i == 0 {
        TwiceBit(Or(a / 2, b / 2), r, 0);
      } else {
        TwiceBit(Or(a / 2, b / 2), r, i - 1);
        OrBit(a / 2, b / 2, i - 1);
      }
    }
  }

  lemma {:induction false} AndBit(a: nat, b: nat, i: nat)
    ensures Bit(And(a, b), i) == (Bit(a, i) && Bit(b, i))
    decreases a + b
  {
    if a == 0 || b == 0 {
      ZeroBit(i);
    } else {
      var r := if a % 2 == 1 && b % 2 == 1 then 1 else 0;
      if i == 0 {
        TwiceBit(And(a / 2, b / 2), r, 0);
      } else {
        TwiceBit(And(a / 2, b / 2), r, i - 1);
        AndBit(a / 2, b / 2, i - 1);
      }
    }
  }

  lemma {:induction false} AndNotBit(a: nat, b: nat, i: nat)
    ensures Bit(AndNot(a, b), i) == (Bit(a, i) && !Bit(b, i))
    decreases a + b
  {
    if a == 0 {
      ZeroBit(i);
    } else if b == 0 {
      ZeroBit(i);
    } else {
      var r := if a % 2 == 1 && b % 2 == 0 then 1 else 0;
      if i == 0 {
        TwiceBit(AndNot(a / 2, b / 2), r, 0);
      } else {
        TwiceBit(AndNot(a / 2, b / 2), r, i - 1);
        AndNotBit(a / 2, b / 2, i - 1);
      }
    }
  }

  lemma {:induction false} XorBit(a: nat, b: nat, i: nat)
    ensures Bit(Xor(a, b), i) == (Bit(a, i) != Bit(b, i))
    decreases a + b
  {
    if a == 0 {
      ZeroBit(i);
    } else if b == 0 {
      ZeroBit(i);
    } else {
      var r := if a % 2 != b % 2 then 1 else 0;
      if i == 0 {
        TwiceBit(Xor(a / 2, b / 2), r, 0);
      } else {
        TwiceBit(Xor(a / 2, b / 2), r, i - 1);
        XorBit(a / 2, b / 2, i - 1);
      }
    }
  }

  /** `1 << i` has exactly bit `i` set. */
  lemma {:induction false} Pow2Bit(i: nat, j: nat)
    ensures Bit(Pow2(i), j) == (i == j)
  {
    if i == 0 {
      if j > 0 {
        ZeroBit(j - 1);
      }
    } else if j == 0 {
    } else {
      assert Pow2(i) / 2 == Pow2(i - 1);
      Pow2Bit(i - 1, j - 1);
    }
  }

  /** Numbers with the same bits are equal. */
  lemma {:induction false} BitsEqual(a: nat, b: nat)
    requires forall i: nat :: Bit(a, i) == Bit(b, i)
    ensures a == b
    decreases a + b
  {
    assert Bit(a, 0) == Bit(b, 0);
    if a / 2 != b / 2 {
      forall i: nat ensures Bit(a / 2, i) == Bit(b / 2, i) {
        assert Bit(a, i + 1) == Bit(b, i + 1);
      }
      if a == 0 || b == 0 {
        ZeroBit(0);
      }
      BitsEqual(a / 2, b / 2);
    }
  }

  /** Below `2^n` exactly when no bit at or above `n` is set. */
  lemma {:induction false} BelowPow2(a: nat, n: nat)
    ensures a < Pow2(n) <==> forall i: nat | i >= n :: !Bit(a, i)
  {
    if n == 0 {
      if a > 0 {
        if a % 2 == 0 {
          assert a / 2 > 0;
          HasSomeBit(a / 2);
          var j: nat :| Bit(a / 2, j);
          BitCons(a, j);
          var k: nat := j + 1;
          assert Bit(a, k);
        } else {
          var j: nat := 0;
          BitCons(a, j);
          assert Bit(a, j);
        }
      } else {
        forall i: nat ensures !Bit(a, i) {
          ZeroBit(i);
        }
      }
    } else {
      BelowPow2(a / 2, n - 1);
      forall i: nat | i >= n ensures Bit(a, i) == Bit(a / 2, i - 1) {
        BitCons(a, i - 1);
      }
      assert a < Pow2(n) <==> a / 2 < Pow2(n - 1);
      if a < Pow2(n) {
        forall i: nat | i >= n ensures !Bit(a, i) {
          assert !Bit(a / 2, i - 1);
        }
      } else {
        var i: nat :| i >= n - 1 && Bit(a / 2, i);
        BitCons(a, i);
        var j: nat := i + 1;
        assert j >= n && Bit(a, j);
      }
    }
  }

  /** A positive number has a set bit. */
  lemma {:induction false} HasSomeBit(a: nat)
    requires a > 0
    ensures exists i: nat :: Bit(a, i)
    decreases a
  {
    if a % 2 == 1 {
      assert Bit(a, 0);
    } else {
      HasSomeBit(a / 2);
      var j: nat :| Bit(a / 2, j);
      assert Bit(a, j + 1);
    }
  }

  /** The operators keep an `n`-bit word an `n`-bit word. */
  lemma WidthKept(a: nat, b: nat, n: nat)
    requires a < Pow2(n) && b < Pow2(n)
    ensures Or(a, b) < Pow2(n) && And(a, b) < Pow2(n) && AndNot(a, b) < Pow2(n) && Xor(a, b) < Pow2(n)
  {
    BelowPow2(a, n);
    BelowPow2(b, n);
    forall i: nat | i >= n
      ensures !Bit(Or(a, b), i) && !Bit(And(a, b), i) && !Bit(AndNot(a, b), i) && !Bit(Xor(a, b), i)
    {
      OrBit(a, b, i);
      AndBit(a, b, i);
      AndNotBit(a, b, i);
      XorBit(a, b, i);
    }
    BelowPow2(Or(a, b), n);
    BelowPow2(And(a, b), n);
    BelowPow2(AndNot(a, b), n);
    BelowPow2(Xor(a, b), n);
  }

  /** The bits of `b` split into those shared with `a` and those outside `a`. */
  lemma {:induction false} PopSplit(a: nat, b: nat)
    ensures Pop(And(a, b)) + Pop(AndNot(b, a)) == Pop(b)
    decreases a + b
  {
    if a == 0 || b == 0 {
    } else {
      PopSplit(a / 2, b / 2);
      PopTwice(And(a / 2, b / 2), if a % 2 == 1 && b % 2 == 1 then 1 else 0);
      PopTwice(AndNot(b / 2, a / 2), if b % 2 == 1 && a % 2 == 0 then 1 else 0);
    }
  }

  lemma PopTwice(x: nat, r: nat)
    requires r < 2
    ensures Pop(2 * x + r) == Pop(x) + r
  {
    assert (2 * x + r) / 2 == x;
  }

  /** Zero is the only number with no set bit. */
  lemma {:induction false} PopZero(a: nat)
    ensures Pop(a) == 0 <==> a == 0
  {
    if a > 0 && a % 2 == 0 {
      PopZero(a / 2);
    }
  }

  /** `(a & (1 << b)) != 0` tests bit `b`. */
  lemma TestBit(a: nat, b: nat)
    ensures (And(a, Pow2(b)) != 0) == Bit(a, b)
  {
    if Bit(a, b) {
      AndBit(a, Pow2(b), b);
      Pow2Bit(b, b);
      ZeroBit(b);
    } else {
      forall i: nat ensures Bit(And(a, Pow2(b)), i) == Bit(0, i) {
        AndBit(a, Pow2(b), i);
        Pow2Bit(b, i);
        ZeroBit(i);
      }
      BitsEqual(And(a, Pow2(b)), 0);
    }
  }

  /** A non-zero number has a set bit below any power of two bounding it. */
  lemma SomeBitBelow(a: nat, n: nat)
    requires 0 < a < Pow2(n)
    ensures exists i: nat :: i < n && Bit(a, i)
  {
    HasSomeBit(a);
    BelowPow2(a, n);
  }
}
