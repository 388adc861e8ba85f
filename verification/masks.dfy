/** Facts about words built from parts: a number `(x << s) + y` with `y < 2^s` holds the bits
    of `y` below `s` and those of `x` from `s` on, and its set bits are those of both.
    Shifts are recursive functions, so that proofs about them stay in linear arithmetic. */
module Masks {
  import opened Bits

  /** The low `w` bits set: `(1 << w) - 1`. */
  function Ones(w: nat): nat {
    Pow2(w) - 1
  }

  /** `x << s`, without the word's truncation. */
  function Shl(x: nat, s: nat): nat {
    if s == 0 then x else 2 * Shl(x, s - 1)
  }

  /** `x >> s`. */
  function Shr(x: nat, s: nat): nat {
    if s == 0 then x else Shr(x / 2, s - 1)
  }

  /** Every bit of `x` is a bit of `m`. */
  ghost predicate Within(x: nat, m: nat) {
    forall i: nat :: Bit(x, i) ==> Bit(m, i)
  }

  lemma {:induction false} ShlOne(s: nat)
    ensures Shl(1, s) == Pow2(s)
  {
    if s > 0 {
      ShlOne(s - 1);
    }
  }

  lemma {:induction false} ShlAdd(x: nat, s: nat, t: nat)
    ensures Shl(Shl(x, s), t) == Shl(x, s + t)
  {
    if t > 0 {
      ShlAdd(x, s, t - 1);
    }
  }

  lemma {:induction false} ShlSum(x: nat, y: nat, s: nat)
    ensures Shl(x + y, s) == Shl(x, s) + Shl(y, s)
  {
    if s > 0 {
      ShlSum(x, y, s - 1);
    }
  }

  lemma {:induction false} ShlLess(x: nat, y: nat, s: nat)
    ensures x < y <==> Shl(x, s) < Shl(y, s)
  {
    if s > 0 {
      ShlLess(x, y, s - 1);
    }
  }

  lemma {:induction false} ShlZero(s: nat)
    ensures Shl(0, s) == 0
  {
    if s > 0 {
      ShlZero(s - 1);
    }
  }

  /** Shifting back out what was shifted in. */
  lemma {:induction false} ShrShl(x: nat, y: nat, s: nat)
    requires y < Pow2(s)
    ensures Shr(Shl(x, s) + y, s) == x
  {
    if s > 0 {
      assert (Shl(x, s) + y) / 2 == Shl(x, s - 1) + y / 2;
      ShrShl(x, y / 2, s - 1);
    }
  }

  lemma {:induction false} ShrAdd(z: nat, s: nat, t: nat)
    ensures Shr(Shr(z, s), t) == Shr(z, s + t)
  {
    if s > 0 {
      ShrAdd(z / 2, s - 1, t);
    }
  }

  /** Dividing by `2^s` is shifting right by `s`. */
  lemma {:induction false} DivPow2(z: nat, s: nat)
    ensures z / Pow2(s) == Shr(z, s)
  {
    if s > 0 {
      DivNested(z, 2, Pow2(s - 1));
      DivPow2(z / 2, s - 1);
    }
  }

  lemma {:induction false} ShrBit(x: nat, s: nat, i: nat)
    ensures Bit(Shr(x, s), i) == Bit(x, i + s)
  {
    if s > 0 {
      ShrBit(x / 2, s - 1, i);
      BitCons(x, i + s - 1);
    }
  }

  lemma {:induction false} ShrBelow(x: nat, s: nat)
    requires x < Pow2(s)
    ensures Shr(x, s) == 0
  {
    if s > 0 {
      ShrBelow(x / 2, s - 1);
    }
  }

  /** No bit at or above `n` is set below `2^n`. */
  lemma HighBitClear(a: nat, n: nat, i: nat)
    requires a < Pow2(n) && i >= n
    ensures !Bit(a, i)
  {
    BelowPow2(a, n);
  }

  lemma PopHalf(a: nat)
    ensures Pop(a) == Pop(a / 2) + a % 2
  {
  }

  /** The bits of a word built from a high part `x` above position `s` and a low part `y`. */
  lemma {:induction false} ConcatBit(x: nat, y: nat, s: nat, i: nat)
    requires y < Pow2(s)
    ensures Bit(Shl(x, s) + y, i) == if i < s then Bit(y, i) else Bit(x, i - s)
    decreases s
  {
    if s > 0 {
      var u := Shl(x, s - 1) + y / 2;
      assert Shl(x, s) + y == 2 * u + y % 2;
      if i == 0 {
        TwiceBit(u, y % 2, 0);
      } else {
        TwiceBit(u, y % 2, i - 1);
        ConcatBit(x, y / 2, s - 1, i - 1);
        BitCons(y, i - 1);
      }
    }
  }

  /** `ConcatBit` for a word given by name. */
  lemma ConcatBitAt(w: nat, x: nat, y: nat, s: nat, i: nat)
    requires w == Shl(x, s) + y && y < Pow2(s)
    ensures Bit(w, i) == if i < s then Bit(y, i) else Bit(x, i - s)
  {
    ConcatBit(x, y, s, i);
  }

  /** The set bits of a word built from parts are those of the parts. */
  lemma {:induction false} PopConcat(w: nat, x: nat, y: nat, s: nat)
    requires w == Shl(x, s) + y && y < Pow2(s)
    ensures Pop(w) == Pop(x) + Pop(y)
    decreases s
  {
    if s > 0 {
      PopConcat(w / 2, x, y / 2, s - 1);
      PopHalf(w);
      PopHalf(y);
    }
  }

  lemma ShiftBit(x: nat, s: nat, i: nat)
    ensures Bit(Shl(x, s), i) == (i >= s && Bit(x, i - s))
  {
    ConcatBit(x, 0, s, i);
  }

  lemma ShiftPop(x: nat, s: nat)
    ensures Pop(Shl(x, s)) == Pop(x)
  {
    PopConcat(Shl(x, s), x, 0, s);
  }

  lemma OnesStep(w: nat)
    ensures Ones(w + 1) == 2 * Ones(w) + 1
  {
  }

  lemma {:induction false} OnesBit(w: nat, i: nat)
    ensures Bit(Ones(w), i) == (i < w)
    decreases w
  {
    if w == 0 {
      ZeroBit(i);
    } else {
      OnesStep(w - 1);
      if i == 0 {
        TwiceBit(Ones(w - 1), 1, 0);
      } else {
        TwiceBit(Ones(w - 1), 1, i - 1);
        OnesBit(w - 1, i - 1);
      }
    }
  }

  lemma {:induction false} PopOnes(w: nat)
    ensures Pop(Ones(w)) == w
    decreases w
  {
    if w > 0 {
      OnesStep(w - 1);
      PopTwice(Ones(w - 1), 1);
      PopOnes(w - 1);
    }
  }

  /** The `w` low bits: exactly the bits below `w`, `w` of them. */
  lemma OnesMeaning(w: nat)
    ensures Pop(Ones(w)) == w
    ensures forall i: nat :: Bit(Ones(w), i) <==> i < w
  {
    PopOnes(w);
    forall i: nat ensures Bit(Ones(w), i) <==> i < w {
      OnesBit(w, i);
    }
  }

  /** A word of `w` bits has at most `w` set bits, and all `w` only when it is all ones. */
  lemma {:induction false} PopBelow(t: nat, w: nat)
    requires t < Pow2(w)
    ensures Pop(t) <= w
    ensures Pop(t) == w ==> t == Ones(w)
    decreases w
  {
    if w > 0 {
      assert t / 2 < Pow2(w - 1);
      PopHalf(t);
      PopBelow(t / 2, w - 1);
      OnesStep(w - 1);
    }
  }

  /** Division by `p` then by `q` is division by `p · q`. */
  lemma DivNested(x: nat, p: nat, q: nat)
    requires p > 0 && q > 0
    ensures x / p / q == x / (p * q)
  {
    var u, r1 := x / p, x % p;
    var v, r2 := u / q, u % q;
    assert x == p * q * v + (p * r2 + r1) by {
      assert x == p * u + r1;
      assert u == q * v + r2;
    }
    assert p * r2 + r1 < p * q by {
      assert p * r2 <= p * (q - 1);
    }
    DivUnique(x, p * q, v, p * r2 + r1);
  }

  lemma DivUnique(x: int, d: int, q: int, r: int)
    requires d > 0 && 0 <= r < d && x == d * q + r
    ensures x / d == q
  {
    var q', r' := x / d, x % d;
    assert d * (q' - q) == r - r';
    MulSign(d, q' - q);
  }

  lemma ModSmall(x: int, d: int)
    requires 0 <= x < d
    ensures x % d == x
  {
    DivUnique(x, d, 0, x);
  }

  lemma MulSign(d: int, t: int)
    requires d > 0
    ensures t >= 1 ==> d * t >= d
    ensures t <= -1 ==> d * t <= -d
  {
  }

  /** A mask within another has no more set bits. */
  lemma PopWithin(y: nat, m: nat)
    requires Within(y, m)
    ensures Pop(y) <= Pop(m)
  {
    forall i: nat ensures Bit(And(y, m), i) == Bit(y, i) {
      AndBit(y, m, i);
    }
    BitsEqual(And(y, m), y);
    PopSplit(y, m);
  }

  /** Two words adding up to `w` ones share no bit. */
  lemma {:induction false} ComplementAnd(x: nat, y: nat, w: nat)
    requires x + y == Ones(w)
    ensures And(x, y) == 0
    decreases w
  {
    if w > 0 && x != 0 && y != 0 {
      OnesStep(w - 1);
      assert x % 2 + y % 2 == 1;
      ComplementAnd(x / 2, y / 2, w - 1);
    }
  }

  /** Or-ing a low part into a shifted word adds it. */
  lemma OrConcat(w: nat, x: nat, y: nat, s: nat)
    requires w == Shl(x, s) + y && y < Pow2(s)
    ensures Or(y, Shl(x, s)) == w
  {
    forall i: nat ensures Bit(Or(y, Shl(x, s)), i) == Bit(w, i) {
      OrBit(y, Shl(x, s), i);
      ShiftBit(x, s, i);
      ConcatBit(x, y, s, i);
      if i >= s {
        BelowPow2(y, s);
      }
    }
    BitsEqual(Or(y, Shl(x, s)), w);
  }
}
