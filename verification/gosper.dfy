/** Gosper's hack on 64-bit masks (`Level.ChooseBitsGosper`): from a mask with `k` set bits,
    the next larger mask with `k` set bits. Walking it from the `k` low bits lists every
    `k`-subset of `n` positions, smallest first. */
module Gosper {
  import opened Bits
  import opened Masks
  import opened Outcomes

  /** Masks are `ulong`. */
  const Width: nat := 64

  /** `2^64`: every mask is below it. */
  const WordLimit: nat := Pow2(Width)

  /** `~m + 1`: the two's-complement negation of a 64-bit word. */
  function Negate(m: nat): nat
    requires m < WordLimit
  {
    (WordLimit - m) % WordLimit
  }

  /** `m & (~m + 1)`. */
  function LowestBit(m: nat): nat
    requires m < WordLimit
  {
    And(m, Negate(m))
  }

  /** One turn of the loop: `c = m & -m; r = m + c; ((r ^ m) >> 2) / c | r`. The sum `r` is
      taken on the naturals; `StepInWord` shows that it fits a word wherever the source runs it. */
  function Step(m: nat): nat
    requires 0 < m < WordLimit
  {
    var c := LowestBit(m);
    assert c > 0 by {
      var b, a, h := Split(m);
      LowestForm(m, b, a, h);
    }
    var r := m + c;
    assert Xor(r, m) / 4 / c >= 0 by {
      DivNonnegative(Xor(r, m) / 4, c);
    }
    Or(Xor(r, m) / 4 / c, r)
  }

  /** A positive mask is a block of `a` ones starting at bit `b`, below a high part `h`
      that starts one bit above the block. */
  lemma {:induction false} Split(m: nat) returns (b: nat, a: nat, h: nat)
    requires m > 0
    ensures a >= 1 && m == Shl(Ones(a), b) + Shl(h, a + b + 1)
    decreases m
  {
    if m % 2 == 1 {
      a, h := SplitOdd(m);
      b := 0;
    } else {
      var b';
      b', a, h := Split(m / 2);
      b := b' + 1;
    }
  }

  lemma {:induction false} SplitOdd(o: nat) returns (a: nat, h: nat)
    requires o % 2 == 1
    ensures a >= 1 && o == Ones(a) + Shl(h, a + 1)
    decreases o
  {
    if (o / 2) % 2 == 0 {
      a, h := 1, o / 4;
      assert Shl(h, 2) == 2 * Shl(h, 1) == 4 * h;
      assert Ones(1) == 1 by {
        assert Pow2(1) == 2 * Pow2(0);
      }
    } else {
      var a';
      a', h := SplitOdd(o / 2);
      a := a' + 1;
      OnesStep(a');
    }
  }

  /** `m & -m` isolates the lowest set bit. */
  lemma LowestForm(m: nat, b: nat, a: nat, h: nat)
    requires m < WordLimit
    requires a >= 1 && m == Shl(Ones(a), b) + Shl(h, a + b + 1)
    ensures LowestBit(m) == Pow2(b)
  {
    var q := OddForm(m, b, a, h);
    var q' := Pow2(Width - b - 1) - 1 - q;
    assert 0 < m by {
      ShlLess(0, 2 * q + 1, b);
      ShlZero(b);
    }
    assert WordLimit - m == Shl(2 * q' + 1, b) by {
      Complement(m, 2 * q + 1, 2 * q' + 1, b);
    }
    assert And(2 * q + 1, 2 * q' + 1) == 1 by {
      ComplementAnd(q, q', Width - b - 1);
      AndOdd(q, q');
    }
    LowestOf(m, 2 * q + 1, 2 * q' + 1, b);
  }

  /** A mask of that shape is an odd number shifted left by `b`, and fits the word. */
  lemma OddForm(m: nat, b: nat, a: nat, h: nat) returns (q: nat)
    requires m < WordLimit
    requires a >= 1 && m == Shl(Ones(a), b) + Shl(h, a + b + 1)
    ensures m == Shl(2 * q + 1, b)
    ensures b < Width && 2 * q + 1 < 2 * Pow2(Width - b - 1)
  {
    q := Ones(a - 1) + Shl(h, a);
    assert m == Shl(2 * q + 1, b) by {
      OnesStep(a - 1);
      ShlSum(Ones(a), Shl(h, a + 1), b);
      ShlAdd(h, a + 1, b);
    }
    Quotient(m, 2 * q + 1, b);
  }

  lemma Complement(m: nat, x: nat, x': nat, b: nat)
    requires b < Width && x + x' == 2 * Pow2(Width - b - 1) && m == Shl(x, b)
    ensures WordLimit - m == Shl(x', b)
  {
    WordShift(b);
    ShlSum(x', x, b);
  }

  lemma LowestOf(m: nat, x: nat, x': nat, b: nat)
    requires 0 < m < WordLimit && m == Shl(x, b) && WordLimit - m == Shl(x', b)
    requires And(x, x') == 1
    ensures LowestBit(m) == Pow2(b)
  {
    NegateValue(m);
    ShiftAnd(x, x', b);
    ShlOne(b);
  }

  lemma NegateValue(m: nat)
    requires 0 < m < WordLimit
    ensures Negate(m) == WordLimit - m
  {
    ModSmall(WordLimit - m, WordLimit);
  }

  lemma AndOdd(x: nat, y: nat)
    ensures And(2 * x + 1, 2 * y + 1) == 2 * And(x, y) + 1
  {
    assert (2 * x + 1) / 2 == x && (2 * y + 1) / 2 == y;
  }

  lemma WordShift(b: nat)
    requires b < Width
    ensures WordLimit == Shl(2 * Pow2(Width - b - 1), b)
  {
    var e := Width - b - 1;
    assert Pow2(e + 1) == 2 * Pow2(e);
    ShlOne(e + 1);
    ShlAdd(1, e + 1, b);
    ShlOne(Width);
  }

  /** A word `x << b` below `2^64` with `x` positive has `b < 64` and `x < 2^(64-b)`. */
  lemma Quotient(m: nat, x: nat, b: nat)
    requires x >= 1 && m == Shl(x, b) && m < WordLimit
    ensures b < Width && x < 2 * Pow2(Width - b - 1)
  {
    ShlLess(x, 1, b);
    ShlOne(b);
    if b >= Width {
      Pow2Monotone(Width, b);
    }
    WordShift(b);
    ShlLess(x, 2 * Pow2(Width - b - 1), b);
  }

  lemma ShiftAnd(x: nat, y: nat, s: nat)
    ensures And(Shl(x, s), Shl(y, s)) == Shl(And(x, y), s)
  {
    forall i: nat ensures Bit(And(Shl(x, s), Shl(y, s)), i) == Bit(Shl(And(x, y), s), i) {
      AndBit(Shl(x, s), Shl(y, s), i);
      ShiftBit(x, s, i);
      ShiftBit(y, s, i);
      ShiftBit(And(x, y), s, i);
      if i >= s {
        AndBit(x, y, i - s);
      }
    }
    BitsEqual(And(Shl(x, s), Shl(y, s)), Shl(And(x, y), s));
  }

  /** The block `Ones(a) << b` topped up by its lowest bit is the next power of two. */
  lemma BlockTop(a: nat, b: nat)
    ensures Shl(Ones(a), b) + Pow2(b) == Pow2(a + b)
  {
    ShlOne(b);
    ShlSum(Ones(a), 1, b);
    ShlOne(a);
    ShlAdd(1, a, b);
    ShlOne(a + b);
  }

  /** The step moves the top bit of the lowest block up by one and drops the rest of the
      block to the bottom. */
  lemma StepForm(m: nat, b: nat, a: nat, h: nat)
    requires m < WordLimit
    requires a >= 1 && m == Shl(Ones(a), b) + Shl(h, a + b + 1)
    ensures m > 0
    ensures Step(m) == Shl(2 * h + 1, a + b) + Ones(a - 1)
  {
    var c := Pow2(b);
    var r := Shl(2 * h + 1, a + b);
    assert m > 0 && m + c == r && r == Shl(h, a + b + 1) + Pow2(a + b) by {
      Carry(m, a, b, h);
    }
    assert LowestBit(m) == c by {
      LowestForm(m, b, a, h);
    }
    var x := Shl(Ones(a + 1), b);
    XorForm(a, b, h, r, m, x);
    assert x / 4 / c == Ones(a - 1) by {
      DropBlock(a, b);
    }
    LowBlockOr(a, b, h, r);
    StepOf(m, c, r, Ones(a - 1));
  }

  lemma LowBlockOr(a: nat, b: nat, h: nat, r: nat)
    requires a >= 1 && r == Shl(2 * h + 1, a + b)
    ensures Or(Ones(a - 1), r) == r + Ones(a - 1)
  {
    Pow2Monotone(a - 1, a + b);
    OrConcat(r + Ones(a - 1), 2 * h + 1, Ones(a - 1), a + b);
  }

  lemma StepOf(m: nat, c: nat, r: nat, q: nat)
    requires 0 < m < WordLimit && LowestBit(m) == c && c > 0 && r == m + c
    requires Xor(r, m) / 4 / c == q
    ensures Step(m) == Or(q, r)
  {
  }

  /** Adding the lowest bit carries the block into the bit above it. */
  lemma Carry(m: nat, a: nat, b: nat, h: nat)
    requires a >= 1 && m == Shl(Ones(a), b) + Shl(h, a + b + 1)
    ensures m > 0
    ensures m + Pow2(b) == Shl(2 * h + 1, a + b) == Shl(h, a + b + 1) + Pow2(a + b)
  {
    BlockTop(a, b);
    ShlLess(0, Ones(a), b);
    ShlZero(b);
    ShlAdd(h, 1, a + b);
    ShlSum(2 * h, 1, a + b);
    ShlOne(a + b);
  }

  /** `r ^ m` is the lowest block grown by one bit. */
  lemma XorForm(a: nat, b: nat, h: nat, r: nat, m: nat, x: nat)
    requires a >= 1
    requires r == Shl(h, a + b + 1) + Pow2(a + b) && m == Shl(h, a + b + 1) + Shl(Ones(a), b)
    requires x == Shl(Ones(a + 1), b)
    ensures Xor(r, m) == x
  {
    BlockTop(a, b);
    forall i: nat ensures Bit(Xor(r, m), i) == Bit(Shl(Ones(a + 1), b), i) {
      XorBit(r, m, i);
      ConcatBitAt(r, h, Pow2(a + b), a + b + 1, i);
      ConcatBitAt(m, h, Shl(Ones(a), b), a + b + 1, i);
      Pow2Bit(a + b, i);
      ShiftBit(Ones(a), b, i);
      ShiftBit(Ones(a + 1), b, i);
      if i >= b {
        OnesBit(a, i - b);
        OnesBit(a + 1, i - b);
      }
    }
    BitsEqual(Xor(r, m), x);
  }

  /** `(x >> 2) / c` with `x` the grown block and `c = 2^b` leaves `a - 1` low ones. */
  lemma DropBlock(a: nat, b: nat)
    requires a >= 1
    ensures Shl(Ones(a + 1), b) / 4 / Pow2(b) == Ones(a - 1)
  {
    var x := Shl(Ones(a + 1), b);
    var o := Ones(a + 1);
    assert x / 4 == Shr(x, 2) by {
      DivPow2(x, 2);
    }
    assert x / 4 / Pow2(b) == Shr(Shr(x, 2), b) by {
      DivPow2(x / 4, b);
    }
    assert Shr(Shr(x, 2), b) == Shr(Shr(x, b), 2) by {
      ShrAdd(x, 2, b);
      ShrAdd(x, b, 2);
    }
    assert Shr(x, b) == o by {
      ShrShl(o, 0, b);
    }
    assert Shr(o, 2) == Shr(o / 2, 1) == o / 2 / 2;
    OnesStep(a - 1);
    OnesStep(a);
  }

  /** Gosper's step gives the least larger mask with as many set bits. */
  lemma StepFacts(m: nat)
    requires 0 < m < WordLimit
    ensures Step(m) > m && Pop(Step(m)) == Pop(m)
    ensures forall x: nat | m < x < Step(m) :: Pop(x) != Pop(m)
  {
    var b, a, h := Split(m);
    StepForm(m, b, a, h);
    var g := Step(m);
    Carry(m, a, b, h);
    PopOfBlock(m, a, b, h);
    PopOfStep(g, a, b, h);
    forall x: nat | m < x < g ensures Pop(x) != Pop(m) {
      Between(a, b, h, m, g, x);
    }
  }

  lemma PopOfBlock(m: nat, a: nat, b: nat, h: nat)
    requires m == Shl(Ones(a), b) + Shl(h, a + b + 1)
    ensures Pop(m) == Pop(h) + a
  {
    var low := Shl(Ones(a), b);
    assert low < Pow2(a + b + 1) by {
      BlockTop(a, b);
    }
    PopConcat(m, h, low, a + b + 1);
    ShiftPop(Ones(a), b);
    PopOnes(a);
  }

  lemma PopOfStep(g: nat, a: nat, b: nat, h: nat)
    requires a >= 1 && g == Shl(2 * h + 1, a + b) + Ones(a - 1)
    ensures Pop(g) == Pop(h) + a
    ensures g == Shl(h, a + b + 1) + Pow2(a + b) + Ones(a - 1)
  {
    Pow2Monotone(a - 1, a + b);
    PopConcat(g, 2 * h + 1, Ones(a - 1), a + b);
    PopOnes(a - 1);
    PopTwice(h, 1);
    ShlAdd(h, 1, a + b);
    ShlSum(2 * h, 1, a + b);
    ShlOne(a + b);
  }

  /** Every mask strictly between `m` and its step differs from `m` in bit count. */
  lemma Between(a: nat, b: nat, h: nat, m: nat, g: nat, x: nat)
    requires a >= 1 && m == Shl(Ones(a), b) + Shl(h, a + b + 1)
    requires g == Shl(h, a + b + 1) + Pow2(a + b) + Ones(a - 1)
    requires m < x < g
    ensures Pop(x) != Pop(h) + a
  {
    var y := x - Shl(h, a + b + 1);
    LowPart(a, b, y);
    PopConcat(x, h, y, a + b + 1);
  }

  /** The low part of a mask between `m` and its step has more or fewer bits than the block. */
  lemma LowPart(a: nat, b: nat, y: nat)
    requires a >= 1 && Shl(Ones(a), b) < y < Pow2(a + b) + Ones(a - 1)
    ensures y < Pow2(a + b + 1)
    ensures Pop(y) != a
  {
    Pow2Monotone(a - 1, a + b);
    if y < Pow2(a + b) {
      BelowCarry(a, b, y);
    } else {
      AboveCarry(a, b, y);
    }
  }

  /** Above the block but below its carry: the block's bits and at least one more. */
  lemma BelowCarry(a: nat, b: nat, y: nat)
    requires Shl(Ones(a), b) < y < Pow2(a + b)
    ensures Pop(y) > a
  {
    BlockTop(a, b);
    var t := y - Shl(Ones(a), b);
    PopConcat(y, Ones(a), t, b);
    PopOnes(a);
    PopZero(t);
  }

  /** From the carry up to the step: the carry bit and fewer than `a - 1` below it. */
  lemma AboveCarry(a: nat, b: nat, y: nat)
    requires a >= 1 && Pow2(a + b) <= y < Pow2(a + b) + Ones(a - 1)
    ensures Pop(y) < a
  {
    var t := y - Pow2(a + b);
    Pow2Monotone(a - 1, a + b);
    ShlOne(a + b);
    PopConcat(y, 1, t, a + b);
    assert Pop(1) == 1;
    PopBelow(t, a - 1);
  }

  lemma DivNonnegative(x: nat, d: nat)
    requires d > 0
    ensures x / d >= 0
  {
  }

  /** Where the source runs the step, below `2^63`, the sum `m + c` does not wrap. */
  lemma StepInWord(m: nat)
    requires 0 < m < Pow2(Width - 1)
    ensures m + LowestBit(m) < WordLimit
  {
    var b, a, h := Split(m);
    LowestForm(m, b, a, h);
    ShlLess(Ones(a), 1, b);
    ShlOne(b);
  }

  /** Strictly increasing masks. */
  predicate Ascending(s: seq<nat>) {
    forall i, j | 0 <= i < j < |s| :: s[i] < s[j]
  }

  /** The loop `while (mask < limit) { yield mask; mask = Step(mask); }` from `m` on: every
      mask from `m` up to `limit` with as many set bits as `m`, smallest first. */
  function Walk(m: nat, limit: nat): (r: seq<nat>)
    requires 0 < m && limit <= WordLimit
    ensures forall x: nat :: x in r <==> m <= x < limit && Pop(x) == Pop(m)
    ensures Ascending(r)
    decreases limit - m
  {
    if m >= limit then []
    else
      StepFacts(m);
      [m] + Walk(Step(m), limit)
  }

  /** The `k` low bits are the smallest mask with `k` set bits. */
  lemma FewestOnes(x: nat, k: nat)
    requires Pop(x) == k
    ensures Ones(k) <= x
  {
    if x < Ones(k) {
      PopBelow(x, k);
    }
  }

  /** `ChooseBitsGosper(n, k)` as intended: every mask of `k` set bits among the `n` low
      positions, smallest first. */
  function Local(n: int, k: int): (r: seq<nat>)
    requires n <= Width
    ensures forall x: nat :: x in r <==> 0 <= n && x < Pow2(n) && Pop(x) == k
    ensures Ascending(r)
  {
    if k < 0 || k > n then
      assert forall x: nat | 0 <= n && x < Pow2(n) :: Pop(x) <= n by {
        forall x: nat | 0 <= n && x < Pow2(n) ensures Pop(x) <= n {
          PopBelow(x, n);
        }
      }
      []
    else if k == 0 then
      assert forall x: nat :: Pop(x) == 0 <==> x == 0 by {
        forall x: nat ensures Pop(x) == 0 <==> x == 0 {
          PopZero(x);
        }
      }
      [0]
    else
      Pow2Monotone(n, Width);
      PopOnes(k);
      assert forall x: nat | Pop(x) == k :: Ones(k) <= x by {
        forall x: nat | Pop(x) == k ensures Ones(k) <= x {
          FewestOnes(x, k);
        }
      }
      Walk(Ones(k), Pow2(n))
  }

  /** `ChooseBitsGosper(n, k)` as written: C# reduces a `ulong` shift count modulo 64, so
      `1UL << 64` is `1`. For `n = 64` the limit is `1`, and for `k = 64` the first mask is `0`,
      whose lowest bit is `0`, and the step divides by it. The masks walked are below `2^63`, where
      `StepInWord` shows that the sum in the step does not wrap. */
  function LocalAsWritten(n: int, k: int): Result<seq<nat>>
    requires n <= Width
  {
    if k < 0 || k > n then Ok([])
    else if k == 0 then Ok([0])
    else
      var mask := Ones(k % Width);
      var limit := Pow2(n % Width);
      if mask >= limit then Ok([])
      else if mask == 0 then Fail(DivideByZero)
      else
        assert limit <= WordLimit by {
          Pow2Monotone(n % Width, Width);
        }
        Ok(Walk(mask, limit))
  }

  /** Below 64 positions the source does what it means to. */
  lemma LocalAgrees(n: int, k: int)
    requires n < Width
    ensures LocalAsWritten(n, k) == Ok(Local(n, k))
  {
    if 0 < k <= n {
      assert k % Width == k && n % Width == n;
    }
  }

  /** With all 64 positions the source lists no mask at all, though `k` low bits are one. */
  lemma LocalMissesFullWord(k: int)
    requires 1 <= k < Width
    ensures LocalAsWritten(Width, k) == Ok([])
    ensures Ones(k) in Local(Width, k)
  {
    assert Pow2(Width % Width) == 1;
    assert Ones(k) >= 1 by {
      assert Pow2(k) == 2 * Pow2(k - 1);
    }
    assert Ones(k) < Pow2(Width) by {
      Pow2Monotone(k, Width);
    }
    PopOnes(k);
  }

  /** Choosing all 64 of 64 positions divides by zero instead of giving the all-ones mask. */
  lemma LocalFaultsOnFullWord()
    ensures LocalAsWritten(Width, Width) == Fail(DivideByZero)
    ensures Ones(Width) in Local(Width, Width)
  {
    assert Ones(Width % Width) == 0;
    PopOnes(Width);
  }
}
