/** Choosing `k` of the set bits of a sparse mask (`Level.ChooseBitsByGosper`): the set bits are
    numbered (`ExtractIndices`), Gosper's walk chooses `k` of the numbers, and each local choice is
    spread back onto the numbered positions. */
module Sparse {
  import opened Bits
  import opened Masks
  import opened Gosper
  import opened Outcomes

  /** `ExtractIndices` from position `i` on: the set bits of `mask` among `i .. 63`, in order. */
  function IndicesFrom(mask: nat, i: nat): (r: seq<nat>)
    requires i <= Width
    ensures forall p: nat :: p in r <==> i <= p < Width && Bit(mask, p)
    ensures Ascending(r) && |r| <= Width - i
    decreases Width - i
  {
    if i == Width then []
    else
      var rest := IndicesFrom(mask, i + 1);
      if Bit(mask, i) then
        assert forall j | 0 <= j < |rest| :: i < rest[j] by {
          forall j | 0 <= j < |rest| ensures i < rest[j] {
            assert rest[j] in rest;
          }
        }
        [i] + rest
      else rest
  }

  /** `ExtractIndices(mask)`. */
  function Indices(mask: nat): seq<nat> {
    IndicesFrom(mask, 0)
  }

  /** Shifting right by one more drops bit `i` from the count. */
  lemma PopShr(y: nat, i: nat)
    ensures Pop(Shr(y, i)) == Pop(Shr(y, i + 1)) + (if Bit(y, i) then 1 else 0)
  {
    var z := Shr(y, i);
    ShrAdd(y, i, 1);
    assert Shr(z, 1) == z / 2;
    ShrBit(y, i, 0);
    BitCons(z, 0);
    PopHalf(z);
  }

  /** The array `ExtractIndices` fills has room for exactly `PopCount(mask)` positions. */
  lemma {:induction false} IndicesCount(mask: nat, i: nat)
    requires mask < WordLimit && i <= Width
    ensures |IndicesFrom(mask, i)| == Pop(Shr(mask, i))
    decreases Width - i
  {
    if i == Width {
      ShrBelow(mask, Width);
    } else {
      IndicesCount(mask, i + 1);
      PopShr(mask, i);
    }
  }

  lemma IndicesLength(mask: nat)
    requires mask < WordLimit
    ensures |Indices(mask)| == Pop(mask)
  {
    IndicesCount(mask, 0);
  }

  /** `1UL << idx[i]` when bit `i` of the local mask is set, and nothing otherwise. */
  function Place(l: nat, idx: seq<nat>, i: nat): nat
    requires i < |idx|
  {
    if Bit(l, i) then Pow2(idx[i]) else 0
  }

  /** The inner loop of `ChooseBitsByGosper`: `result |= 1UL << idx[i]` for every set bit `i`
      of the local mask `l`, for `i` from `0` up. */
  function Deposit(l: nat, idx: seq<nat>): nat {
    if |idx| == 0 then 0
    else Or(Deposit(l, idx[..|idx| - 1]), Place(l, idx, |idx| - 1))
  }

  /** Bit `i` of the local mask picks position `idx[i]`. */
  ghost predicate Picked(l: nat, idx: seq<nat>, j: nat) {
    exists i | 0 <= i < |idx| :: idx[i] == j && Bit(l, i)
  }

  lemma {:induction false} DepositBit(l: nat, idx: seq<nat>, j: nat)
    ensures Bit(Deposit(l, idx), j) <==> Picked(l, idx, j)
    decreases |idx|
  {
    if |idx| == 0 {
      ZeroBit(j);
    } else {
      var n := |idx| - 1;
      var front := idx[..n];
      DepositBit(l, front, j);
      OrBit(Deposit(l, front), Place(l, idx, n), j);
      assert Bit(Place(l, idx, n), j) <==> idx[n] == j && Bit(l, n) by {
        if Bit(l, n) {
          Pow2Bit(idx[n], j);
        } else {
          ZeroBit(j);
        }
      }
      if Picked(l, front, j) {
        var i :| 0 <= i < n && front[i] == j && Bit(l, i);
        assert idx[i] == j;
      }
      if Picked(l, idx, j) {
        var i :| 0 <= i < |idx| && idx[i] == j && Bit(l, i);
        if i < n {
          assert front[i] == j;
        }
      }
    }
  }

  /** The inverse of `Deposit`: bit `i` of the result is bit `idx[i]` of `y`. */
  function Compress(y: nat, idx: seq<nat>): (r: nat)
    ensures r < Pow2(|idx|)
  {
    if |idx| == 0 then 0
    else
      assert Pow2(|idx|) == 2 * Pow2(|idx| - 1);
      (if Bit(y, idx[0]) then 1 else 0) + 2 * Compress(y, idx[1..])
  }

  lemma {:induction false} CompressBit(y: nat, idx: seq<nat>, i: nat)
    ensures Bit(Compress(y, idx), i) == (i < |idx| && Bit(y, idx[i]))
    decreases |idx|
  {
    if |idx| == 0 {
      ZeroBit(i);
    } else {
      var b := if Bit(y, idx[0]) then 1 else 0;
      var rest := Compress(y, idx[1..]);
      if i == 0 {
        TwiceBit(rest, b, 0);
      } else {
        TwiceBit(rest, b, i - 1);
        CompressBit(y, idx[1..], i - 1);
      }
    }
  }

  /** Spreading a local mask out and reading it back gives it unchanged. */
  lemma CompressDeposit(l: nat, idx: seq<nat>)
    requires Ascending(idx) && l < Pow2(|idx|)
    ensures Compress(Deposit(l, idx), idx) == l
  {
    var d := Deposit(l, idx);
    BelowPow2(l, |idx|);
    forall i: nat ensures Bit(Compress(d, idx), i) == Bit(l, i) {
      CompressBit(d, idx, i);
      if i < |idx| {
        DepositBit(l, idx, idx[i]);
        if Picked(l, idx, idx[i]) {
          var i' :| 0 <= i' < |idx| && idx[i'] == idx[i] && Bit(l, i');
          assert i' == i;
        }
      }
    }
    BitsEqual(Compress(d, idx), l);
  }

  /** A mask within `m` is below every power of two that `m` is below. */
  lemma WithinBelow(y: nat, m: nat, n: nat)
    requires Within(y, m) && m < Pow2(n)
    ensures y < Pow2(n)
  {
    forall i: nat | i >= n ensures !Bit(y, i) {
      HighBitClear(m, n, i);
    }
    BelowPow2(y, n);
  }

  /** A subset of the source, read out and spread back, is itself. */
  lemma DepositCompress(y: nat, source: nat)
    requires source < WordLimit && Within(y, source)
    ensures Deposit(Compress(y, Indices(source)), Indices(source)) == y
  {
    var idx := Indices(source);
    var c := Compress(y, idx);
    forall j: nat ensures Bit(Deposit(c, idx), j) == Bit(y, j) {
      DepositBit(c, idx, j);
      if Picked(c, idx, j) {
        var i :| 0 <= i < |idx| && idx[i] == j && Bit(c, i);
        CompressBit(y, idx, i);
      }
      if Bit(y, j) {
        assert Bit(source, j);
        if j >= Width {
          HighBitClear(source, Width, j);
        }
        assert j in idx;
        var i :| 0 <= i < |idx| && idx[i] == j;
        CompressBit(y, idx, i);
      }
    }
    BitsEqual(Deposit(c, idx), y);
  }

  /** Reading out a subset of the source keeps its bit count. */
  lemma {:induction false} PopCompress(y: nat, source: nat, i: nat)
    requires source < WordLimit && Within(y, source) && i <= Width
    ensures Pop(Compress(y, IndicesFrom(source, i))) == Pop(Shr(y, i))
    decreases Width - i
  {
    if i == Width {
      WithinBelow(y, source, Width);
      ShrBelow(y, Width);
    } else {
      var rest := IndicesFrom(source, i + 1);
      PopCompress(y, source, i + 1);
      PopShr(y, i);
      if Bit(source, i) {
        var idx := [i] + rest;
        assert idx[1..] == rest;
        PopTwice(Compress(y, rest), if Bit(y, i) then 1 else 0);
      }
    }
  }

  /** `ChooseBitsByGosper(source, k)` as meant: each choice of `k` numbered positions, spread
      onto the set bits of `source`. */
  function Picks(source: nat, k: int): (r: seq<nat>)
    requires source < WordLimit
    ensures forall y: nat :: y in r <==> Within(y, source) && Pop(y) == k
    ensures forall i, j | 0 <= i < j < |r| :: r[i] != r[j]
  {
    var idx := Indices(source);
    var l := Local(|idx|, k);
    PicksExact(source, k, idx, l);
    Spread(l, idx)
  }

  /** Each local mask of `l`, spread onto `idx`. */
  function Spread(l: seq<nat>, idx: seq<nat>): (r: seq<nat>)
    ensures |r| == |l| && forall i | 0 <= i < |l| :: r[i] == Deposit(l[i], idx)
  {
    seq(|l|, i requires 0 <= i < |l| => Deposit(l[i], idx))
  }

  lemma PicksExact(source: nat, k: int, idx: seq<nat>, l: seq<nat>)
    requires source < WordLimit && idx == Indices(source)
    requires forall x: nat :: x in l <==> x < Pow2(|idx|) && Pop(x) == k
    ensures forall y: nat :: y in Spread(l, idx) <==> Within(y, source) && Pop(y) == k
    ensures forall i, j | 0 <= i < j < |l| && l[i] != l[j] :: Spread(l, idx)[i] != Spread(l, idx)[j]
  {
    var r := Spread(l, idx);
    forall y: nat | y in r ensures Within(y, source) && Pop(y) == k {
      var i :| 0 <= i < |r| && r[i] == y;
      assert l[i] in l;
      SpreadSound(source, k, idx, l[i]);
    }
    forall y: nat | Within(y, source) && Pop(y) == k ensures y in r {
      SpreadComplete(source, k, idx, l, y);
    }
    assert Ascending(idx);
    forall i, j | 0 <= i < j < |l| && l[i] != l[j] ensures r[i] != r[j] {
      assert l[i] in l && l[j] in l;
      CompressDeposit(l[i], idx);
      CompressDeposit(l[j], idx);
    }
  }

  /** Every subset of the source with `k` bits is reached from some local mask. */
  lemma SpreadComplete(source: nat, k: int, idx: seq<nat>, l: seq<nat>, y: nat)
    requires source < WordLimit && idx == Indices(source)
    requires forall x: nat :: x in l <==> x < Pow2(|idx|) && Pop(x) == k
    requires Within(y, source) && Pop(y) == k
    ensures y in Spread(l, idx)
  {
    var c := Compress(y, idx);
    PopCompress(y, source, 0);
    DepositCompress(y, source);
    assert c in l;
    var i :| 0 <= i < |l| && l[i] == c;
    assert Spread(l, idx)[i] == y;
  }

  /** A local mask of `k` bits spreads onto a subset of the source with `k` bits. */
  lemma SpreadSound(source: nat, k: int, idx: seq<nat>, x: nat)
    requires source < WordLimit && idx == Indices(source)
    requires x < Pow2(|idx|) && Pop(x) == k
    ensures Within(Deposit(x, idx), source) && Pop(Deposit(x, idx)) == k
  {
    var y := Deposit(x, idx);
    forall j: nat | Bit(y, j) ensures Bit(source, j) {
      DepositBit(x, idx, j);
    }
    CompressDeposit(x, idx);
    PopCompress(y, source, 0);
  }

  /** `ChooseBitsByGosper(source, k)` as written, with `ChooseBitsGosper` as written. */
  function PicksAsWritten(source: nat, k: int): Result<seq<nat>>
    requires source < WordLimit
  {
    var idx := Indices(source);
    var l :- LocalAsWritten(|idx|, k);
    Ok(Spread(l, idx))
  }

  /** With fewer than 64 set bits in the source, the source's choice is the intended one. */
  lemma PicksAgree(source: nat, k: int)
    requires source < WordLimit && Pop(source) < Width
    ensures PicksAsWritten(source, k) == Ok(Picks(source, k))
  {
    IndicesLength(source);
    LocalAgrees(|Indices(source)|, k);
  }

  /** All 64 bits set: the source finds no choice of `k < 64` of them, though the `k` low bits
      are one. */
  lemma PicksMissFullWord(k: int)
    requires 1 <= k < Width
    ensures Ones(Width) < WordLimit
    ensures PicksAsWritten(Ones(Width), k) == Ok([])
    ensures Ones(k) in Picks(Ones(Width), k)
  {
    PopOnes(Width);
    IndicesLength(Ones(Width));
    LocalMissesFullWord(k);
    forall j: nat | Bit(Ones(k), j) ensures Bit(Ones(Width), j) {
      OnesBit(k, j);
      OnesBit(Width, j);
    }
    PopOnes(k);
  }

  /** All 64 bits set, choosing all 64: the source divides by zero. */
  lemma PicksFaultOnFullWord()
    ensures Ones(Width) < WordLimit
    ensures PicksAsWritten(Ones(Width), Width) == Fail(DivideByZero)
    ensures Ones(Width) in Picks(Ones(Width), Width)
  {
    PopOnes(Width);
    IndicesLength(Ones(Width));
    LocalFaultsOnFullWord();
  }
}
