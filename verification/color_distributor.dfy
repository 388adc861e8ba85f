/** `ColorDistributor.Distribute`: how many tiles each colour of a level gets. The special
    counts are taken first; the rest of the tiles go to the remaining colours in multiples of
    the match count `k` under one of the modes, the tiles still left are topped up on colours
    below the per-colour cap, and the counts are then mapped onto shuffled colour numbers.
    `Random.Shared` is a parameter: `roll(n)` stands for the value it returns at the `n`-th call
    of one loop, and the shuffle is any permutation, so every run of the source is a run of the
    model for some choice. */
module ColorDistributor {
  import opened Outcomes
  import opened SlotSimulator

  /** The modes `Random`, `Max` and `Min`; `Specified` is not part of this model. */
  datatype Mode = Random | Max | Min

  /** `DistributeConfig`: `SpecialColorCountArray` is nullable. */
  datatype Config = Config(
    total: int,
    colors: int,
    k: int,
    normalMaxPair: int,
    mode: Mode,
    special: Option<seq<int>>)

  /** C#'s `/` on `int`, which rounds toward zero. */
  function Quot(a: int, b: int): (q: int)
    requires b > 0
    ensures a >= 0 ==> 0 <= a - q * b < b && 0 <= q && (a >= b ==> q >= 1)
    ensures a < 0 ==> -b < a - q * b <= 0 && q <= 0
    decreases if a >= 0 then 2 * a else 1 - 2 * a
  {
    if a < 0 then
      var p := Quot(-a, b);
      assert (-p) * b == -(p * b);
      -p
    else if a < b then 0
    else
      var p := Quot(a - b, b);
      assert (1 + p) * b == b + p * b;
      1 + p
  }

  /** The sum of a list of counts. */
  function Total(s: seq<int>): int {
    if s == [] then 0 else Total(s[..|s| - 1]) + s[|s| - 1]
  }

  /** The special counts, none for a null array. */
  function Specials(cfg: Config): seq<int> {
    if cfg.special.Some? then cfg.special.value else []
  }

  /** `ValidateConfig`: every rejection is an `ArgumentException`. */
  function Validate(cfg: Config): (r: Result<()>)
    ensures r.Ok? <==>
      cfg.total > 0 && cfg.colors > 0 && cfg.k > 0 && Multiple(cfg.total, cfg.k) &&
      (forall i | 0 <= i < |Specials(cfg)| :: Multiple(Specials(cfg)[i], cfg.k)) &&
      |Specials(cfg)| < cfg.colors
    ensures r.Fail? ==> r.fault == Argument
  {
    if cfg.total <= 0 || cfg.colors <= 0 || cfg.k <= 0 then Fail(Argument)
    else if !Multiple(cfg.total, cfg.k) then Fail(Argument)
    else if exists i | 0 <= i < |Specials(cfg)| :: !Multiple(Specials(cfg)[i], cfg.k) then Fail(Argument)
    else if |Specials(cfg)| >= cfg.colors then Fail(Argument)
    else Ok(())
  }

  /** `ComputeMaxPairPerColor`: the larger of the normal cap and the rounded-up share of the
      pairs, so the remaining colours can hold every pair, and no smaller cap above the normal
      one could. */
  function MaxPair(remaining: int, colors: int, k: int, normal: int): (m: int)
    requires k >= 1 && colors >= 1
    ensures m >= normal
    ensures m * colors >= Quot(remaining, k)
    ensures Quot(remaining, k) >= 1 ==> m >= 1
    ensures remaining >= 0 && m > normal ==> (m - 1) * colors < Quot(remaining, k)
  {
    var pairs := Quot(remaining, k);
    var share := Quot(pairs + colors - 1, colors);
    ShareCovers(pairs, colors, share);
    var m := if share > normal then share else normal;
    Scale(share, m, colors);
    m
  }

  /** The rounded-up share `share` of `pairs` over `colors` covers them, and one less would
      not. */
  lemma ShareCovers(pairs: int, colors: int, share: int)
    requires colors >= 1 && share == Quot(pairs + colors - 1, colors)
    ensures share * colors >= pairs
    ensures pairs >= 0 ==> (share - 1) * colors < pairs
    ensures pairs >= 1 ==> share >= 1
  {
    assert (share - 1) * colors == share * colors - colors;
    if share <= 0 {
      Scale(share, 0, colors);
    }
  }

  /** Multiplying by a positive factor keeps the order. */
  lemma Scale(p: int, q: int, k: int)
    requires p <= q && k >= 1
    ensures p * k <= q * k
  {
    assert q * k - p * k == (q - p) * k;
  }

  /** Adding whole multiples of `k` keeps the remainder. */
  lemma {:induction false} RemShift(x: nat, p: nat, k: int)
    requires k >= 1
    ensures Rem(x + p * k, k) == Rem(x, k)
    decreases p
  {
    if p > 0 {
      assert x + p * k == (x + (p - 1) * k) + k;
      RemShift(x, p - 1, k);
    }
  }

  /** Taking `pair` of the pairs left keeps what is left non-negative and a multiple of `k`
      when it was, and the entry `pair * k` within the cap. */
  lemma Take(remaining: int, pair: int, maxPair: int, k: int)
    requires k >= 1 && remaining >= 0 && pair <= Quot(remaining, k)
    ensures pair >= 0 ==> 0 <= pair * k <= remaining && Rem(pair * k, k) == 0
    ensures pair >= 0 ==> Rem(remaining - pair * k, k) == Rem(remaining, k)
    ensures pair <= maxPair ==> pair * k <= maxPair * k
    ensures pair >= 1 ==> pair * k >= k
  {
    if pair <= maxPair {
      Scale(pair, maxPair, k);
    }
    if pair >= 1 {
      Scale(1, pair, k);
    }
    if pair >= 0 {
      Scale(pair, Quot(remaining, k), k);
      Scale(0, pair, k);
      RemShift(0, pair, k);
      RemShift(remaining - pair * k, pair, k);
    }
  }

  /** `DistributeMin`: one pair per colour while tiles are left and colours are free. */
  function Least(list: seq<int>, remaining: int, n: int, k: int): (r: (seq<int>, int))
    ensures |list| <= |r.0| && r.0[..|list|] == list
    ensures forall i | |list| <= i < |r.0| :: r.0[i] == k
    ensures Total(r.0) + r.1 == Total(list) + remaining
    ensures |r.0| <= if |list| < n then n else |list|
    ensures r.1 > 0 ==> |r.0| >= n
    ensures k >= 1 && remaining >= 0 && Rem(remaining, k) == 0 ==> r.1 >= 0 && Rem(r.1, k) == 0
    ensures remaining <= 0 ==> r == (list, remaining)
    decreases n - |list|
  {
    if remaining > 0 && |list| < n then
      assert (list + [k])[..|list|] == list;
      Least(list + [k], remaining - k, n, k)
    else (list, remaining)
  }

  /** A count of whole pairs within a cap of `maxPair` pairs. */
  predicate Pairs(e: int, k: int, maxPair: int)
    requires k >= 1
  {
    0 <= e <= maxPair * k && Rem(e, k) == 0
  }

  /** The tiles of `pair` pairs, or of the whole pairs left when fewer are left. */
  function Portion(remaining: int, pair: int, k: int): int
    requires k >= 1
  {
    var q := Quot(remaining, k);
    (if pair < q then pair else q) * k
  }

  /** `DistributeMax`: as many pairs as the cap allows, while tiles are left and colours are
      free. */
  function Most(list: seq<int>, remaining: int, n: int, maxPair: int, k: int): (r: (seq<int>, int))
    requires k >= 1
    ensures |list| <= |r.0| && r.0[..|list|] == list
    ensures Total(r.0) + r.1 == Total(list) + remaining
    ensures |r.0| <= if |list| < n then n else |list|
    ensures r.1 > 0 ==> |r.0| >= n
    ensures remaining <= 0 ==> r == (list, remaining)
    decreases n - |list|
  {
    if remaining > 0 && |list| < n then
      var e := Portion(remaining, maxPair, k);
      assert (list + [e])[..|list|] == list;
      Most(list + [e], remaining - e, n, maxPair, k)
    else (list, remaining)
  }

  /** `Random.Shared.Next(1, maxPair + 1)` with `x` the random draw: a bound below the lower
      one is an argument fault, equal bounds give the lower one. */
  function Draw(maxPair: int, x: nat): (r: Result<int>)
    ensures r.Ok? <==> maxPair >= 0
    ensures r.Fail? ==> r.fault == ArgumentOutOfRange
    ensures r.Ok? ==> 1 <= r.value && (maxPair >= 1 ==> r.value <= maxPair)
  {
    if maxPair < 0 then Fail(ArgumentOutOfRange)
    else if maxPair == 0 then Ok(1)
    else Ok(1 + x % maxPair)
  }

  /** `DistributeRandom`: a random number of pairs up to the cap, at most what is left, while
      tiles are left and colours are free; `roll(|list|)` is the draw for the next colour. */
  function Scatter(list: seq<int>, remaining: int, n: int, maxPair: int, k: int, roll: nat -> nat): (r: Result<(seq<int>, int)>)
    requires k >= 1
    ensures maxPair >= 1 ==> r.Ok?
    ensures r.Fail? ==> r.fault == ArgumentOutOfRange
    ensures r.Ok? ==> |list| <= |r.value.0| && r.value.0[..|list|] == list
    ensures r.Ok? ==> Total(r.value.0) + r.value.1 == Total(list) + remaining
    ensures r.Ok? ==> |r.value.0| <= if |list| < n then n else |list|
    ensures r.Ok? && r.value.1 > 0 ==> |r.value.0| >= n
    ensures remaining <= 0 ==> r == Ok((list, remaining))
    decreases n - |list|
  {
    if remaining > 0 && |list| < n then
      var drawn :- Draw(maxPair, roll(|list|));
      var e := Portion(remaining, drawn, k);
      assert (list + [e])[..|list|] == list;
      Scatter(list + [e], remaining - e, n, maxPair, k, roll)
    else Ok((list, remaining))
  }

  /** `availableColorIndex`: the positions of the counts below `cap`, in order. */
  function Below(list: seq<int>, cap: int): (r: seq<nat>)
    ensures forall i :: i in r <==> 0 <= i < |list| && list[i] < cap
  {
    if list == [] then []
    else
      var front := Below(list[..|list| - 1], cap);
      assert forall i | 0 <= i < |list| - 1 :: list[..|list| - 1][i] == list[i];
      if list[|list| - 1] < cap then front + [|list| - 1] else front
  }

  /** `FillRemainingTiles`: while tiles are left, one pair goes to a colour below the cap of
      `maxPair * k`, the one at draw `roll(remaining)` of the list of such colours; with none,
      indexing the empty list is an argument fault. */
  function Fill(list: seq<int>, remaining: int, maxPair: int, k: int, roll: nat -> nat): (r: Result<(seq<int>, int)>)
    requires k >= 1
    ensures r.Fail? ==> r.fault == ArgumentOutOfRange
    ensures r.Ok? ==> |r.value.0| == |list| && r.value.1 <= 0
    ensures r.Ok? ==> Total(r.value.0) + r.value.1 == Total(list) + remaining
    ensures r.Ok? && remaining >= 0 && Rem(remaining, k) == 0 ==> r.value.1 == 0
    decreases if remaining > 0 then remaining else 0
  {
    if remaining <= 0 then Ok((list, remaining))
    else
      var available := Below(list, maxPair * k);
      if available == [] then Fail(ArgumentOutOfRange)
      else
        var idx := available[roll(remaining) % |available|];
        assert idx in available;
        var next := Bump(list, idx, k);
        Fill(next, remaining - k, maxPair, k, roll)
  }

  /** `out` grew from `list` by whole pairs, each raised count staying below `cap + k`. */
  predicate Grown(list: seq<int>, out: seq<int>, k: int, cap: int)
    requires k >= 1
  {
    |out| == |list| &&
    forall i | 0 <= i < |list| ::
      list[i] <= out[i] && Rem(out[i] - list[i], k) == 0 && (out[i] > list[i] ==> out[i] < cap + k)
  }

  /** `FillRemainingTiles` only adds whole pairs, and only to counts below the cap, so a count
      it raises stays below the cap plus one pair. */
  lemma {:induction false} FillRaises(list: seq<int>, remaining: int, maxPair: int, k: int, roll: nat -> nat)
    requires k >= 1 && Fill(list, remaining, maxPair, k, roll).Ok?
    ensures Grown(list, Fill(list, remaining, maxPair, k, roll).value.0, k, maxPair * k)
    decreases if remaining > 0 then remaining else 0
  {
    if remaining > 0 {
      var available := Below(list, maxPair * k);
      var idx := available[roll(remaining) % |available|];
      assert idx in available;
      var next := Bump(list, idx, k);
      assert Fill(list, remaining, maxPair, k, roll) == Fill(next, remaining - k, maxPair, k, roll);
      FillRaises(next, remaining - k, maxPair, k, roll);
      Raised(list, next, Fill(next, remaining - k, maxPair, k, roll).value.0, idx, k, maxPair * k);
    } else {
      forall i | 0 <= i < |list| ensures Rem(list[i] - list[i], k) == 0 {
        assert list[i] - list[i] == 0;
      }
    }
  }

  /** A pair added to a count below `cap` before the rest of the growth keeps it growth. */
  lemma Raised(list: seq<int>, next: seq<int>, out: seq<int>, idx: int, k: int, cap: int)
    requires k >= 1 && |next| == |list| && 0 <= idx < |list| && list[idx] < cap
    requires next[idx] == list[idx] + k && forall i | 0 <= i < |list| && i != idx :: next[i] == list[i]
    requires Grown(next, out, k, cap)
    ensures Grown(list, out, k, cap)
  {
    forall i | 0 <= i < |list|
      ensures list[i] <= out[i] && Rem(out[i] - list[i], k) == 0 && (out[i] > list[i] ==> out[i] < cap + k)
    {
      if i == idx {
        RemShift(out[i] - next[i], 1, k);
      } else {
        assert next[i] == list[i];
      }
    }
  }

  /** `list[idx] += k`. */
  function Bump(list: seq<int>, idx: int, k: int): (r: seq<int>)
    requires 0 <= idx < |list|
    ensures |r| == |list| && r[idx] == list[idx] + k
    ensures forall i | 0 <= i < |list| && i != idx :: r[i] == list[i]
    ensures Total(r) == Total(list) + k
  {
    TotalUpdate(list, idx, list[idx] + k);
    list[idx := list[idx] + k]
  }

  /** Replacing one count changes the sum by the difference. */
  lemma {:induction false} TotalUpdate(s: seq<int>, i: int, v: int)
    requires 0 <= i < |s|
    ensures Total(s[i := v]) == Total(s) - s[i] + v
    decreases |s|
  {
    var t := s[i := v];
    assert t[..|t| - 1] == if i < |s| - 1 then s[..|s| - 1][i := v] else s[..|s| - 1];
    if i < |s| - 1 {
      TotalUpdate(s[..|s| - 1], i, v);
    }
  }

  /** The shuffled `colors` array: every colour number 1..n once, in any order. */
  predicate Shuffled(perm: seq<int>, n: int) {
    |perm| == (if n > 0 then n else 0) &&
    (forall i | 0 <= i < |perm| :: 1 <= perm[i] <= n) &&
    (forall i, j | 0 <= i < j < |perm| :: perm[i] != perm[j])
  }

  /** `AssignColorIndices`: the `i`-th count goes to the `i`-th shuffled colour number; more
      counts than colours index past the array. */
  function Assign(counts: seq<int>, n: int, perm: seq<int>): (r: Result<seq<(int, int)>>)
    requires Shuffled(perm, n)
    ensures r.Ok? <==> |counts| <= |perm|
    ensures r.Fail? ==> r.fault == IndexOutOfRange
    ensures r.Ok? ==> |r.value| == |counts|
    ensures r.Ok? ==> forall i | 0 <= i < |counts| :: r.value[i].1 == counts[i] && 1 <= r.value[i].0 <= n
    ensures r.Ok? ==> forall i, j | 0 <= i < j < |counts| :: r.value[i].0 != r.value[j].0
  {
    if |counts| > |perm| then Fail(IndexOutOfRange)
    else Ok(seq(|counts|, i requires 0 <= i < |counts| => (perm[i], counts[i])))
  }

  /** The counts of a dictionary, in entry order. */
  function Counts(d: seq<(int, int)>): (r: seq<int>)
    ensures |r| == |d| && forall i | 0 <= i < |d| :: r[i] == d[i].1
  {
    seq(|d|, i requires 0 <= i < |d| => d[i].1)
  }

  /** The tiles left for the colours without a special count. */
  function Rest(cfg: Config): int {
    cfg.total - Total(Specials(cfg))
  }

  /** The cap on the pairs of a colour that `Distribute` computes. */
  function Cap(cfg: Config): int
    requires cfg.k > 0 && cfg.colors - |Specials(cfg)| >= 1
  {
    MaxPair(Rest(cfg), cfg.colors - |Specials(cfg)|, cfg.k, cfg.normalMaxPair)
  }

  /** The mode's distribution after the special counts: the counts so far and the tiles
      left. */
  function Allot(cfg: Config, roll: nat -> nat): Result<(seq<int>, int)>
    requires cfg.k >= 1 && cfg.colors - |Specials(cfg)| >= 1
  {
    match cfg.mode
    case Random => Scatter(Specials(cfg), Rest(cfg), cfg.colors, Cap(cfg), cfg.k, roll)
    case Max => Ok(Most(Specials(cfg), Rest(cfg), cfg.colors, Cap(cfg), cfg.k))
    case Min => Ok(Least(Specials(cfg), Rest(cfg), cfg.colors, cfg.k))
  }

  /** `Distribute`: validation, the special counts, the mode's distribution, the top-up and
      the mapping onto colour numbers. `roll` draws for `DistributeRandom`, `fill` for
      `FillRemainingTiles`. */
  function Distribute(cfg: Config, roll: nat -> nat, fill: nat -> nat, perm: seq<int>): Result<seq<(int, int)>>
    requires Shuffled(perm, cfg.colors)
  {
    var _ :- Validate(cfg);
    var maxPair := Cap(cfg);
    var main :- Allot(cfg, roll);
    var filled :- Fill(main.0, main.1, maxPair, cfg.k, fill);
    Assign(filled.0, cfg.colors, perm)
  }
}
