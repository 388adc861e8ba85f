/** What `ColorDistributor.Distribute` promises: a valid configuration always yields a
    dictionary, whatever the random draws, whose keys are distinct colour numbers, whose counts
    are whole pairs that add up to the tile total, and in which every colour without a special
    count holds between one pair and the per-colour cap. */
module ColorDistributorProof {
  import opened Outcomes
  import opened SlotSimulator
  import opened ColorDistributor

  // ---------------------------------------------------------------- whole pairs

  /** A remainder of zero leaves exactly whole pairs. */
  lemma {:induction false} RemZero(n: nat, k: int)
    requires k >= 1 && Rem(n, k) == 0
    ensures n == Quot(n, k) * k
    decreases n
  {
    if n >= k {
      RemZero(n - k, k);
      assert Quot(n, k) == 1 + Quot(n - k, k);
      assert (1 + Quot(n - k, k)) * k == k + Quot(n - k, k) * k;
    }
  }

  /** A multiple of `k` is some number of pairs, with the sign of the count. */
  lemma Factor(n: int, k: int) returns (p: int)
    requires k >= 1 && Multiple(n, k)
    ensures n == p * k
  {
    if n >= 0 {
      RemZero(n, k);
      p := Quot(n, k);
    } else {
      RemZero(-n, k);
      p := -Quot(-n, k);
    }
  }

  /** Any number of pairs is a multiple of `k`. */
  lemma Product(p: int, k: int)
    requires k >= 1
    ensures Multiple(p * k, k)
  {
    if p >= 0 {
      RemShift(0, p, k);
    } else {
      assert -(p * k) == (-p) * k;
      RemShift(0, -p, k);
    }
  }

  /** Multiples of `k` are closed under sums and differences. */
  lemma Combine(a: int, b: int, k: int)
    requires k >= 1 && Multiple(a, k) && Multiple(b, k)
    ensures Multiple(a + b, k) && Multiple(a - b, k)
  {
    var p := Factor(a, k);
    var q := Factor(b, k);
    assert a + b == (p + q) * k && a - b == (p - q) * k;
    Product(p + q, k);
    Product(p - q, k);
  }

  /** Two distinct multiples of `k` lie at least `k` apart. */
  lemma Apart(a: int, b: int, k: int)
    requires k >= 1 && Multiple(a, k) && Multiple(b, k) && a < b
    ensures a + k <= b
  {
    var p := Factor(a, k);
    var q := Factor(b, k);
    if q < p + 1 {
      Scale(q, p, k);
    }
    Scale(p + 1, q, k);
    assert (p + 1) * k == p * k + k;
  }

  /** A multiple of `k` short of the next multiple after `c` is at most `c`. */
  lemma {:induction false} Capped(x: nat, c: nat, k: int)
    requires k >= 1 && Rem(x, k) == 0 && Rem(c, k) == 0 && x < c + k
    ensures x <= c
    decreases c
  {
    if x >= k && c >= k {
      Capped(x - k, c - k, k);
    }
  }

  /** Counts that are all whole pairs add up to whole pairs. */
  lemma {:induction false} TotalMultiple(s: seq<int>, k: int)
    requires k >= 1 && forall i | 0 <= i < |s| :: Multiple(s[i], k)
    ensures Multiple(Total(s), k)
    decreases |s|
  {
    if s == [] {
      assert Rem(0, k) == 0;
    } else {
      var front := s[..|s| - 1];
      assert forall i | 0 <= i < |front| :: front[i] == s[i];
      TotalMultiple(front, k);
      Combine(Total(front), s[|s| - 1], k);
    }
  }

  /** The sum of joined lists. */
  lemma {:induction false} TotalJoin(a: seq<int>, b: seq<int>)
    ensures Total(a + b) == Total(a) + Total(b)
    decreases |b|
  {
    if b != [] {
      var front := b[..|b| - 1];
      assert (a + b)[..|a + b| - 1] == a + front;
      assert (a + b)[|a + b| - 1] == b[|b| - 1];
      TotalJoin(a, front);
    } else {
      assert a + b == a;
    }
  }

  // ---------------------------------------------------------------- room below the cap

  /** The tiles the counts below `cap` can still take before reaching it. */
  function Slack(s: seq<int>, cap: int): int {
    if s == [] then 0
    else Slack(s[..|s| - 1], cap) + (if s[|s| - 1] < cap then cap - s[|s| - 1] else 0)
  }

  /** Room is never negative. */
  lemma {:induction false} SlackNonNegative(s: seq<int>, cap: int)
    ensures Slack(s, cap) >= 0
    decreases |s|
  {
    if s != [] {
      SlackNonNegative(s[..|s| - 1], cap);
    }
  }

  /** The room of joined lists. */
  lemma {:induction false} SlackJoin(a: seq<int>, b: seq<int>, cap: int)
    ensures Slack(a + b, cap) == Slack(a, cap) + Slack(b, cap)
    decreases |b|
  {
    if b != [] {
      var front := b[..|b| - 1];
      assert (a + b)[..|a + b| - 1] == a + front;
      assert (a + b)[|a + b| - 1] == b[|b| - 1];
      SlackJoin(a, front, cap);
    } else {
      assert a + b == a;
    }
  }

  /** Counts all within the cap leave the cap per count less their sum. */
  lemma {:induction false} SlackWithin(s: seq<int>, cap: int)
    requires forall i | 0 <= i < |s| :: s[i] <= cap
    ensures Slack(s, cap) == |s| * cap - Total(s)
    decreases |s|
  {
    if s != [] {
      var front := s[..|s| - 1];
      assert forall i | 0 <= i < |front| :: front[i] == s[i];
      SlackWithin(front, cap);
      assert |s| * cap == |front| * cap + cap;
    }
  }

  /** One pair added to a count at least a pair below the cap takes a pair of room. */
  lemma {:induction false} SlackBump(s: seq<int>, idx: int, k: int, cap: int)
    requires k >= 1 && 0 <= idx < |s| && s[idx] + k <= cap
    ensures Slack(Bump(s, idx, k), cap) == Slack(s, cap) - k
    decreases |s|
  {
    var t := Bump(s, idx, k);
    var front := s[..|s| - 1];
    if idx == |s| - 1 {
      assert t[..|t| - 1] == front;
      assert t[|t| - 1] == s[|s| - 1] + k;
    } else {
      assert t[..|t| - 1] == Bump(front, idx, k);
      assert t[|t| - 1] == s[|s| - 1];
      SlackBump(front, idx, k, cap);
    }
  }

  /** Some room means some count below the cap. */
  lemma {:induction false} SlackSome(s: seq<int>, cap: int) returns (i: int)
    requires Slack(s, cap) > 0
    ensures 0 <= i < |s| && s[i] < cap
    decreases |s|
  {
    if s[|s| - 1] < cap {
      i := |s| - 1;
    } else {
      var front := s[..|s| - 1];
      i := SlackSome(front, cap);
      assert front[i] == s[i];
    }
  }

  // ---------------------------------------------------------------- the top-up

  /** Every count is whole pairs. */
  predicate Whole(s: seq<int>, k: int)
    requires k >= 1
  {
    forall i | 0 <= i < |s| :: Multiple(s[i], k)
  }

  /** Counts of whole pairs with room for what is left: the top-up finishes with every tile
      placed, and its counts are still whole pairs. */
  lemma {:induction false} FillSound(list: seq<int>, remaining: int, maxPair: int, k: int, roll: nat -> nat)
    requires k >= 1 && remaining >= 0 && Multiple(remaining, k)
    requires Whole(list, k) && Slack(list, maxPair * k) >= remaining
    ensures Fill(list, remaining, maxPair, k, roll).Ok?
    ensures Fill(list, remaining, maxPair, k, roll).value.1 == 0
    ensures Whole(Fill(list, remaining, maxPair, k, roll).value.0, k)
    decreases remaining
  {
    if remaining > 0 {
      var next := FillStep(list, remaining, maxPair, k, roll);
      FillSound(next, remaining - k, maxPair, k, roll);
    }
  }

  /** One round of the top-up with room left: a pair goes to a count below the cap, and the
      counts stay whole pairs with room for the rest. */
  lemma FillStep(list: seq<int>, remaining: int, maxPair: int, k: int, roll: nat -> nat) returns (next: seq<int>)
    requires k >= 1 && remaining > 0 && Multiple(remaining, k)
    requires Whole(list, k) && Slack(list, maxPair * k) >= remaining
    ensures Fill(list, remaining, maxPair, k, roll) == Fill(next, remaining - k, maxPair, k, roll)
    ensures |next| == |list| && Whole(next, k)
    ensures remaining - k >= 0 && Multiple(remaining - k, k)
    ensures Slack(next, maxPair * k) >= remaining - k
  {
    var cap := maxPair * k;
    var idx := FillTurn(list, remaining, maxPair, k, roll);
    next := Bump(list, idx, k);
    Product(maxPair, k);
    Apart(list[idx], cap, k);
    SlackBump(list, idx, k, cap);
    PairLess(remaining, k);
    WholeBump(list, idx, k);
  }

  /** The count a round of the top-up raises: one below the cap, found because there is
      room. */
  lemma FillTurn(list: seq<int>, remaining: int, maxPair: int, k: int, roll: nat -> nat) returns (idx: int)
    requires k >= 1 && remaining > 0 && Slack(list, maxPair * k) > 0
    ensures 0 <= idx < |list| && list[idx] < maxPair * k
    ensures Fill(list, remaining, maxPair, k, roll) == Fill(Bump(list, idx, k), remaining - k, maxPair, k, roll)
  {
    var cap := maxPair * k;
    var some := SlackSome(list, cap);
    var available := Below(list, cap);
    assert some in available;
    idx := available[roll(remaining) % |available|];
    assert idx in available;
  }

  /** A positive count of whole pairs less one pair is whole pairs again. */
  lemma PairLess(remaining: int, k: int)
    requires k >= 1 && remaining > 0 && Multiple(remaining, k)
    ensures remaining - k >= 0 && Multiple(remaining - k, k)
  {
    OnePair(remaining, k);
    Product(1, k);
    Combine(remaining, k, k);
  }

  /** One more pair on one count keeps every count whole pairs. */
  lemma WholeBump(list: seq<int>, idx: int, k: int)
    requires k >= 1 && 0 <= idx < |list| && Whole(list, k)
    ensures Whole(Bump(list, idx, k), k)
  {
    var next := Bump(list, idx, k);
    Product(1, k);
    forall i | 0 <= i < |next| ensures Multiple(next[i], k) {
      if i == idx {
        Combine(list[i], k, k);
      } else {
        assert next[i] == list[i];
      }
    }
  }

  // ---------------------------------------------------------------- the modes

  /** The counts appended after `list`: each between one pair and the cap. */
  predicate Dealt(list: seq<int>, out: seq<int>, k: int, maxPair: int)
    requires k >= 1
  {
    |list| <= |out| && forall i | |list| <= i < |out| :: k <= out[i] && Pairs(out[i], k, maxPair)
  }

  /** One more dealt count before the rest. */
  lemma DealtCons(list: seq<int>, e: int, out: seq<int>, k: int, maxPair: int)
    requires k >= 1 && k <= e && Pairs(e, k, maxPair)
    requires Dealt(list + [e], out, k, maxPair) && out[..|list| + 1] == list + [e]
    ensures Dealt(list, out, k, maxPair)
  {
    assert out[|list|] == (list + [e])[|list|];
  }

  /** A turn that deals `e` before a result dealt from `list + [e]`: the same result is dealt
      from `list`. */
  lemma DealtThrough(list: seq<int>, e: int, r: Result<(seq<int>, int)>, whole: Result<(seq<int>, int)>, k: int, maxPair: int)
    requires k >= 1 && k <= e && Pairs(e, k, maxPair) && whole == r && r.Ok?
    requires Dealt(list + [e], r.value.0, k, maxPair) && r.value.0[..|list| + 1] == list + [e]
    requires r.value.1 >= 0 && Rem(r.value.1, k) == 0
    ensures whole.Ok? && Dealt(list, whole.value.0, k, maxPair)
    ensures whole.value.1 >= 0 && Rem(whole.value.1, k) == 0
  {
    DealtCons(list, e, r.value.0, k, maxPair);
  }

  /** A positive count of whole pairs is at least one pair. */
  lemma OnePair(remaining: int, k: int)
    requires k >= 1 && remaining > 0 && Rem(remaining, k) == 0
    ensures remaining >= k && Quot(remaining, k) >= 1
  {
  }

  /** The tiles of at most `pair` pairs taken from whole pairs left: at least one pair, within
      the cap, and leaving whole pairs. */
  lemma PortionFacts(remaining: int, pair: int, maxPair: int, k: int)
    requires k >= 1 && remaining > 0 && Rem(remaining, k) == 0 && 1 <= pair <= maxPair
    ensures var e := Portion(remaining, pair, k);
      k <= e && Pairs(e, k, maxPair) && remaining - e >= 0 && Rem(remaining - e, k) == 0
  {
    var q := Quot(remaining, k);
    OnePair(remaining, k);
    Take(remaining, if pair < q then pair else q, maxPair, k);
  }

  /** `DistributeMax` deals between one pair and the cap to each colour and leaves whole
      pairs. */
  lemma {:induction false} MostDeals(list: seq<int>, remaining: int, n: int, maxPair: int, k: int)
    requires k >= 1 && maxPair >= 1 && remaining >= 0 && Rem(remaining, k) == 0
    ensures var r := Most(list, remaining, n, maxPair, k);
      Dealt(list, r.0, k, maxPair) && r.1 >= 0 && Rem(r.1, k) == 0
    decreases n - |list|, 1
  {
    if remaining > 0 && |list| < n {
      MostDealsTurn(list, remaining, n, maxPair, k);
    } else {
      assert Most(list, remaining, n, maxPair, k) == (list, remaining);
    }
  }

  /** `MostDeals` when a turn deals: the count of this turn, then the rest by induction. */
  lemma {:induction false} MostDealsTurn(list: seq<int>, remaining: int, n: int, maxPair: int, k: int)
    requires k >= 1 && maxPair >= 1 && remaining > 0 && Rem(remaining, k) == 0 && |list| < n
    ensures var r := Most(list, remaining, n, maxPair, k);
      Dealt(list, r.0, k, maxPair) && r.1 >= 0 && Rem(r.1, k) == 0
    decreases n - |list|, 0
  {
    var e := MostStep(list, remaining, n, maxPair, k);
    PortionFacts(remaining, maxPair, maxPair, k);
    MostDeals(list + [e], remaining - e, n, maxPair, k);
    DealtThrough(list, e, Ok(Most(list + [e], remaining - e, n, maxPair, k)), Ok(Most(list, remaining, n, maxPair, k)), k, maxPair);
  }

  /** One turn of `DistributeMax`. */
  lemma MostStep(list: seq<int>, remaining: int, n: int, maxPair: int, k: int) returns (e: int)
    requires k >= 1 && remaining > 0 && |list| < n
    ensures e == Portion(remaining, maxPair, k)
    ensures Most(list, remaining, n, maxPair, k) == Most(list + [e], remaining - e, n, maxPair, k)
  {
    e := Portion(remaining, maxPair, k);
  }

  /** `DistributeRandom` with a cap of at least one pair deals between one pair and the cap
      to each colour and leaves whole pairs. */
  lemma {:induction false} ScatterDeals(list: seq<int>, remaining: int, n: int, maxPair: int, k: int, roll: nat -> nat)
    requires k >= 1 && maxPair >= 1 && remaining >= 0 && Rem(remaining, k) == 0
    ensures var r := Scatter(list, remaining, n, maxPair, k, roll);
      r.Ok? && Dealt(list, r.value.0, k, maxPair) && r.value.1 >= 0 && Rem(r.value.1, k) == 0
    decreases n - |list|, 1
  {
    if remaining > 0 && |list| < n {
      ScatterDealsTurn(list, remaining, n, maxPair, k, roll);
    } else {
      assert Scatter(list, remaining, n, maxPair, k, roll) == Ok((list, remaining));
    }
  }

  /** `ScatterDeals` when a turn deals: the count of this turn, then the rest by induction. */
  lemma {:induction false} ScatterDealsTurn(list: seq<int>, remaining: int, n: int, maxPair: int, k: int, roll: nat -> nat)
    requires k >= 1 && maxPair >= 1 && remaining > 0 && Rem(remaining, k) == 0 && |list| < n
    ensures var r := Scatter(list, remaining, n, maxPair, k, roll);
      r.Ok? && Dealt(list, r.value.0, k, maxPair) && r.value.1 >= 0 && Rem(r.value.1, k) == 0
    decreases n - |list|, 0
  {
    var drawn := Draw(maxPair, roll(|list|)).value;
    var e := ScatterStep(list, remaining, n, maxPair, k, roll);
    PortionFacts(remaining, drawn, maxPair, k);
    ScatterDeals(list + [e], remaining - e, n, maxPair, k, roll);
    DealtThrough(list, e, Scatter(list + [e], remaining - e, n, maxPair, k, roll), Scatter(list, remaining, n, maxPair, k, roll), k, maxPair);
  }

  /** One turn of `DistributeRandom` with a cap of at least one pair. */
  lemma ScatterStep(list: seq<int>, remaining: int, n: int, maxPair: int, k: int, roll: nat -> nat) returns (e: int)
    requires k >= 1 && maxPair >= 1 && remaining > 0 && |list| < n
    ensures e == Portion(remaining, Draw(maxPair, roll(|list|)).value, k)
    ensures Scatter(list, remaining, n, maxPair, k, roll) == Scatter(list + [e], remaining - e, n, maxPair, k, roll)
  {
    e := Portion(remaining, Draw(maxPair, roll(|list|)).value, k);
  }

  /** `DistributeMin` deals one pair to each colour and leaves whole pairs. */
  lemma LeastDeals(list: seq<int>, remaining: int, n: int, maxPair: int, k: int)
    requires k >= 1 && maxPair >= 1 && remaining >= 0 && Rem(remaining, k) == 0
    ensures var r := Least(list, remaining, n, k);
      Dealt(list, r.0, k, maxPair) && r.1 >= 0 && Rem(r.1, k) == 0
  {
    Product(1, k);
    Scale(1, maxPair, k);
  }

  // ---------------------------------------------------------------- the whole

  /** A valid configuration leaves at least one colour for the rest and whole pairs to
      share. */
  lemma Configured(cfg: Config)
    requires Validate(cfg).Ok?
    ensures cfg.colors - |Specials(cfg)| >= 1
    ensures Multiple(Rest(cfg), cfg.k)
    ensures Rest(cfg) > 0 ==> Cap(cfg) >= 1
  {
    TotalMultiple(Specials(cfg), cfg.k);
    Combine(cfg.total, Total(Specials(cfg)), cfg.k);
    if Rest(cfg) > 0 {
      OnePair(Rest(cfg), cfg.k);
    }
  }

  /** The counts the mode deals and the tiles it leaves for the top-up. */
  lemma Allotted(cfg: Config, roll: nat -> nat)
    requires Validate(cfg).Ok?
    ensures Allot(cfg, roll).Ok?
    ensures var a := Allot(cfg, roll).value;
      |Specials(cfg)| <= |a.0| <= cfg.colors && a.0[..|Specials(cfg)|] == Specials(cfg) &&
      Total(a.0) + a.1 == cfg.total && (a.1 > 0 ==> |a.0| == cfg.colors)
    ensures Rest(cfg) <= 0 ==> Allot(cfg, roll).value == (Specials(cfg), Rest(cfg))
    ensures Rest(cfg) > 0 ==> var a := Allot(cfg, roll).value;
      Dealt(Specials(cfg), a.0, cfg.k, Cap(cfg)) && a.1 >= 0 && Rem(a.1, cfg.k) == 0
  {
    Configured(cfg);
    if Rest(cfg) > 0 {
      var S, k, m := Specials(cfg), cfg.k, Cap(cfg);
      match cfg.mode
      case Random => ScatterDeals(S, Rest(cfg), cfg.colors, m, k, roll);
      case Max => MostDeals(S, Rest(cfg), cfg.colors, m, k);
      case Min => LeastDeals(S, Rest(cfg), cfg.colors, m, k);
    }
  }

  /** `(m * c) * k` regrouped. */
  lemma Regroup(m: int, c: int, k: int)
    ensures (m * c) * k == c * (m * k)
  {
  }

  /** A cap of `m` pairs for each of `colors` colours covers the whole pairs of `rest`. */
  lemma Covers(rest: int, m: int, colors: int, k: int)
    requires k >= 1 && rest > 0 && Rem(rest, k) == 0 && m * colors >= Quot(rest, k)
    ensures colors * (m * k) >= rest
  {
    RemZero(rest, k);
    Scale(Quot(rest, k), m * colors, k);
    Regroup(m, colors, k);
  }

  /** The dealt counts, each within the cap. */
  lemma DealtWithin(list: seq<int>, out: seq<int>, k: int, m: int) returns (dealt: seq<int>)
    requires k >= 1 && Dealt(list, out, k, m)
    ensures dealt == out[|list|..] && |dealt| == |out| - |list|
    ensures forall i | 0 <= i < |dealt| :: dealt[i] <= m * k
  {
    dealt := out[|list|..];
    forall i | 0 <= i < |dealt| ensures dealt[i] <= m * k {
      assert dealt[i] == out[|list| + i];
    }
  }

  /** When tiles are left after the mode, the colours without a special count have room for
      them under the cap. */
  lemma Room(cfg: Config, roll: nat -> nat)
    requires Validate(cfg).Ok? && Rest(cfg) > 0
    ensures Allot(cfg, roll).Ok?
    ensures var a := Allot(cfg, roll).value; Slack(a.0, Cap(cfg) * cfg.k) >= a.1
  {
    Configured(cfg);
    Allotted(cfg, roll);
    var S := Specials(cfg);
    var a := Allot(cfg, roll).value;
    Spare(S, a.0, a.1, Rest(cfg), Cap(cfg), cfg.colors - |S|, cfg.k);
  }

  /** Specials followed by dealt counts within a cap of `m` pairs, `colors` of them when tiles
      are left, with `m` pairs per colour covering the rest: room for what is left. */
  lemma Spare(specials: seq<int>, list: seq<int>, left: int, rest: int, m: int, colors: int, k: int)
    requires k >= 1 && Dealt(specials, list, k, m) && list[..|specials|] == specials
    requires left > 0 ==> |list| == |specials| + colors
    requires Total(list) + left == Total(specials) + rest
    requires rest > 0 && Rem(rest, k) == 0 && m * colors >= Quot(rest, k)
    ensures Slack(list, m * k) >= left
  {
    var cap := m * k;
    var dealt := DealtWithin(specials, list, k, m);
    assert list == specials + dealt;
    SlackJoin(specials, dealt, cap);
    SlackNonNegative(specials, cap);
    if left > 0 {
      SlackWithin(dealt, cap);
      TotalJoin(specials, dealt);
      Covers(rest, m, colors, k);
    } else {
      SlackNonNegative(dealt, cap);
    }
  }

  /** The counts from position `from` on lie between `lo` and `hi`. */
  predicate Ranged(from: int, out: seq<int>, lo: int, hi: int) {
    forall i | 0 <= from <= i < |out| :: lo <= out[i] <= hi
  }

  /** The special counts are kept or raised to at most `cap`. */
  predicate Kept(specials: seq<int>, out: seq<int>, cap: int) {
    |specials| <= |out| && forall i | 0 <= i < |specials| :: specials[i] <= out[i] && (out[i] > specials[i] ==> out[i] <= cap)
  }

  /** The counts after the top-up: whole pairs, adding up to the tile total or to the special
      counts when those alone exceed it, the dealt colours between one pair and the cap, the
      special counts kept or raised to at most the cap. */
  predicate Topped(cfg: Config, a: (seq<int>, int), out: seq<int>)
    requires cfg.k >= 1 && cfg.colors - |Specials(cfg)| >= 1
  {
    var S, k, cap := Specials(cfg), cfg.k, Cap(cfg) * cfg.k;
    |S| <= |a.0| && |out| == |a.0| && Whole(out, k) &&
    Total(out) == (if Rest(cfg) >= 0 then cfg.total else Total(S)) &&
    Ranged(|S|, out, k, cap) && Kept(S, out, cap)
  }

  /** No tiles left for the rest: nothing is dealt or topped up. */
  lemma FilledShort(cfg: Config, roll: nat -> nat, fill: nat -> nat)
    requires Validate(cfg).Ok? && Rest(cfg) <= 0
    ensures Allot(cfg, roll).Ok?
    ensures var a := Allot(cfg, roll).value;
      Fill(a.0, a.1, Cap(cfg), cfg.k, fill).Ok? && Topped(cfg, a, Fill(a.0, a.1, Cap(cfg), cfg.k, fill).value.0)
  {
    Configured(cfg);
    Allotted(cfg, roll);
    var a := Allot(cfg, roll).value;
    assert Fill(a.0, a.1, Cap(cfg), cfg.k, fill) == Ok(a);
  }

  /** The specials followed by dealt counts are all whole pairs. */
  lemma DealtWhole(specials: seq<int>, list: seq<int>, k: int, m: int)
    requires k >= 1 && Whole(specials, k) && Dealt(specials, list, k, m) && list[..|specials|] == specials
    ensures Whole(list, k)
  {
    forall i | 0 <= i < |list| ensures Multiple(list[i], k) {
      if i < |specials| {
        assert list[i] == list[..|specials|][i];
      }
    }
  }

  /** Growth by whole pairs below the cap keeps the dealt counts in range and the special
      counts kept. */
  lemma GrownWithin(specials: seq<int>, list: seq<int>, out: seq<int>, k: int, m: int)
    requires k >= 1 && m >= 1 && Dealt(specials, list, k, m) && list[..|specials|] == specials
    requires Whole(out, k) && Grown(list, out, k, m * k)
    ensures Ranged(|specials|, out, k, m * k) && Kept(specials, out, m * k)
  {
    var cap := m * k;
    Product(m, k);
    Scale(1, m, k);
    forall i | 0 <= i < |list| ensures list[i] <= out[i] && (out[i] > list[i] ==> out[i] <= cap) {
      if out[i] > list[i] && out[i] >= 0 {
        Capped(out[i], cap, k);
      }
    }
    forall i | 0 <= i < |specials| ensures list[i] == specials[i] {
      assert list[i] == list[..|specials|][i];
    }
  }

  /** Tiles left for the rest: the mode deals them and the top-up places what it leaves. */
  lemma FilledFull(cfg: Config, roll: nat -> nat, fill: nat -> nat)
    requires Validate(cfg).Ok? && Rest(cfg) > 0
    ensures Allot(cfg, roll).Ok?
    ensures var a := Allot(cfg, roll).value;
      Fill(a.0, a.1, Cap(cfg), cfg.k, fill).Ok? && Topped(cfg, a, Fill(a.0, a.1, Cap(cfg), cfg.k, fill).value.0)
  {
    Configured(cfg);
    Allotted(cfg, roll);
    Room(cfg, roll);
    var S, k, m := Specials(cfg), cfg.k, Cap(cfg);
    var a := Allot(cfg, roll).value;
    assert Whole(S, k);
    DealtWhole(S, a.0, k, m);
    FillSound(a.0, a.1, m, k, fill);
    FillRaises(a.0, a.1, m, k, fill);
    GrownWithin(S, a.0, Fill(a.0, a.1, m, k, fill).value.0, k, m);
  }

  /** The dictionary `Distribute` returns for a valid configuration, whatever the draws and
      the shuffle: one entry per count, each a distinct colour number in 1..`colors`; every
      count whole pairs; the counts adding up to the tile total, or to the special counts when
      those alone exceed it; each colour after the special ones holding between one pair and
      the cap of `ComputeMaxPairPerColor` pairs, and each special count kept or raised to at
      most that cap. */
  lemma DistributeSound(cfg: Config, roll: nat -> nat, fill: nat -> nat, perm: seq<int>)
    requires Shuffled(perm, cfg.colors) && Validate(cfg).Ok?
    ensures Distribute(cfg, roll, fill, perm).Ok?
    ensures var d := Distribute(cfg, roll, fill, perm).value;
      |Specials(cfg)| <= |d| <= cfg.colors &&
      (forall i | 0 <= i < |d| :: 1 <= d[i].0 <= cfg.colors) &&
      (forall i, j | 0 <= i < j < |d| :: d[i].0 != d[j].0)
    ensures var d := Distribute(cfg, roll, fill, perm).value;
      Topped(cfg, Allot(cfg, roll).value, Counts(d))
  {
    if Rest(cfg) > 0 {
      FilledFull(cfg, roll, fill);
    } else {
      FilledShort(cfg, roll, fill);
    }
    Configured(cfg);
    var a := Allot(cfg, roll).value;
    var out := Fill(a.0, a.1, Cap(cfg), cfg.k, fill).value.0;
    Allotted(cfg, roll);
    DistributeIs(cfg, roll, fill, perm);
    assert Counts(Assign(out, cfg.colors, perm).value) == out;
  }

  /** With every stage succeeding, `Distribute` is the mapping of the topped-up counts. */
  lemma DistributeIs(cfg: Config, roll: nat -> nat, fill: nat -> nat, perm: seq<int>)
    requires Shuffled(perm, cfg.colors) && Validate(cfg).Ok?
    requires cfg.colors - |Specials(cfg)| >= 1 && Allot(cfg, roll).Ok?
    requires var a := Allot(cfg, roll).value; Fill(a.0, a.1, Cap(cfg), cfg.k, fill).Ok?
    ensures var a := Allot(cfg, roll).value;
      Distribute(cfg, roll, fill, perm) == Assign(Fill(a.0, a.1, Cap(cfg), cfg.k, fill).value.0, cfg.colors, perm)
  {
  }

  /** `Distribute` fails exactly on the configurations `ValidateConfig` rejects, with its
      argument fault. */
  lemma DistributeFaults(cfg: Config, roll: nat -> nat, fill: nat -> nat, perm: seq<int>)
    requires Shuffled(perm, cfg.colors)
    ensures Distribute(cfg, roll, fill, perm).Ok? <==> Validate(cfg).Ok?
    ensures Distribute(cfg, roll, fill, perm).Fail? ==> Distribute(cfg, roll, fill, perm).fault == Argument
  {
    if Validate(cfg).Ok? {
      DistributeSound(cfg, roll, fill, perm);
    }
  }
}
