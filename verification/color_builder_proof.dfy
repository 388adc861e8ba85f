/** Why `ColorBuilder.BuildCore` succeeds on every valid input whatever the preference policy
    picks, and why each colour then occurs exactly its count times: every open slot holds what
    its colour has emitted modulo `k`, so an open colour always has tiles left, the number of
    open colours or the slot use stays below the policy's line, and so neither the deadlock
    nor the empty candidate set is reachable. */
module ColorBuilderProof {
  import opened Outcomes
  import opened Texts
  import opened SlotSimulator
  import opened SequenceBuilder
  import opened Dictionaries
  import opened ColorBuilder
  import SequenceBuilderProof

  // ---------------------------------------------------------------- remainders

  /** Adding `j` to a count whose remainder stays within `k` adds `j` to the remainder, which
      wraps to 0 on reaching `k`. */
  lemma {:induction false} RemStep(n: nat, j: nat, k: int)
    requires k >= 1 && Rem(n, k) + j <= k
    ensures Rem(n + j, k) == if Rem(n, k) + j == k then 0 else Rem(n, k) + j
    decreases n
  {
    if n >= k {
      RemStep(n - k, j, k);
    } else if n + j == k {
      assert Rem(n + j, k) == Rem(0, k);
    }
  }

  /** A count below a multiple of `k` is short of it by at least what completes its
      remainder. */
  lemma {:induction false} Gap(a: nat, t: nat, k: int)
    requires k >= 1 && Rem(t, k) == 0 && a < t
    ensures t - a >= k - Rem(a, k)
    decreases a
  {
    if a >= k {
      Gap(a - k, t - k, k);
    }
  }

  // ---------------------------------------------------------------- the emitted string

  /** `count` copies of `c` hold `c` `count` times and nothing else. */
  lemma {:induction false} CopiesCount(c: Unit, count: int, x: Unit)
    ensures Count(Copies(c, count), x) == if x == c && count > 0 then count else 0
    decreases if count > 0 then count else 0
  {
    if count > 0 {
      CopiesCount(c, count - 1, x);
      assert Copies(c, count) == Copies(c, count - 1) + [c];
    }
  }

  // ---------------------------------------------------------------- dictionaries

  /** Every entry of a dictionary whose keys read above 0 and below `b` lies in that range. */
  lemma EntriesWithin(d: seq<Entry>, lo: int, hi: int)
    requires Unique(d) && forall x | Has(d, x) :: lo <= Value(d, x) <= hi
    ensures forall i | 0 <= i < |d| :: lo <= d[i].1 <= hi
  {
    forall i | 0 <= i < |d| ensures lo <= d[i].1 <= hi {
      ValueAt(d, i);
    }
  }

  /** A present key reads the value of one of its entries. */
  lemma {:induction false} HasEntry(d: seq<Entry>, x: Unit) returns (i: int)
    requires Has(d, x)
    ensures 0 <= i < |d| && d[i].0 == x && Value(d, x) == d[i].1
    decreases |d|
  {
    if d[0].0 == x {
      i := 0;
    } else {
      var j := HasEntry(d[1..], x);
      i := j + 1;
    }
  }

  /** Only keys of the entries survive the filter. */
  lemma {:induction false} HasPositive(d: seq<Entry>, x: Unit)
    ensures Has(Positive(d), x) ==> Has(d, x)
    decreases |d|
  {
    if d != [] {
      HasPositive(d[1..], x);
      if d[0].1 <= 0 {
        assert Positive(d) == Positive(d[1..]);
      }
    }
  }

  /** Filtering keeps the keys distinct and each key's value when it is positive. */
  lemma {:induction false} ValuePositive(d: seq<Entry>, x: Unit)
    requires Unique(d)
    ensures Unique(Positive(d))
    ensures Value(Positive(d), x) == if Value(d, x) > 0 then Value(d, x) else 0
    decreases |d|
  {
    if d != [] {
      var rest := d[1..];
      ValuePositive(rest, x);
      HasPositive(rest, d[0].0);
      if d[0].1 <= 0 {
        assert Positive(d) == Positive(rest);
      }
      if d[0].0 == x {
        ValueMissing(rest, x);
      }
    }
  }

  /** Dropping entries of count 0 keeps the total. */
  lemma {:induction false} SumPositiveKeeps(d: seq<Entry>)
    requires forall i | 0 <= i < |d| :: d[i].1 >= 0
    ensures Sum(Positive(d)) == Sum(d)
    decreases |d|
  {
    if d != [] {
      assert forall i | 0 <= i < |d[1..]| :: d[1..][i].1 >= 0 by {
        forall i | 0 <= i < |d[1..]| ensures d[1..][i].1 >= 0 {
          assert d[1..][i] == d[i + 1];
        }
      }
      SumPositiveKeeps(d[1..]);
      if d[0].1 <= 0 {
        assert Positive(d) == Positive(d[1..]);
      }
    }
  }

  /** Entries that are all positive pass the filter unchanged. */
  lemma {:induction false} PositiveAll(d: seq<Entry>)
    requires forall i | 0 <= i < |d| :: d[i].1 > 0
    ensures Positive(d) == d
    decreases |d|
  {
    if d != [] {
      assert forall i | 0 <= i < |d[1..]| :: d[1..][i].1 > 0 by {
        forall i | 0 <= i < |d[1..]| ensures d[1..][i].1 > 0 {
          assert d[1..][i] == d[i + 1];
        }
      }
      PositiveAll(d[1..]);
    }
  }

  // ---------------------------------------------------------------- the invariant

  /** The colour counts to reach: distinct colours, each a non-negative multiple of `k`. */
  ghost predicate Goal(T: seq<Entry>, k: int)
    requires k >= 1
  {
    Unique(T) && forall x :: Value(T, x) >= 0 && Rem(Value(T, x), k) == 0
  }

  /** The policy's line: no more open colours than `maxConcurrentTypes`, or no more slot use
      than the danger line. */
  ghost predicate Bound(mode: SlotMode, capacity: int, k: int, st: State)
    requires k >= 2
  {
    match mode
    case MaxConcurrent => |st.slots| <= MaxOpen(capacity, k)
    case DangerLine => st.used <= Danger(capacity, k)
  }

  /** What every loop iteration keeps: the remaining counts are positive and complete the
      emitted ones to the goal, each open slot holds its colour's emitted count modulo `k`,
      `left` and `used` are the dictionaries' totals, and the policy's line holds. */
  ghost predicate Inv(mode: SlotMode, capacity: int, k: int, T: seq<Entry>, st: State) {
    && k >= 2 && capacity >= k
    && Unique(st.remaining) && Open(st.slots, k)
    && (forall x | Has(st.remaining, x) :: Value(st.remaining, x) > 0)
    && (forall x | Has(st.slots, x) :: Value(st.slots, x) > 0)
    && (forall x :: Count(st.result, x) + Value(st.remaining, x) == Value(T, x))
    && (forall x :: Value(st.slots, x) == Rem(Count(st.result, x), k))
    && st.left == Sum(st.remaining) && st.used == Sum(st.slots)
    && |st.result| + st.left == Sum(T)
    && Bound(mode, capacity, k, st)
  }

  /** The policy's line leaves room: at least one colour may be open, and a full line of open
      colours stays below the capacity. */
  lemma Lines(capacity: int, k: int)
    requires k >= 2 && capacity >= k
    ensures MaxOpen(capacity, k) >= 1 && MaxOpen(capacity, k) * (k - 1) <= capacity - 1
    ensures 1 <= Danger(capacity, k) < capacity
  {
    SequenceBuilderProof.MaxActive(capacity - 1, k - 1);
  }

  /** While tiles are left, the policy offers a candidate, and a colour it offers has tiles
      left: a new colour only while one may be opened, an open one otherwise. */
  lemma Offered(mode: SlotMode, capacity: int, k: int, T: seq<Entry>, st: State, i: int)
    requires Inv(mode, capacity, k, T, st) && Goal(T, k) && st.left > 0
    requires 0 <= i < |Candidates(mode, st, capacity, k)|
    ensures var c := Candidates(mode, st, capacity, k)[i];
      && Has(st.remaining, c)
      && (!MayOpen(mode, st, capacity, k) ==> Has(st.slots, c))
  {
    var cands := Candidates(mode, st, capacity, k);
    var c := cands[i];
    if MayOpen(mode, st, capacity, k) {
      HasMeans(st.remaining, c);
    } else {
      HasMeans(st.slots, c);
      OpenRemains(mode, capacity, k, T, st, c);
    }
  }

  /** Some candidate exists while tiles are left. */
  lemma SomeCandidate(mode: SlotMode, capacity: int, k: int, T: seq<Entry>, st: State)
    requires Inv(mode, capacity, k, T, st) && st.left > 0
    ensures Candidates(mode, st, capacity, k) != []
  {
    Lines(capacity, k);
    assert st.remaining != [];
    if !MayOpen(mode, st, capacity, k) {
      assert st.slots != [] by {
        if mode.MaxConcurrent? {
          assert |st.slots| >= 1;
        } else {
          assert st.used >= 1;
        }
      }
    }
  }

  /** An open colour has tiles left: its emitted count is not a multiple of `k`, its goal is. */
  lemma OpenRemains(mode: SlotMode, capacity: int, k: int, T: seq<Entry>, st: State, c: Unit)
    requires Inv(mode, capacity, k, T, st) && Goal(T, k) && Has(st.slots, c)
    ensures Has(st.remaining, c)
    ensures k - Value(st.slots, c) <= Value(st.remaining, c)
  {
    var a, t := Count(st.result, c), Value(T, c);
    assert Rem(a, k) > 0 && Rem(t, k) == 0;
    ValuePresent(st.remaining, c);
    Gap(a, t, k);
  }

  // ---------------------------------------------------------------- one emission

  /** The required count fits: at least one tile, no more than the colour has left, and no
      more than its slot has room for. */
  lemma CountFits(mode: SlotMode, capacity: int, k: int, T: seq<Entry>, st: State, c: Unit)
    requires Inv(mode, capacity, k, T, st) && Goal(T, k) && Has(st.remaining, c)
    ensures var count := RequireCount(mode, c, st.slots, k);
      && 1 <= count <= Value(st.remaining, c)
      && Value(st.slots, c) + count <= k
      && (mode.DangerLine? && Has(st.slots, c) ==> Value(st.slots, c) + count == k)
  {
    if Has(st.slots, c) {
      OpenRemains(mode, capacity, k, T, st, c);
    } else {
      ValueMissing(st.slots, c);
    }
  }

  /** What an emission does to `remaining`: the colour loses `count` tiles, its entry goes when
      none are left, and `left` follows the total. */
  lemma RemainingShape(st: State, c: Unit, count: int, k: int)
    requires Unique(st.remaining) && Has(st.remaining, c) && count <= Value(st.remaining, c)
    ensures Unique(Emitted(st, c, count, k).remaining)
    ensures Sum(Emitted(st, c, count, k).remaining) == Sum(st.remaining) - count
  {
    var r := Value(st.remaining, c) - count;
    if r == 0 {
      DropShape(st.remaining, c);
    } else {
      PutShape(st.remaining, c, r);
      SumPut(st.remaining, c, r);
    }
  }

  /** ... key by key. */
  lemma RemainingAt(st: State, c: Unit, count: int, k: int, x: Unit)
    requires Unique(st.remaining) && Has(st.remaining, c) && count <= Value(st.remaining, c)
    ensures var d := Emitted(st, c, count, k).remaining;
      && Value(d, x) == Value(st.remaining, x) - (if x == c then count else 0)
      && (Has(d, x) ==> Has(st.remaining, x) && (x == c ==> Value(d, x) != 0))
  {
    var r := Value(st.remaining, c) - count;
    if r == 0 {
      DropMeans(st.remaining, c, x);
    } else {
      HasPut(st.remaining, c, r, x);
      ValuePut(st.remaining, c, r, x);
    }
  }

  /** What an emission does to the slots: the colour's slot grows by `count` and clears at
      `k`, taking `k` off `used`, and the number of open colours grows by at most one. */
  lemma SlotsShape(st: State, c: Unit, count: int, k: int)
    requires Unique(st.slots) && st.used == Sum(st.slots)
    ensures var st' := Emitted(st, c, count, k);
      && Unique(st'.slots) && st'.used == Sum(st'.slots)
      && |st'.slots| <= |st.slots| + (if Has(st.slots, c) then 0 else 1)
  {
    var slot := Value(st.slots, c) + count;
    var slots := Put(st.slots, c, slot);
    PutShape(st.slots, c, slot);
    SumPut(st.slots, c, slot);
    if slot == k {
      DropShape(slots, c);
      ValuePut(st.slots, c, slot, c);
    }
  }

  /** ... key by key. */
  lemma SlotsAt(st: State, c: Unit, count: int, k: int, x: Unit)
    requires Unique(st.slots)
    ensures var slot := Value(st.slots, c) + count; var d := Emitted(st, c, count, k).slots;
      && Value(d, x) == (if x != c then Value(st.slots, x) else if slot == k then 0 else slot)
      && (Has(d, x) <==> if x != c then Has(st.slots, x) else slot != k)
  {
    var slot := Value(st.slots, c) + count;
    var slots := Put(st.slots, c, slot);
    PutShape(st.slots, c, slot);
    HasPut(st.slots, c, slot, x);
    ValuePut(st.slots, c, slot, x);
    if slot == k {
      DropMeans(slots, c, x);
    }
  }

  /** What an emission appends: `count` tiles of the colour. */
  lemma ResultAt(st: State, c: Unit, count: int, k: int, x: Unit)
    requires count >= 1
    ensures Count(Emitted(st, c, count, k).result, x) == Count(st.result, x) + (if x == c then count else 0)
    ensures |Emitted(st, c, count, k).result| == |st.result| + count
  {
    CopiesCount(c, count, x);
  }

  /** An emission of an offered colour keeps the policy's line and so stays below the
      capacity: the deadlock is unreachable. */
  lemma BoundKept(mode: SlotMode, capacity: int, k: int, T: seq<Entry>, st: State, c: Unit)
    requires Inv(mode, capacity, k, T, st) && Goal(T, k) && Has(st.remaining, c)
    requires !MayOpen(mode, st, capacity, k) ==> Has(st.slots, c)
    ensures var st' := Emitted(st, c, RequireCount(mode, c, st.slots, k), k);
      Bound(mode, capacity, k, st') && st'.used < capacity
  {
    var count := RequireCount(mode, c, st.slots, k);
    var st' := Emitted(st, c, count, k);
    CountFits(mode, capacity, k, T, st, c);
    SlotsShape(st, c, count, k);
    Lines(capacity, k);
    if !Has(st.slots, c) {
      ValueMissing(st.slots, c);
    }
    if mode.MaxConcurrent? {
      forall x | Has(st'.slots, x) ensures 1 <= Value(st'.slots, x) <= k - 1 {
        SlotsAt(st, c, count, k, x);
      }
      EntriesWithin(st'.slots, 1, k - 1);
      SumAtMost(st'.slots, k - 1);
      SequenceBuilderProof.MulMono(|st'.slots|, MaxOpen(capacity, k), k - 1);
    }
  }

  /** One iteration: the candidate picked has its emission succeed, and the invariant holds
      afterwards. */
  lemma EmitKeeps(mode: SlotMode, capacity: int, k: int, T: seq<Entry>, st: State, c: Unit)
    requires Inv(mode, capacity, k, T, st) && Goal(T, k) && Has(st.remaining, c)
    requires !MayOpen(mode, st, capacity, k) ==> Has(st.slots, c)
    ensures var count := RequireCount(mode, c, st.slots, k);
      && ColorBuilder.Emit(st, c, count, capacity, k) == Ok(Emitted(st, c, count, k))
      && Inv(mode, capacity, k, T, Emitted(st, c, count, k))
  {
    var count := RequireCount(mode, c, st.slots, k);
    var st' := Emitted(st, c, count, k);
    CountFits(mode, capacity, k, T, st, c);
    BoundKept(mode, capacity, k, T, st, c);
    EmitOpen(mode, st, c, k, capacity);
    RemainingShape(st, c, count, k);
    SlotsShape(st, c, count, k);
    RemStep(Count(st.result, c), count, k);
    ResultAt(st, c, count, k, c);
    forall x ensures
      && (Has(st'.remaining, x) ==> Value(st'.remaining, x) > 0)
      && (Has(st'.slots, x) ==> Value(st'.slots, x) > 0)
      && Count(st'.result, x) + Value(st'.remaining, x) == Value(T, x)
      && Value(st'.slots, x) == Rem(Count(st'.result, x), k)
    {
      RemainingAt(st, c, count, k, x);
      SlotsAt(st, c, count, k, x);
      ResultAt(st, c, count, k, x);
    }
  }

  // ---------------------------------------------------------------- the loop

  /** From a state that keeps the invariant, the loop finishes without a fault, each colour
      occurring its goal count times. */
  lemma {:induction false} RunSound(mode: SlotMode, capacity: int, k: int, T: seq<Entry>, st: State, pick: nat -> nat)
    requires Inv(mode, capacity, k, T, st) && Goal(T, k)
    ensures ColorBuilder.Run(mode, capacity, k, st, pick).Ok?
    ensures forall x :: Count(ColorBuilder.Run(mode, capacity, k, st, pick).value, x) == Value(T, x)
    ensures |ColorBuilder.Run(mode, capacity, k, st, pick).value| == Sum(T)
    decreases if st.left > 0 then st.left else 0
  {
    if st.left <= 0 {
      forall i | 0 <= i < |st.remaining| ensures st.remaining[i].1 > 0 {
        ValueAt(st.remaining, i);
      }
      SumPositive(st.remaining);
      assert st.remaining == [];
    } else {
      SomeCandidate(mode, capacity, k, T, st);
      var cands := Candidates(mode, st, capacity, k);
      var i := pick(|st.result|) % |cands|;
      var c := cands[i];
      Offered(mode, capacity, k, T, st, i);
      EmitKeeps(mode, capacity, k, T, st, c);
      EmitOpen(mode, st, c, k, capacity);
      var st' := Emitted(st, c, RequireCount(mode, c, st.slots, k), k);
      RunSound(mode, capacity, k, T, st', pick);
      assert ColorBuilder.Run(mode, capacity, k, st, pick) == ColorBuilder.Run(mode, capacity, k, st', pick);
    }
  }

  /** The goal of valid entries: each colour's count, the colours of no tiles left out. */
  lemma GoalOf(es: seq<Entry>, k: int)
    requires k >= 2 && Unique(es) && forall i | 0 <= i < |es| :: SequenceBuilder.Valid(es[i], k)
    ensures Goal(Positive(es), k)
    ensures forall x :: Value(Positive(es), x) == if Value(es, x) > 0 then Value(es, x) else 0
  {
    ValuePositive(es, 0);
    forall x ensures Value(Positive(es), x) == (if Value(es, x) > 0 then Value(es, x) else 0)
      && Value(Positive(es), x) >= 0 && Rem(Value(Positive(es), x), k) == 0
    {
      ValuePositive(es, x);
      if Value(es, x) > 0 {
        ValuePresent(es, x);
        var i := HasEntry(es, x);
        assert SequenceBuilder.Valid(es[i], k);
      }
    }
  }

  /** The builder's first state keeps the invariant. */
  lemma Start(mode: SlotMode, capacity: int, k: int, T: seq<Entry>, es: seq<Entry>)
    requires k >= 2 && capacity >= k && T == Positive(es) && Unique(T)
    ensures Inv(mode, capacity, k, T, State(T, [], 0, Sum(T), []))
  {
    Lines(capacity, k);
    forall x | Has(T, x) ensures Value(T, x) > 0 {
      var i := HasEntry(T, x);
      assert T[i] in Positive(es);
    }
  }

  /** On a dictionary of counts that are non-negative multiples of `k`, with `k >= 2` and
      `capacity >= k`, `BuildCore` succeeds under either policy, whatever it picks, and each
      colour occurs exactly its count times: the output holds the listed colours only and is
      as long as the counts' total. */
  lemma BuildCoreSound(es: seq<Entry>, capacity: int, k: int, mode: SlotMode, pick: nat -> nat)
    requires DistinctKeys(es) && k >= 2 && capacity >= k
    requires forall i | 0 <= i < |es| :: SequenceBuilder.Valid(es[i], k)
    ensures BuildCore(es, capacity, k, mode, pick).Ok?
    ensures forall i | 0 <= i < |es| :: Count(BuildCore(es, capacity, k, mode, pick).value, es[i].0) == es[i].1
    ensures forall x :: Count(BuildCore(es, capacity, k, mode, pick).value, x) > 0 ==> x in Keys(es)
    ensures |BuildCore(es, capacity, k, mode, pick).value| == Dictionaries.Sum(es)
  {
    DistinctUnique(es);
    var T := Positive(es);
    GoalOf(es, k);
    Start(mode, capacity, k, T, es);
    RunSound(mode, capacity, k, T, State(T, [], 0, Sum(T), []), pick);
    var r := BuildCore(es, capacity, k, mode, pick).value;
    forall i | 0 <= i < |es| ensures Count(r, es[i].0) == es[i].1 {
      ValueAt(es, i);
    }
    forall x | Count(r, x) > 0 ensures x in Keys(es) {
      ValuePresent(es, x);
      HasMeans(es, x);
    }
    SumPositiveKeeps(es);
  }

  /** `BuildCore` fails exactly on the rejections its validation makes, and each one is an
      argument fault. */
  lemma BuildCoreFaults(es: seq<Entry>, capacity: int, k: int, mode: SlotMode, pick: nat -> nat)
    requires DistinctKeys(es)
    ensures BuildCore(es, capacity, k, mode, pick).Ok? <==>
      k >= 2 && capacity >= k && forall i | 0 <= i < |es| :: SequenceBuilder.Valid(es[i], k)
    ensures BuildCore(es, capacity, k, mode, pick).Fail? ==> BuildCore(es, capacity, k, mode, pick).fault == Argument
  {
    if k >= 2 && capacity >= k && forall i | 0 <= i < |es| :: SequenceBuilder.Valid(es[i], k) {
      BuildCoreSound(es, capacity, k, mode, pick);
    }
  }

  /** On positive counts the validation and the run of the source are those of the corrected
      builder. */
  lemma AsWrittenAgrees(es: seq<Entry>, capacity: int, k: int, mode: SlotMode, pick: nat -> nat)
    requires forall i | 0 <= i < |es| :: es[i].1 > 0
    ensures BuildCoreAsWritten(es, capacity, k, mode, pick) == BuildCore(es, capacity, k, mode, pick)
  {
    PositiveAll(es);
    if k >= 2 {
      assert forall i | 0 <= i < |es| :: Multiple(es[i].1, k) == SequenceBuilder.Valid(es[i], k);
    }
  }

  /** The source's builder emits a colour listed with no tiles: with `a` at 0 and `b` at 3 it
      opens `a` and, having no room for a second open colour, completes it with tiles the
      dictionary never had. */
  lemma ZeroCountEmitted()
    ensures BuildCoreAsWritten([(97, 0), (98, 3)], 3, 3, MaxConcurrent, _ => 0) == Ok([97, 97, 97])
  {
    var pick: nat -> nat := _ => 0;
    var st0 := State([(97, 0), (98, 3)], [], 0, 3, []);
    var st1 := State([(97, -1), (98, 3)], [(97, 1)], 1, 2, [97]);
    var st2 := State([(97, -2), (98, 3)], [(97, 2)], 2, 1, [97, 97]);
    var st3 := State([(97, -3), (98, 3)], [], 0, 0, [97, 97, 97]);
    assert Sum([(97, 0), (98, 3)]) == 3;
    FirstEmission();
    RunStep(MaxConcurrent, 3, 3, st0, pick, 97);
    SecondEmission();
    RunStep(MaxConcurrent, 3, 3, st1, pick, 97);
    ThirdEmission();
    RunStep(MaxConcurrent, 3, 3, st2, pick, 97);
  }

  /** One turn of the loop: with tiles left and the picked candidate emitted without a fault,
      the run continues from the emitted state. */
  lemma RunStep(mode: SlotMode, capacity: int, k: int, st: State, pick: nat -> nat, c: Unit)
    requires k >= 2 && Open(st.slots, k) && st.left > 0
    requires var cands := Candidates(mode, st, capacity, k);
      cands != [] && c == cands[pick(|st.result|) % |cands|]
    requires Has(st.remaining, c) && Emitted(st, c, RequireCount(mode, c, st.slots, k), k).used < capacity
    ensures Open(Emitted(st, c, RequireCount(mode, c, st.slots, k), k).slots, k)
    ensures ColorBuilder.Run(mode, capacity, k, st, pick) ==
      ColorBuilder.Run(mode, capacity, k, Emitted(st, c, RequireCount(mode, c, st.slots, k), k), pick)
  {
    EmitOpen(mode, st, c, k, capacity);
  }

  /** The first step of `ZeroCountEmitted`: both colours are offered and `a` opens. */
  lemma FirstEmission()
    ensures var st := State([(97, 0), (98, 3)], [], 0, 3, []);
      Candidates(MaxConcurrent, st, 3, 3) == [97, 98] &&
      Emitted(st, 97, 1, 3) == State([(97, -1), (98, 3)], [(97, 1)], 1, 2, [97])
  {
    assert Put([(97, 0), (98, 3)], 97, -1) == [(97, -1), (98, 3)];
    assert Copies(97, 1) == [97];
  }

  /** The second step: only the open colour is offered. */
  lemma SecondEmission()
    ensures var st := State([(97, -1), (98, 3)], [(97, 1)], 1, 2, [97]);
      Candidates(MaxConcurrent, st, 3, 3) == [97] &&
      Emitted(st, 97, 1, 3) == State([(97, -2), (98, 3)], [(97, 2)], 2, 1, [97, 97])
  {
    assert Put([(97, -1), (98, 3)], 97, -2) == [(97, -2), (98, 3)];
    assert Copies(97, 1) == [97];
  }

  /** The third step: the open colour reaches `k` and clears. */
  lemma ThirdEmission()
    ensures var st := State([(97, -2), (98, 3)], [(97, 2)], 2, 1, [97, 97]);
      Candidates(MaxConcurrent, st, 3, 3) == [97] &&
      Emitted(st, 97, 1, 3) == State([(97, -3), (98, 3)], [], 0, 0, [97, 97, 97])
  {
    assert Put([(97, -2), (98, 3)], 97, -3) == [(97, -3), (98, 3)];
    assert Put([(97, 2)], 97, 3) == [(97, 3)];
    assert Copies(97, 1) == [97];
  }

  /** The source's builder accepts a negative multiple of `k` and lets it cancel the other
      counts: with `a` at -3 and `b` at 3 it returns the empty string, where the corrected
      builder rejects the argument. */
  lemma NegativeCountCancels()
    ensures BuildCoreAsWritten([(97, -3), (98, 3)], 3, 3, MaxConcurrent, _ => 0) == Ok([])
    ensures BuildCore([(97, -3), (98, 3)], 3, 3, MaxConcurrent, _ => 0) == Fail(Argument)
  {
    var es: seq<Entry> := [(97, -3), (98, 3)];
    assert Multiple(es[0].1, 3) && Multiple(es[1].1, 3);
    assert !SequenceBuilder.Valid(es[0], 3);
  }
}
