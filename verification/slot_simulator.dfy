/** `Tile3SlotSimulator.Simulate`: a colour sequence played into a slot of `capacity` cells
    where `k` tiles of one colour clear each other at once. The state after a prefix is given in
    closed form by the colour counts: each colour holds its count modulo `k`, and the load is
    the sum of what the colours hold. */
module SlotSimulator {
  import opened Outcomes
  import opened Texts

  /** What `Simulate` records for one step: its number from 1, the colour, whether it
      completed a set, the load after it and the count each held colour has. */
  datatype StepLog = StepLog(stepIndex: int, color: Unit, eliminated: bool, used: int, slotCounts: map<Unit, int>)

  /** How often `c` occurs in `p`. */
  function Count(p: Text, c: Unit): nat {
    multiset(p)[c]
  }

  /** A dictionary lookup with 0 for a missing key, `GetValueOrDefault(c, 0)`. */
  function Get(m: map<Unit, int>, c: Unit): int {
    if c in m then m[c] else 0
  }

  /** No colour occurs twice in `s`. */
  predicate NoDup<T(==)>(s: seq<T>)
    decreases |s|
  {
    s == [] || (s[|s| - 1] !in s[..|s| - 1] && NoDup(s[..|s| - 1]))
  }

  /** The colours of `p` in order of first occurrence: LINQ's `Distinct`. */
  function Distinct(p: Text): (r: seq<Unit>)
    ensures forall c :: c in r <==> c in p
    ensures NoDup(r)
    decreases |p|
  {
    if p == [] then []
    else
      var front, c := p[..|p| - 1], p[|p| - 1];
      assert p == front + [c];
      var r := Distinct(front) + (if c in front then [] else [c]);
      assert if c in front then r == Distinct(front) else r[..|r| - 1] == Distinct(front);
      r
  }

  /** `n % k` for a count, by repeated subtraction. */
  function Rem(n: nat, k: int): (r: nat)
    requires k >= 1
    ensures r < k
    decreases n
  {
    if n < k then n else Rem(n - k, k)
  }

  /** The C# test `n % k == 0`: the truncated remainder is zero exactly when the magnitude is
      a multiple of `k`, negative counts included. */
  predicate Multiple(n: int, k: int)
    requires k >= 1
  {
    Rem(if n < 0 then -n else n, k) == 0
  }

  /** `m` is the slot after playing `p`: every colour holds its count modulo `k`, and no colour
      is kept with nothing held. */
  ghost predicate Holds(m: map<Unit, int>, p: Text, k: int)
    requires k >= 2
  {
    (forall c :: Get(m, c) == Rem(Count(p, c), k)) && (forall c | c in m :: m[c] != 0)
  }

  /** The slot after playing `p`, as a dictionary. */
  function Held(p: Text, k: int): map<Unit, int>
    requires k >= 2
  {
    map c | c in p && Rem(Count(p, c), k) != 0 :: Rem(Count(p, c), k)
  }

  /** The sum of what the colours `ks` hold after `p`. */
  function SumHeld(p: Text, ks: seq<Unit>, k: int): int
    requires k >= 2
    decreases |ks|
  {
    if ks == [] then 0 else SumHeld(p, ks[..|ks| - 1], k) + Rem(Count(p, ks[|ks| - 1]), k)
  }

  /** The slot's load after `p`: the sum of what the colours hold. */
  function Load(p: Text, k: int): int
    requires k >= 2
  {
    SumHeld(p, Distinct(p), k)
  }

  /** Playing `p` never puts more than `capacity` tiles in the slot after a step. */
  predicate Fits(p: Text, capacity: int, k: int)
    requires k >= 2
  {
    forall j | 1 <= j <= |p| :: Load(p[..j], k) <= capacity
  }

  /** Whether step `i` of `p` completes a set. */
  predicate Completes(p: Text, i: int, k: int)
    requires 0 <= i < |p| && k >= 2
  {
    Rem(Count(p[..i + 1], p[i]), k) == 0
  }

  /** The log of step `i` of `p`, from the counts alone. */
  function StepAt(p: Text, i: int, k: int): StepLog
    requires 0 <= i < |p| && k >= 2
  {
    StepLog(i + 1, p[i], Completes(p, i, k), Load(p[..i + 1], k), Held(p[..i + 1], k))
  }

  // ---------------------------------------------------------------- one more tile

  /** The dictionary is the one slot the counts describe. */
  lemma HeldHolds(m: map<Unit, int>, p: Text, k: int)
    requires k >= 2
    ensures Holds(m, p, k) <==> m == Held(p, k)
  {
    var h := Held(p, k);
    forall c
      ensures Get(h, c) == Rem(Count(p, c), k)
    {
      if c !in p {
        assert Count(p, c) == 0;
      }
    }
    if Holds(m, p, k) {
      forall d
        ensures (d in m <==> d in h) && (d in m ==> m[d] == h[d])
      {
        assert Get(m, d) == Get(h, d);
      }
    }
  }

  /** The count after one more tile, modulo `k`: one more, or 0 when it reaches `k`. */
  lemma {:induction false} ModNext(n: nat, k: int)
    requires k >= 2
    ensures Rem(n + 1, k) == if Rem(n, k) + 1 == k then 0 else Rem(n, k) + 1
    decreases n
  {
    if n >= k {
      ModNext(n - k, k);
    }
  }

  /** One more tile adds to its own colour's count only. */
  lemma CountSnoc(p: Text, c: Unit, d: Unit)
    ensures Count(p + [c], d) == Count(p, d) + (if d == c then 1 else 0)
  {
    assert multiset(p + [c]) == multiset(p) + multiset{c};
  }

  /** The slot update of one tile of colour `c`: its count goes up by one, and a colour that
      reaches `k` leaves the slot with `k` tiles. */
  function Advance(state: (map<Unit, int>, int), c: Unit, k: int): (map<Unit, int>, int) {
    var v := Get(state.0, c) + 1;
    if v == k then (state.0[c := v] - {c}, state.1 + 1 - k) else (state.0[c := v], state.1 + 1)
  }

  /** `Advance` keeps the slot the one the counts describe, and clears exactly when the
      colour's count reaches a multiple of `k`. */
  lemma HoldsSnoc(m: map<Unit, int>, u: int, p: Text, c: Unit, k: int)
    requires k >= 2 && Holds(m, p, k)
    ensures Holds(Advance((m, u), c, k).0, p + [c], k)
    ensures Get(m, c) + 1 == k <==> Rem(Count(p + [c], c), k) == 0
  {
    var m' := Advance((m, u), c, k).0;
    CountSnoc(p, c, c);
    ModNext(Count(p, c), k);
    forall d
      ensures Get(m', d) == Rem(Count(p + [c], d), k)
    {
      CountSnoc(p, c, d);
    }
  }

  /** LINQ's `Distinct` on one more element. */
  lemma DistinctSnoc(p: Text, c: Unit)
    ensures Distinct(p + [c]) == Distinct(p) + (if c in p then [] else [c])
  {
    assert (p + [c])[..|p|] == p;
  }

  /** The sum over colours that hold `c` at most once changes by the change at `c`. */
  lemma {:induction false} SumChange(p: Text, c: Unit, ks: seq<Unit>, k: int)
    requires k >= 2
    requires NoDup(ks)
    ensures SumHeld(p + [c], ks, k) ==
      SumHeld(p, ks, k) + (if c in ks then Rem(Count(p + [c], c), k) - Rem(Count(p, c), k) else 0)
    decreases |ks|
  {
    if ks != [] {
      var front, d := ks[..|ks| - 1], ks[|ks| - 1];
      assert ks == front + [d];
      SumChange(p, c, front, k);
      CountSnoc(p, c, d);
      if d == c {
        assert c !in front;
      }
    }
  }

  /** A sum over one more colour adds what that colour holds. */
  lemma SumHeldSnoc(p: Text, ks: seq<Unit>, d: Unit, k: int)
    requires k >= 2
    ensures SumHeld(p, ks + [d], k) == SumHeld(p, ks, k) + Rem(Count(p, d), k)
  {
    assert (ks + [d])[..|ks|] == ks;
  }

  /** One more tile adds one to the load, and a completed set takes `k` away. */
  lemma LoadSnoc(p: Text, c: Unit, k: int)
    requires k >= 2
    ensures Load(p + [c], k) == Load(p, k) + 1 - (if Rem(Count(p + [c], c), k) == 0 then k else 0)
  {
    var ds, n := Distinct(p), Count(p, c);
    DistinctSnoc(p, c);
    CountSnoc(p, c, c);
    ModNext(n, k);
    SumChange(p, c, ds, k);
    if c !in p {
      assert n == 0;
      SumHeldSnoc(p + [c], ds, c, k);
      assert Distinct(p + [c]) == ds + [c];
      assert c !in ds;
      assert SumHeld(p + [c], ds, k) == Load(p, k);
      assert Rem(0, k) == 0;
      assert Rem(Count(p + [c], c), k) == 1;
      assert Load(p + [c], k) == SumHeld(p + [c], ds + [c], k);
    } else {
      assert c in ds;
      assert Distinct(p + [c]) == ds;
      assert SumHeld(p + [c], ds, k) == Load(p, k) + Rem(n + 1, k) - Rem(n, k);
    }
  }

  /** The slot and load after the first `n` tiles of `s`, updated tile by tile as
      `Simulate` does. */
  function Replay(s: Text, n: int, k: int): (map<Unit, int>, int)
    requires k >= 2 && 0 <= n <= |s|
    decreases n
  {
    if n == 0 then (map[], 0) else Advance(Replay(s, n - 1, k), s[n - 1], k)
  }

  /** A prefix one longer is the prefix and the next element. */
  lemma PrefixSnoc<T>(s: seq<T>, i: int)
    requires 0 <= i < |s|
    ensures s[..i + 1] == s[..i] + [s[i]]
  {
  }

  /** Updating the slot tile by tile gives the closed form: the counts modulo `k`, and their
      sum as the load. */
  lemma {:induction false} ReplayMeans(s: Text, n: int, k: int)
    requires k >= 2 && 0 <= n <= |s|
    ensures Holds(Replay(s, n, k).0, s[..n], k)
    ensures Replay(s, n, k).1 == Load(s[..n], k)
    decreases n
  {
    if n == 0 {
      assert s[..0] == [];
    } else {
      PrefixSnoc(s, n - 1);
      ReplayMeans(s, n - 1, k);
      HoldsSnoc(Replay(s, n - 1, k).0, Replay(s, n - 1, k).1, s[..n - 1], s[n - 1], k);
      LoadSnoc(s[..n - 1], s[n - 1], k);
    }
  }

  /** The sum of the values `m` holds for the colours `ks`. */
  function SumOf(m: map<Unit, int>, ks: seq<Unit>): int
    decreases |ks|
  {
    if ks == [] then 0 else SumOf(m, ks[..|ks| - 1]) + Get(m, ks[|ks| - 1])
  }

  /** A slot the counts describe sums to what the colours hold. */
  lemma {:induction false} SumOfHolds(m: map<Unit, int>, p: Text, ks: seq<Unit>, k: int)
    requires k >= 2 && Holds(m, p, k)
    ensures SumOf(m, ks) == SumHeld(p, ks, k)
    decreases |ks|
  {
    if ks != [] {
      SumOfHolds(m, p, ks[..|ks| - 1], k);
    }
  }

  /** Throughout `Simulate`, every colour in the slot holds between 1 and `k - 1` tiles, only
      colours already played are in it, and `used` is the sum of the slot's values. */
  lemma SlotInvariant(s: Text, n: int, k: int)
    requires k >= 2 && 0 <= n <= |s|
    ensures forall c | c in Replay(s, n, k).0 :: 1 <= Replay(s, n, k).0[c] < k && c in s[..n]
    ensures Replay(s, n, k).1 == SumOf(Replay(s, n, k).0, Distinct(s[..n]))
  {
    var m := Replay(s, n, k).0;
    ReplayMeans(s, n, k);
    SumOfHolds(m, s[..n], Distinct(s[..n]), k);
    forall c | c in m
      ensures 1 <= m[c] < k && c in s[..n]
    {
      assert Get(m, c) == Rem(Count(s[..n], c), k);
    }
  }

  /** The replay of the first `n` tiles never leaves more than `capacity` tiles in the slot. */
  predicate Safe(s: Text, n: int, capacity: int, k: int)
    requires k >= 2 && 0 <= n <= |s|
    decreases n
  {
    n == 0 || (Safe(s, n - 1, capacity, k) && Replay(s, n, k).1 <= capacity)
  }

  /** A replay within `capacity` is within it after each of its steps. */
  lemma {:induction false} SafeAt(s: Text, n: int, j: int, capacity: int, k: int)
    requires k >= 2 && 1 <= j <= n <= |s| && Safe(s, n, capacity, k)
    ensures Replay(s, j, k).1 <= capacity
    decreases n
  {
    if j < n {
      SafeAt(s, n - 1, j, capacity, k);
    }
  }

  /** Staying within `capacity` step by step is keeping the load after each of the first `n`
      steps at most `capacity`. */
  lemma {:induction false} SafeFits(s: Text, n: int, capacity: int, k: int)
    requires k >= 2 && 0 <= n <= |s|
    ensures Safe(s, n, capacity, k) <==> forall j | 1 <= j <= n :: Load(s[..j], k) <= capacity
    decreases n
  {
    if n > 0 {
      SafeFits(s, n - 1, capacity, k);
      ReplayMeans(s, n, k);
    }
  }

  /** The log of the first `n` steps of `s`, written step by step as `Simulate` does. */
  function Trace(s: Text, n: int, k: int): (r: seq<StepLog>)
    requires k >= 2 && 0 <= n <= |s|
    ensures |r| == n
    decreases n
  {
    if n == 0 then []
    else
      var c := s[n - 1];
      var next := Replay(s, n, k);
      Trace(s, n - 1, k) + [StepLog(n, c, Get(Replay(s, n - 1, k).0, c) + 1 == k, next.1, next.0)]
  }

  /** After the replay of `n` tiles, the slot is the dictionary of held counts and the load
      their sum. */
  lemma ReplayHeld(s: Text, n: int, k: int)
    requires k >= 2 && 0 <= n <= |s|
    ensures Replay(s, n, k).0 == Held(s[..n], k)
    ensures Replay(s, n, k).1 == Load(s[..n], k)
  {
    ReplayMeans(s, n, k);
    HeldHolds(Replay(s, n, k).0, s[..n], k);
  }

  /** Tile `i` clears its colour exactly when its count reaches a multiple of `k`. */
  lemma StepCompletes(s: Text, i: int, k: int)
    requires k >= 2 && 0 <= i < |s|
    ensures Get(Replay(s, i, k).0, s[i]) + 1 == k <==> Completes(s, i, k)
  {
    PrefixSnoc(s, i);
    ReplayMeans(s, i, k);
    HoldsSnoc(Replay(s, i, k).0, Replay(s, i, k).1, s[..i], s[i], k);
  }

  /** The record written for step `n` is the one the counts give. */
  lemma StepRecord(s: Text, n: int, k: int)
    requires k >= 2 && 1 <= n <= |s|
    ensures Trace(s, n, k)[n - 1] == StepAt(s, n - 1, k)
  {
    ReplayHeld(s, n, k);
    StepCompletes(s, n - 1, k);
    var t, a := Trace(s, n, k)[n - 1], StepAt(s, n - 1, k);
    assert t.stepIndex == a.stepIndex && t.color == a.color;
    assert t.eliminated == a.eliminated;
    assert t.used == a.used;
    assert t.slotCounts == a.slotCounts;
  }

  /** The records written step by step are the records the counts give. */
  lemma {:induction false} TraceAt(s: Text, n: int, i: int, k: int)
    requires k >= 2 && 0 <= i < n <= |s|
    ensures Trace(s, n, k)[i] == StepAt(s, i, k)
    decreases n
  {
    if i == n - 1 {
      StepRecord(s, n, k);
    } else {
      TraceAt(s, n - 1, i, k);
    }
  }

  /** A sequence with a step that overflows does not fit. */
  lemma Overflows(s: Text, j: int, capacity: int, k: int)
    requires k >= 2 && 1 <= j <= |s| && Replay(s, j, k).1 > capacity
    ensures !Fits(s, capacity, k)
  {
    SafeFits(s, |s|, capacity, k);
    if Safe(s, |s|, capacity, k) {
      SafeAt(s, |s|, j, capacity, k);
      assert false;
    }
  }

  /** The whole sequence, replayed, is what the records and the bound are about. */
  lemma Whole(s: Text, capacity: int, k: int)
    requires k >= 2
    ensures forall i | 0 <= i < |s| :: Trace(s, |s|, k)[i] == StepAt(s, i, k)
    ensures Safe(s, |s|, capacity, k) <==> Fits(s, capacity, k)
  {
    forall i | 0 <= i < |s|
      ensures Trace(s, |s|, k)[i] == StepAt(s, i, k)
    {
      TraceAt(s, |s|, i, k);
    }
    SafeFits(s, |s|, capacity, k);
  }

  /** The replay of the first `n` tiles depends on those tiles only. */
  lemma {:induction false} ReplaySame(s: Text, t: Text, n: int, capacity: int, k: int)
    requires k >= 2 && 0 <= n <= |s| && n <= |t| && s[..n] == t[..n]
    ensures Replay(s, n, k) == Replay(t, n, k)
    ensures Safe(s, n, capacity, k) == Safe(t, n, capacity, k)
    decreases n
  {
    if n > 0 {
      assert s[..n - 1] == s[..n][..n - 1] && t[..n - 1] == t[..n][..n - 1];
      assert s[n - 1] == s[..n][n - 1] && t[n - 1] == t[..n][n - 1];
      ReplaySame(s, t, n - 1, capacity, k);
    }
  }

  /** Playing one more tile after a whole sequence advances its replay by that tile. */
  lemma ReplayAppend(s: Text, c: Unit, capacity: int, k: int)
    requires k >= 2
    ensures Replay(s + [c], |s| + 1, k) == Advance(Replay(s, |s|, k), c, k)
    ensures Safe(s + [c], |s| + 1, capacity, k) <==>
      Safe(s, |s|, capacity, k) && Advance(Replay(s, |s|, k), c, k).1 <= capacity
  {
    assert (s + [c])[..|s|] == s[..|s|];
    ReplaySame(s + [c], s, |s|, capacity, k);
  }

  // ---------------------------------------------------------------- the simulation

  /** `Simulate(sequence, capacity, k)`: the log of every step when no step overflows the
      slot; an argument fault for `k < 2` or `capacity <= 0`, and an invalid operation as soon
      as a step leaves more than `capacity` tiles. */
  method Simulate(sequence: Text, capacity: int, k: int) returns (r: Result<seq<StepLog>>)
    ensures k < 2 || capacity <= 0 ==> r == Fail(Argument)
    ensures k >= 2 && capacity > 0 ==> (r.Ok? <==> Fits(sequence, capacity, k))
    ensures k >= 2 && capacity > 0 && r.Fail? ==> r.fault == InvalidOperation
    ensures r.Ok? ==> k >= 2 && |r.value| == |sequence|
    ensures r.Ok? ==> forall i | 0 <= i < |sequence| :: r.value[i] == StepAt(sequence, i, k)
  {
    if k < 2 || capacity <= 0 {
      return Fail(Argument);
    }
    var slot: map<Unit, int> := map[];
    var used := 0;
    var logs: seq<StepLog> := [];
    for i := 0 to |sequence|
      invariant (slot, used) == Replay(sequence, i, k)
      invariant logs == Trace(sequence, i, k)
      invariant Safe(sequence, i, capacity, k)
    {
      var c := sequence[i];
      used := used + 1;
      slot := slot[c := Get(slot, c) + 1];
      var eliminated := false;
      if slot[c] == k {
        eliminated := true;
        used := used - k;
        slot := slot - {c};
      }
      if used > capacity {
        Overflows(sequence, i + 1, capacity, k);
        return Fail(InvalidOperation);
      }
      logs := logs + [StepLog(i + 1, c, eliminated, used, slot)];
    }
    Whole(sequence, capacity, k);
    return Ok(logs);
  }
}
