/** Why `Tile3SequenceBuilder.Build` succeeds on every valid input: the top of the stack is
    always the colour that completes a set, at most `capacity / (k - 1)` colours are open, so
    the slot never holds more than `capacity` tiles, some rule always applies while tiles
    remain, and the simulator replaying the output agrees with the builder step by step. */
module SequenceBuilderProof {
  import opened Outcomes
  import opened Texts
  import opened SlotSimulator
  import opened SequenceBuilder
  import Masks

  // ---------------------------------------------------------------- arithmetic

  lemma MulMono(a: int, b: int, c: int)
    requires 0 <= a <= b && c >= 0
    ensures a * c <= b * c
  {
    assert b * c - a * c == (b - a) * c;
  }

  /** `capacity / (k - 1)` open colours of `k - 1` tiles each fit in `capacity`, and there is
      room for one exactly when `capacity >= k - 1`. */
  lemma MaxActive(capacity: int, d: int)
    requires d >= 1 && capacity > 0
    ensures (capacity / d) * d <= capacity
    ensures capacity / d >= 1 <==> capacity >= d
  {
    var q, r := capacity / d, capacity % d;
    assert capacity == d * q + r && 0 <= r < d;
    if q >= 1 {
      Masks.MulSign(d, q);
    } else if q <= -1 {
      Masks.MulSign(d, q);
    } else {
      assert q == 0;
    }
  }

  /** Adding `k` tiles of a colour does not change what it holds modulo `k`. */
  lemma RemShift(n: nat, k: int)
    requires k >= 2
    ensures Rem(n + k, k) == Rem(n, k)
  {
  }

  // ---------------------------------------------------------------- the open colours' load

  /** Every stack entry names a colour. */
  predicate Indices(slot: seq<int>, a: seq<int>) {
    forall i | 0 <= i < |a| :: 0 <= a[i] < |slot|
  }

  /** The tiles the open colours `a` hold. */
  function SumAt(slot: seq<int>, a: seq<int>): int
    requires Indices(slot, a)
    decreases |a|
  {
    if a == [] then 0 else SumAt(slot, a[..|a| - 1]) + slot[a[|a| - 1]]
  }

  /** A colour that is not open does not count towards the load. */
  lemma {:induction false} SumAtOther(slot: seq<int>, a: seq<int>, j: int, v: int)
    requires Indices(slot, a) && 0 <= j < |slot| && j !in a
    ensures SumAt(slot[j := v], a) == SumAt(slot, a)
    decreases |a|
  {
    if a != [] {
      SumAtOther(slot, a[..|a| - 1], j, v);
    }
  }

  /** Open colours holding fewer than `k` tiles each hold at most `k - 1` each. */
  lemma {:induction false} SumAtBound(slot: seq<int>, a: seq<int>, k: int)
    requires Indices(slot, a) && forall j | 0 <= j < |slot| :: 0 <= slot[j] < k
    ensures 0 <= SumAt(slot, a) <= |a| * (k - 1)
    decreases |a|
  {
    if a != [] {
      SumAtBound(slot, a[..|a| - 1], k);
      assert (|a| - 1) * (k - 1) + (k - 1) == |a| * (k - 1);
    }
  }

  /** One more tile for the top colour, which holds at most `k - 2`, adds one to the load and
      keeps it within what the open colours can hold. */
  lemma SumAtTop(slot: seq<int>, a: seq<int>, v: int, k: int)
    requires Indices(slot, a) && a != [] && NoDup(a) && forall j | 0 <= j < |slot| :: 0 <= slot[j] < k
    requires v == slot[a[|a| - 1]] + 1 < k
    ensures SumAt(slot[a[|a| - 1] := v], a) == SumAt(slot, a) + 1 <= |a| * (k - 1)
  {
    var j, front := a[|a| - 1], a[..|a| - 1];
    SumAtBound(slot, front, k);
    assert (|a| - 1) * (k - 1) + (k - 1) == |a| * (k - 1);
    SumAtOther(slot, front, j, v);
  }

  // ---------------------------------------------------------------- the invariant

  /** The builder's parameters as `Build` sets them: distinct colours with `ns[j]` tiles of
      colour `cs[j]`, and room in `capacity` for `maxActive` part-sets of `k - 1` tiles. */
  predicate Setting(cs: seq<Unit>, ns: seq<int>, k: int, capacity: int, maxActive: int) {
    k >= 2 && |ns| == |cs| && (forall i, j | 0 <= i < j < |cs| :: cs[i] != cs[j]) &&
    maxActive >= 1 && maxActive * (k - 1) <= capacity
  }

  /** Each colour holds less than a set, and its remaining tiles complete its part-set. */
  ghost predicate Holding(cs: seq<Unit>, b: Builder, k: int)
    requires k >= 2 && WellFormed(cs, b)
  {
    forall j | 0 <= j < |cs| :: 0 <= b.slot[j] < k && Rem(b.remaining[j] + b.slot[j], k) == 0
  }

  /** Exactly the colours holding tiles are open. */
  ghost predicate OpenExactly(cs: seq<Unit>, b: Builder)
    requires WellFormed(cs, b)
  {
    forall j | 0 <= j < |cs| :: b.slot[j] != 0 <==> j in b.active
  }

  /** The slot accounting: `Holding` and `OpenExactly`, each open colour once, at most
      `maxActive` of them, and the load is what they hold. */
  ghost predicate Stacked(cs: seq<Unit>, b: Builder, k: int, maxActive: int)
    requires k >= 2 && WellFormed(cs, b)
  {
    Holding(cs, b, k) && OpenExactly(cs, b) &&
    NoDup(b.active) && |b.active| <= maxActive &&
    b.used == SumAt(b.slot, b.active)
  }

  /** Changing one colour's counts keeps `Holding` when its new counts do. */
  lemma HoldingStep(cs: seq<Unit>, b: Builder, b': Builder, j: int, r: int, v: int, k: int)
    requires k >= 2 && WellFormed(cs, b) && WellFormed(cs, b') && 0 <= j < |cs| && Holding(cs, b, k)
    requires b'.remaining == b.remaining[j := r] && b'.slot == b.slot[j := v]
    requires r >= 0 && 0 <= v < k && Rem(r + v, k) == 0
    ensures Holding(cs, b', k)
  {
    forall i | 0 <= i < |cs|
      ensures 0 <= b'.slot[i] < k && Rem(b'.remaining[i] + b'.slot[i], k) == 0
    {
      if i == j {
        assert b'.remaining[i] + b'.slot[i] == r + v;
      } else {
        assert b'.remaining[i] + b'.slot[i] == b.remaining[i] + b.slot[i];
      }
    }
  }

  /** Changing one colour's slot count keeps `OpenExactly` when the stack changes for that
      colour alone and agrees with its new count. */
  lemma OpenStep(cs: seq<Unit>, b: Builder, b': Builder, j: int, v: int)
    requires WellFormed(cs, b) && WellFormed(cs, b') && 0 <= j < |cs| && OpenExactly(cs, b)
    requires b'.slot == b.slot[j := v]
    requires forall i | 0 <= i < |cs| && i != j :: i in b'.active <==> i in b.active
    requires v != 0 <==> j in b'.active
    ensures OpenExactly(cs, b')
  {
  }

  /** What has been placed: `ns[j] - remaining[j]` tiles of colour `j`, and no other colour. */
  ghost predicate Tallied(cs: seq<Unit>, ns: seq<int>, b: Builder)
    requires WellFormed(cs, b) && |ns| == |cs|
  {
    (forall j | 0 <= j < |cs| :: Count(b.result, cs[j]) == ns[j] - b.remaining[j]) &&
    (forall c | c in b.result :: c in cs)
  }

  /** The simulator replaying the sequence so far has the builder's load and slot counts, and
      has never overflowed. */
  ghost predicate Replayed(cs: seq<Unit>, b: Builder, k: int, capacity: int)
    requires k >= 2 && WellFormed(cs, b)
  {
    Replay(b.result, |b.result|, k).1 == b.used &&
    (forall j | 0 <= j < |cs| :: Get(Replay(b.result, |b.result|, k).0, cs[j]) == b.slot[j]) &&
    Safe(b.result, |b.result|, capacity, k)
  }

  /** The loop invariant of `Build`. */
  ghost predicate Inv(cs: seq<Unit>, ns: seq<int>, b: Builder, k: int, capacity: int, maxActive: int) {
    Setting(cs, ns, k, capacity, maxActive) && WellFormed(cs, b) &&
    Stacked(cs, b, k, maxActive) && Tallied(cs, ns, b) && Replayed(cs, b, k, capacity)
  }

  // ---------------------------------------------------------------- one step

  /** Placing a tile of colour `j` counts it and nothing else. */
  lemma TallyStep(cs: seq<Unit>, ns: seq<int>, b: Builder, b': Builder, j: int)
    requires WellFormed(cs, b) && WellFormed(cs, b') && |ns| == |cs| && 0 <= j < |cs|
    requires forall i, i' | 0 <= i < i' < |cs| :: cs[i] != cs[i']
    requires Tallied(cs, ns, b)
    requires b'.result == b.result + [cs[j]] && b'.remaining == b.remaining[j := b.remaining[j] - 1]
    ensures Tallied(cs, ns, b')
  {
    forall i | 0 <= i < |cs|
      ensures Count(b'.result, cs[i]) == ns[i] - b'.remaining[i]
    {
      CountSnoc(b.result, cs[j], cs[i]);
    }
  }

  /** The builder's slot update is the simulator's. */
  lemma ReplayStep(cs: seq<Unit>, b: Builder, b': Builder, j: int, k: int, capacity: int)
    requires k >= 2 && WellFormed(cs, b) && WellFormed(cs, b') && 0 <= j < |cs|
    requires forall i, i' | 0 <= i < i' < |cs| :: cs[i] != cs[i']
    requires Replayed(cs, b, k, capacity)
    requires b'.result == b.result + [cs[j]] && b'.used <= capacity
    requires b.slot[j] + 1 == k ==> b'.slot == b.slot[j := 0] && b'.used == b.used + 1 - k
    requires b.slot[j] + 1 != k ==> b'.slot == b.slot[j := b.slot[j] + 1] && b'.used == b.used + 1
    ensures Replayed(cs, b', k, capacity)
  {
    ReplayAppend(b.result, cs[j], capacity, k);
    var m := Replay(b'.result, |b'.result|, k).0;
    forall i | 0 <= i < |cs|
      ensures Get(m, cs[i]) == b'.slot[i]
    {
      if i != j {
        assert cs[i] != cs[j] by {
          if i < j {
          } else {
          }
        }
      }
    }
  }

  /** The load never exceeds what the open colours can hold. */
  lemma LoadBound(cs: seq<Unit>, b: Builder, k: int, maxActive: int)
    requires k >= 2 && WellFormed(cs, b) && Stacked(cs, b, k, maxActive)
    ensures 0 <= b.used <= |b.active| * (k - 1) <= maxActive * (k - 1)
  {
    SumAtBound(b.slot, b.active, k);
    MulMono(|b.active|, maxActive, k - 1);
  }

  /** Popping the top colour once its set completes keeps the slot accounting. */
  lemma FinishStack(cs: seq<Unit>, b: Builder, b': Builder, k: int, maxActive: int)
    requires k >= 2 && WellFormed(cs, b) && Stacked(cs, b, k, maxActive)
    requires b.active != [] && b.slot[Top(b)] == k - 1 && b.remaining[Top(b)] > 0
    requires b' == Builder(b.remaining[Top(b) := b.remaining[Top(b)] - 1], b.slot[Top(b) := 0],
      b.active[..|b.active| - 1], b.result + [cs[Top(b)]], b.used + 1 - k)
    ensures WellFormed(cs, b') && Stacked(cs, b', k, maxActive)
  {
    var j, a := Top(b), b.active;
    var front := a[..|a| - 1];
    assert a == front + [j];
    assert WellFormed(cs, b');
    RemShift(b.remaining[j] - 1, k);
    HoldingStep(cs, b, b', j, b.remaining[j] - 1, 0, k);
    assert forall i | 0 <= i < |cs| && i != j :: i in front <==> i in a;
    OpenStep(cs, b, b', j, 0);
    SumAtOther(b.slot, front, j, 0);
  }

  /** Opening a closed colour pushes it and keeps the slot accounting. */
  lemma ActivateStack(cs: seq<Unit>, b: Builder, b': Builder, j: int, k: int, maxActive: int)
    requires k >= 2 && WellFormed(cs, b) && Stacked(cs, b, k, maxActive)
    requires |b.active| < maxActive && 0 <= j < |cs| && Closed(b, j)
    requires b' == Builder(b.remaining[j := b.remaining[j] - 1], b.slot[j := 1],
      b.active + [j], b.result + [cs[j]], b.used + 1)
    ensures WellFormed(cs, b') && Stacked(cs, b', k, maxActive)
  {
    var a := b.active;
    assert j !in a;
    assert (a + [j])[..|a|] == a;
    assert WellFormed(cs, b');
    assert b.remaining[j] - 1 + 1 == b.remaining[j] + b.slot[j];
    HoldingStep(cs, b, b', j, b.remaining[j] - 1, 1, k);
    assert forall i | 0 <= i < |cs| && i != j :: i in a + [j] <==> i in a;
    OpenStep(cs, b, b', j, 1);
    SumAtOther(b.slot, a, j, 1);
  }

  /** Adding a tile to the top colour short of a set keeps the slot accounting. */
  lemma AddStack(cs: seq<Unit>, b: Builder, b': Builder, k: int, maxActive: int)
    requires k >= 2 && WellFormed(cs, b) && Stacked(cs, b, k, maxActive)
    requires b.active != [] && b.slot[Top(b)] != k - 1 && b.remaining[Top(b)] > 0
    requires b' == Builder(b.remaining[Top(b) := b.remaining[Top(b)] - 1], b.slot[Top(b) := b.slot[Top(b)] + 1],
      b.active, b.result + [cs[Top(b)]], b.used + 1)
    ensures WellFormed(cs, b') && Stacked(cs, b', k, maxActive)
    ensures b'.used <= |b.active| * (k - 1)
  {
    var j, a := Top(b), b.active;
    var front := a[..|a| - 1];
    assert a == front + [j];
    assert j in a;
    assert WellFormed(cs, b');
    assert b.remaining[j] - 1 + (b.slot[j] + 1) == b.remaining[j] + b.slot[j];
    HoldingStep(cs, b, b', j, b.remaining[j] - 1, b.slot[j] + 1, k);
    OpenStep(cs, b, b', j, b.slot[j] + 1);
    SumAtTop(b.slot, a, b.slot[j] + 1, k);
  }

  /** Rule one: the top colour, one short of a set, completes it and is popped. */
  lemma FinishTop(cs: seq<Unit>, ns: seq<int>, b: Builder, k: int, capacity: int, maxActive: int)
    requires Inv(cs, ns, b, k, capacity, maxActive)
    requires b.active != [] && b.slot[Top(b)] == k - 1 && b.remaining[Top(b)] > 0
    ensures Emit(cs, b, Top(b), k, capacity).Ok?
    ensures Inv(cs, ns, Emit(cs, b, Top(b), k, capacity).value, k, capacity, maxActive)
  {
    var j := Top(b);
    LoadBound(cs, b, k, maxActive);
    var b' := Builder(b.remaining[j := b.remaining[j] - 1], b.slot[j := 0], b.active[..|b.active| - 1],
      b.result + [cs[j]], b.used + 1 - k);
    assert Emit(cs, b, j, k, capacity) == Ok(b');
    FinishStack(cs, b, b', k, maxActive);
    TallyStep(cs, ns, b, b', j);
    ReplayStep(cs, b, b', j, k, capacity);
  }

  /** Rule two: a closed colour opens while fewer than `maxActive` are open. */
  lemma Activate(cs: seq<Unit>, ns: seq<int>, b: Builder, j: int, k: int, capacity: int, maxActive: int)
    requires Inv(cs, ns, b, k, capacity, maxActive)
    requires |b.active| < maxActive && 0 <= j < |cs| && Closed(b, j)
    ensures Emit(cs, b, j, k, capacity).Ok?
    ensures Inv(cs, ns, Emit(cs, b, j, k, capacity).value, k, capacity, maxActive)
  {
    LoadBound(cs, b, k, maxActive - 1);
    assert (maxActive - 1) * (k - 1) == maxActive * (k - 1) - (k - 1);
    var b' := Builder(b.remaining[j := b.remaining[j] - 1], b.slot[j := 1], b.active + [j],
      b.result + [cs[j]], b.used + 1);
    assert Emit(cs, b, j, k, capacity) == Ok(b');
    ActivateStack(cs, b, b', j, k, maxActive);
    TallyStep(cs, ns, b, b', j);
    ReplayStep(cs, b, b', j, k, capacity);
  }

  /** Rule three: the top colour takes one more tile without completing its set. */
  lemma AddToTop(cs: seq<Unit>, ns: seq<int>, b: Builder, k: int, capacity: int, maxActive: int)
    requires Inv(cs, ns, b, k, capacity, maxActive)
    requires b.active != [] && b.slot[Top(b)] != k - 1 && b.remaining[Top(b)] > 0
    ensures Emit(cs, b, Top(b), k, capacity).Ok?
    ensures Inv(cs, ns, Emit(cs, b, Top(b), k, capacity).value, k, capacity, maxActive)
  {
    var j := Top(b);
    LoadBound(cs, b, k, maxActive);
    var b' := Builder(b.remaining[j := b.remaining[j] - 1], b.slot[j := b.slot[j] + 1], b.active,
      b.result + [cs[j]], b.used + 1);
    AddStack(cs, b, b', k, maxActive);
    assert j in b.active;
    assert Emit(cs, b, j, k, capacity) == Ok(b');
    TallyStep(cs, ns, b, b', j);
    ReplayStep(cs, b, b', j, k, capacity);
  }

  /** An open colour still has tiles to place: what it holds and what remains make whole sets. */
  lemma OpenRemains(cs: seq<Unit>, ns: seq<int>, b: Builder, i: int, k: int, capacity: int, maxActive: int)
    requires Inv(cs, ns, b, k, capacity, maxActive)
    requires 0 <= i < |b.active|
    ensures b.remaining[b.active[i]] > 0
  {
    var j := b.active[i];
    assert j in b.active;
    if b.remaining[j] == 0 {
      assert Rem(b.slot[j], k) == b.slot[j];
    }
  }

  /** While tiles remain or a colour is open, one of the three rules applies. */
  lemma Progress(cs: seq<Unit>, ns: seq<int>, b: Builder, k: int, capacity: int, maxActive: int)
    requires Inv(cs, ns, b, k, capacity, maxActive)
    requires HasRemaining(b) || b.active != []
    ensures Pick(cs, b, k, maxActive).Some?
  {
    if b.active != [] {
      OpenRemains(cs, ns, b, |b.active| - 1, k, capacity, maxActive);
    } else {
      var j :| 0 <= j < |b.remaining| && b.remaining[j] > 0;
      assert j !in b.active;
      assert Closed(b, j);
    }
  }

  /** The step `Pick` chooses keeps the invariant. */
  lemma StepKeeps(cs: seq<Unit>, ns: seq<int>, b: Builder, j: int, k: int, capacity: int, maxActive: int)
    requires Inv(cs, ns, b, k, capacity, maxActive)
    requires Pick(cs, b, k, maxActive) == Some(j)
    ensures Emit(cs, b, j, k, capacity).Ok?
    ensures Inv(cs, ns, Emit(cs, b, j, k, capacity).value, k, capacity, maxActive)
  {
    if b.active != [] && b.slot[Top(b)] == k - 1 && b.remaining[Top(b)] > 0 {
      FinishTop(cs, ns, b, k, capacity, maxActive);
    } else if |b.active| < maxActive && Fresh(b, 0).Some? {
      Activate(cs, ns, b, j, k, capacity, maxActive);
    } else {
      AddToTop(cs, ns, b, k, capacity, maxActive);
    }
  }

  /** From any state of the invariant the loop ends normally with every colour placed in
      full, no other colour, and a sequence the simulator replays without overflow. */
  lemma {:induction false} RunSound(cs: seq<Unit>, ns: seq<int>, b: Builder, k: int, capacity: int, maxActive: int)
    requires Inv(cs, ns, b, k, capacity, maxActive)
    ensures Run(cs, b, k, capacity, maxActive).Ok?
    ensures forall j | 0 <= j < |cs| :: Count(Run(cs, b, k, capacity, maxActive).value, cs[j]) == ns[j]
    ensures forall c | c in Run(cs, b, k, capacity, maxActive).value :: c in cs
    ensures Safe(Run(cs, b, k, capacity, maxActive).value, |Run(cs, b, k, capacity, maxActive).value|, capacity, k)
    decreases Total(b.remaining)
  {
    if !(HasRemaining(b) || b.active != []) {
      assert forall j | 0 <= j < |cs| :: b.remaining[j] == 0;
    } else {
      Progress(cs, ns, b, k, capacity, maxActive);
      var j := Pick(cs, b, k, maxActive).value;
      StepKeeps(cs, ns, b, j, k, capacity, maxActive);
      EmitTakes(cs, b, j, k, capacity);
      RunSound(cs, ns, Emit(cs, b, j, k, capacity).value, k, capacity, maxActive);
    }
  }

  // ---------------------------------------------------------------- the whole build

  /** Dropping entries keeps the keys distinct. */
  lemma {:induction false} PositiveKeys(es: seq<Entry>)
    requires DistinctKeys(es)
    ensures DistinctKeys(Positive(es))
    decreases |es|
  {
    if es != [] {
      var rest := es[1..];
      assert DistinctKeys(rest) by {
        forall i, j | 0 <= i < j < |rest|
          ensures rest[i].0 != rest[j].0
        {
          assert rest[i] == es[i + 1] && rest[j] == es[j + 1];
        }
      }
      PositiveKeys(rest);
      forall e | e in Positive(rest)
        ensures e.0 != es[0].0
      {
        var i :| 0 <= i < |rest| && rest[i] == e;
        assert es[i + 1] == e;
      }
    }
  }

  /** The state before the first step satisfies the invariant. */
  lemma StartInv(cs: seq<Unit>, ns: seq<int>, k: int, capacity: int, maxActive: int)
    requires Setting(cs, ns, k, capacity, maxActive)
    requires forall j | 0 <= j < |ns| :: ns[j] > 0 && Rem(ns[j], k) == 0
    ensures WellFormed(cs, Start(ns)) && Inv(cs, ns, Start(ns), k, capacity, maxActive)
  {
    var b := Start(ns);
    assert Replay(b.result, 0, k) == (map[], 0);
    assert forall j | 0 <= j < |cs| :: ns[j] + b.slot[j] == ns[j];
  }

  /** Every entry of the dictionary with a positive count is tracked under some index. */
  lemma Tracked(es: seq<Entry>, i: int) returns (j: int)
    requires 0 <= i < |es| && es[i].1 > 0
    ensures 0 <= j < |Positive(es)| && Positive(es)[j] == es[i]
  {
    assert es[i] in Positive(es);
    j :| 0 <= j < |Positive(es)| && Positive(es)[j] == es[i];
  }

  /** An entry without a positive count has no tracked colour. */
  lemma Untracked(es: seq<Entry>, i: int)
    requires DistinctKeys(es) && 0 <= i < |es| && es[i].1 <= 0
    ensures forall j | 0 <= j < |Positive(es)| :: Positive(es)[j].0 != es[i].0
  {
    forall j | 0 <= j < |Positive(es)|
      ensures Positive(es)[j].0 != es[i].0
    {
      var e := Positive(es)[j];
      assert e in Positive(es);
      var i' :| 0 <= i' < |es| && es[i'] == e;
      assert i' != i;
    }
  }

  /** Every tracked colour is a key of the dictionary. */
  lemma TrackedKey(es: seq<Entry>, j: int)
    requires 0 <= j < |Positive(es)|
    ensures Positive(es)[j].0 in Keys(es)
  {
    var e := Positive(es)[j];
    assert e in Positive(es);
    var i :| 0 <= i < |es| && es[i] == e;
    assert Keys(es)[i] == e.0;
  }

  /** On valid input `Build` returns a sequence with exactly the given number of tiles of each
      colour, no other colour, and a slot that never holds more than `capacity` tiles. */
  lemma BuildSound(es: seq<Entry>, capacity: int, k: int)
    requires k >= 2 && capacity >= k - 1 && DistinctKeys(es)
    requires forall i | 0 <= i < |es| :: Valid(es[i], k)
    ensures Build(es, capacity, k).Ok?
    ensures forall i | 0 <= i < |es| :: Count(Build(es, capacity, k).value, es[i].0) == es[i].1
    ensures forall c | c in Build(es, capacity, k).value :: c in Keys(es)
    ensures Fits(Build(es, capacity, k).value, capacity, k)
  {
    MaxActive(capacity, k - 1);
    var m := capacity / (k - 1);
    AdmitMeans(es, k);
    var ps := Positive(es);
    PositiveKeys(es);
    var cs, ns := Keys(ps), Values(ps);
    forall j | 0 <= j < |ns|
      ensures ns[j] > 0 && Rem(ns[j], k) == 0
    {
      assert ps[j] in ps;
      var i :| 0 <= i < |es| && es[i] == ps[j];
      assert Valid(es[i], k);
    }
    StartInv(cs, ns, k, capacity, m);
    RunSound(cs, ns, Start(ns), k, capacity, m);
    var r := Run(cs, Start(ns), k, capacity, m).value;
    assert Build(es, capacity, k) == Ok(r);
    forall i | 0 <= i < |es|
      ensures Count(r, es[i].0) == es[i].1
    {
      if es[i].1 > 0 {
        var j := Tracked(es, i);
        assert cs[j] == es[i].0 && ns[j] == es[i].1;
      } else {
        Untracked(es, i);
        assert es[i].0 !in cs;
      }
    }
    forall c | c in r
      ensures c in Keys(es)
    {
      var j :| 0 <= j < |cs| && cs[j] == c;
      TrackedKey(es, j);
    }
    SafeFits(r, |r|, capacity, k);
  }

  /** The faults of `Build`: a `k` below two or a capacity that is not positive is an argument
      fault, a capacity below `k - 1` an invalid operation, and otherwise the first invalid
      entry decides the fault; on valid input with distinct keys it succeeds (`BuildSound`). */
  lemma BuildFaults(es: seq<Entry>, capacity: int, k: int)
    ensures k < 2 || capacity <= 0 ==> Build(es, capacity, k) == Fail(Argument)
    ensures k >= 2 && 0 < capacity < k - 1 ==> Build(es, capacity, k) == Fail(InvalidOperation)
    ensures k >= 2 && capacity >= k - 1 && Build(es, capacity, k).Ok? ==>
      forall i | 0 <= i < |es| :: Valid(es[i], k)
    ensures k >= 2 && capacity >= k - 1 && !(forall i | 0 <= i < |es| :: Valid(es[i], k)) ==>
      exists i | 0 <= i < |es| ::
        (FirstInvalid(es, i, k) && Build(es, capacity, k) == Fail(if es[i].1 < 0 then Argument else InvalidOperation))
  {
    if k >= 2 && capacity > 0 {
      MaxActive(capacity, k - 1);
      if capacity >= k - 1 {
        AdmittedOnly(es, capacity, k);
      }
    }
  }

  /** Past the argument checks, the build goes on exactly when every entry is valid, and
      fails with the first invalid entry's fault otherwise. */
  lemma AdmittedOnly(es: seq<Entry>, capacity: int, k: int)
    requires k >= 2 && capacity >= k - 1 && capacity / (k - 1) > 0
    ensures Build(es, capacity, k).Ok? ==> forall i | 0 <= i < |es| :: Valid(es[i], k)
    ensures !(forall i | 0 <= i < |es| :: Valid(es[i], k)) ==>
      exists i | 0 <= i < |es| ::
        (FirstInvalid(es, i, k) && Build(es, capacity, k) == Fail(if es[i].1 < 0 then Argument else InvalidOperation))
  {
    AdmitMeans(es, k);
  }
}
