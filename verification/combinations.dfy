/** `Choose`: the k-element combinations of a list, produced by a state machine over
    strictly increasing index tuples, from [0, 1, ..., k - 1] onwards in lexicographic
    order. */
module Combinations {
  import opened Outcomes

  /** Strictly increasing indices into a list of `n` elements. */
  predicate Increasing(a: seq<int>, n: int) {
    && (forall i | 0 <= i < |a| :: 0 <= a[i] < n)
    && (forall i, j | 0 <= i < j < |a| :: a[i] < a[j])
  }

  /** `a` and `b` agree before position `d` and `a` is smaller at `d`. */
  predicate DiffersAt(a: seq<int>, b: seq<int>, d: int) {
    && 0 <= d < |a| == |b|
    && (forall i | 0 <= i < d :: a[i] == b[i])
    && a[d] < b[d]
  }

  /** Lexicographic order on tuples of one length. */
  ghost predicate LexLess(a: seq<int>, b: seq<int>) {
    exists d :: DiffersAt(a, b, d)
  }

  lemma LexTrans(a: seq<int>, b: seq<int>, c: seq<int>)
    requires LexLess(a, b) && LexLess(b, c)
    ensures LexLess(a, c)
  {
    var d :| DiffersAt(a, b, d);
    var e :| DiffersAt(b, c, e);
    var f := if d < e then d else e;
    assert DiffersAt(a, c, f);
  }

  lemma LexIrreflexive(a: seq<int>)
    ensures !LexLess(a, a)
  {
  }

  /** Tuples of one length that agree up to `from` and are no smaller from there on are
      equal or in order. */
  lemma {:induction false} LexAtLeast(b: seq<int>, c: seq<int>, from: int)
    requires 0 <= from <= |b| == |c|
    requires forall i | 0 <= i < from :: b[i] == c[i]
    requires forall i | from <= i < |b| :: b[i] <= c[i]
    ensures c == b || LexLess(b, c)
    decreases |b| - from
  {
    if from < |b| {
      if b[from] < c[from] {
        assert DiffersAt(b, c, from);
      } else {
        LexAtLeast(b, c, from + 1);
      }
    }
  }

  /** In an increasing tuple the gaps are at least the distance. */
  lemma {:induction false} Spacing(a: seq<int>, n: int, i: int, j: int)
    requires Increasing(a, n) && 0 <= i <= j < |a|
    ensures a[j] - a[i] >= j - i
    decreases j - i
  {
    if i < j {
      Spacing(a, n, i + 1, j);
    }
  }

  /** The largest value position `i` of an increasing k-tuple can hold: n - k + i. */
  function Top(n: int, k: int, i: int): int {
    n - k + i
  }

  lemma Ceiling(a: seq<int>, n: int, i: int)
    requires Increasing(a, n) && 0 <= i < |a|
    ensures a[i] <= Top(n, |a|, i)
  {
    Spacing(a, n, i, |a| - 1);
  }

  // ---------------------------------------------------------------- the state machine

  /** The first combination: [0, 1, ..., k - 1]. */
  function First(k: nat): (r: seq<int>)
    ensures |r| == k && forall i | 0 <= i < k :: r[i] == i
  {
    seq(k, i => i)
  }

  /** `m` consecutive values from `x`. */
  function Run(x: int, m: nat): (r: seq<int>)
    ensures |r| == m && forall i | 0 <= i < m :: r[i] == x + i
  {
    seq(m, i => x + i)
  }

  /** The scan from position `t` leftwards for a position below its ceiling; -1 if none. */
  function PivotFrom(a: seq<int>, n: int, t: int): (r: int)
    requires -1 <= t < |a|
    ensures -1 <= r <= t
    ensures r >= 0 ==> a[r] < Top(n, |a|, r)
    ensures forall i | r < i <= t :: a[i] >= Top(n, |a|, i)
    decreases t + 1
  {
    if t < 0 then -1
    else if a[t] < Top(n, |a|, t) then t
    else PivotFrom(a, n, t - 1)
  }

  /** The step to the next combination: the rightmost position that can still move right
      moves one place and the positions after it follow it closely; none when every
      position is at its ceiling. */
  function Next(a: seq<int>, n: int): Option<seq<int>> {
    var t := PivotFrom(a, n, |a| - 1);
    if t < 0 then None else Some(a[..t] + Run(a[t] + 1, |a| - t))
  }

  /** A position below its ceiling is found by the scan. */
  lemma {:induction false} PivotAtLeast(a: seq<int>, n: int, t: int, d: int)
    requires 0 <= d <= t < |a| && a[d] < Top(n, |a|, d)
    ensures PivotFrom(a, n, t) >= d
    decreases t
  {
    if a[t] >= Top(n, |a|, t) {
      PivotAtLeast(a, n, t - 1, d);
    }
  }

  /** The step gives the lexicographic successor: an increasing tuple, larger, and no
      larger than any tuple above `a`. */
  lemma NextSuccessor(a: seq<int>, n: int)
    requires Increasing(a, n) && Next(a, n).Some?
    ensures Increasing(Next(a, n).value, n) && |Next(a, n).value| == |a|
    ensures LexLess(a, Next(a, n).value)
    ensures forall c | Increasing(c, n) && |c| == |a| && LexLess(a, c) :: c == Next(a, n).value || LexLess(Next(a, n).value, c)
  {
    var k := |a|;
    var t := PivotFrom(a, n, k - 1);
    var b := Next(a, n).value;
    assert forall i | 0 <= i < t :: b[i] == a[i];
    assert forall i | t <= i < k :: b[i] == a[t] + 1 + (i - t);
    forall i | t < i < k ensures a[i] == Top(n, k, i) {
      Ceiling(a, n, i);
    }
    assert b[k - 1] < n by {
      if t < k - 1 {
        assert a[k - 1] == Top(n, k, k - 1);
        Spacing(a, n, t, k - 1);
      }
    }
    assert DiffersAt(a, b, t);
    forall c | Increasing(c, n) && |c| == k && LexLess(a, c) ensures c == b || LexLess(b, c) {
      var d :| DiffersAt(a, c, d);
      Ceiling(c, n, d);
      assert d <= t;
      if d < t {
        assert DiffersAt(b, c, d);
      } else {
        forall i | t <= i < k ensures b[i] <= c[i] {
          Spacing(c, n, t, i);
        }
        LexAtLeast(b, c, t);
      }
    }
  }

  /** With no step left there is no larger tuple. */
  lemma NextLast(a: seq<int>, n: int)
    requires Increasing(a, n) && Next(a, n).None?
    ensures forall c | Increasing(c, n) && |c| == |a| :: !LexLess(a, c)
  {
    forall c, d | Increasing(c, n) && |c| == |a| && 0 <= d < |a| ensures !DiffersAt(a, c, d) {
      Ceiling(c, n, d);
    }
  }

  /** With a larger tuple there is a step. */
  lemma NextExists(a: seq<int>, n: int, c: seq<int>)
    requires Increasing(a, n) && Increasing(c, n) && |c| == |a| && LexLess(a, c)
    ensures Next(a, n).Some?
  {
    var d :| DiffersAt(a, c, d);
    Ceiling(c, n, d);
    PivotAtLeast(a, n, |a| - 1, d);
  }

  /** The first combination is the least one. */
  lemma FirstLeast(k: nat, n: int, c: seq<int>)
    requires Increasing(c, n) && |c| == k
    ensures c == First(k) || LexLess(First(k), c)
  {
    forall i | 0 <= i < k ensures i <= c[i] {
      if i > 0 {
        Spacing(c, n, 0, i);
      }
    }
    LexAtLeast(First(k), c, 0);
  }

  // ---------------------------------------------------------------- termination

  function Pow(b: nat, m: nat): nat {
    if m == 0 then 1 else b * Pow(b, m - 1)
  }

  /** The tuple read as a number in base `b`. */
  function Value(a: seq<int>, b: nat): int {
    if a == [] then 0 else Value(a[..|a| - 1], b) * b + a[|a| - 1]
  }

  lemma {:induction false} ValueAppend(p: seq<int>, q: seq<int>, b: nat)
    ensures Value(p + q, b) == Value(p, b) * Pow(b, |q|) + Value(q, b)
    decreases |q|
  {
    if q == [] {
      assert p + q == p;
    } else {
      var q', x := q[..|q| - 1], q[|q| - 1];
      assert (p + q)[..|p + q| - 1] == p + q';
      ValueAppend(p, q', b);
      assert Value(p + q, b) == (Value(p, b) * Pow(b, |q'|) + Value(q', b)) * b + x;
      assert Value(q, b) == Value(q', b) * b + x;
      Horner(Value(p, b), Pow(b, |q'|), Value(q', b), b, x);
    }
  }

  lemma Horner(u: int, w: int, v: int, b: int, x: int)
    ensures (u * w + v) * b + x == u * (b * w) + (v * b + x)
  {
  }

  lemma Digit(v: int, w: int, b: int, x: int)
    requires 0 <= v < w && 0 <= x < b
    ensures 0 <= v * b + x < b * w
  {
    assert v * b <= (w - 1) * b;
  }

  lemma {:induction false} ValueBound(q: seq<int>, b: nat)
    requires forall i | 0 <= i < |q| :: 0 <= q[i] < b
    ensures 0 <= Value(q, b) < Pow(b, |q|)
    decreases |q|
  {
    if q != [] {
      var q', x := q[..|q| - 1], q[|q| - 1];
      ValueBound(q', b);
      assert Value(q, b) == Value(q', b) * b + x;
      Digit(Value(q', b), Pow(b, |q'|), b, x);
    }
  }

  /** The lexicographic order is the order of the values. */
  lemma LexValue(a: seq<int>, c: seq<int>, b: nat, d: int)
    requires DiffersAt(a, c, d)
    requires forall i | 0 <= i < |a| :: 0 <= a[i] < b
    requires forall i | 0 <= i < |c| :: 0 <= c[i] < b
    ensures Value(a, b) < Value(c, b)
  {
    SplitValue(a, d, b);
    SplitValue(c, d, b);
    assert a[..d] == c[..d];
    var ra, rc := a[d + 1..], c[d + 1..];
    ValueBound(ra, b);
    ValueBound(rc, b);
    StepValue(a[d], c[d], Value(ra, b), Value(rc, b), Pow(b, |a| - d - 1));
  }

  /** A tuple's value split at position `d`: the prefix, the digit, the rest. */
  lemma SplitValue(a: seq<int>, d: int, b: nat)
    requires 0 <= d < |a|
    ensures Value(a, b) == Value(a[..d], b) * Pow(b, |a| - d) + (a[d] * Pow(b, |a| - d - 1) + Value(a[d + 1..], b))
  {
    var rest := a[d + 1..];
    assert a == a[..d] + ([a[d]] + rest);
    ValueAppend(a[..d], [a[d]] + rest, b);
    ValueAppend([a[d]], rest, b);
    assert Value([a[d]], b) == a[d] by {
      assert [a[d]][..0] == [];
    }
  }

  lemma StepValue(x: int, y: int, u: int, v: int, w: int)
    requires 0 <= x < y && 0 <= u < w && 0 <= v
    ensures x * w + u < y * w + v
  {
    assert (x + 1) * w <= y * w;
  }

  /** What decreases along the walk: the distance of the value from its bound. */
  function Distance(a: seq<int>, n: int): int
    requires n >= 0
  {
    Pow(n + 1, |a|) - Value(a, n + 1)
  }

  lemma NextCloser(a: seq<int>, n: int)
    requires n >= 0 && Increasing(a, n) && Next(a, n).Some?
    ensures 0 <= Distance(Next(a, n).value, n) < Distance(a, n)
  {
    NextSuccessor(a, n);
    var c := Next(a, n).value;
    var d :| DiffersAt(a, c, d);
    LexValue(a, c, n + 1, d);
    ValueBound(c, n + 1);
  }

  // ---------------------------------------------------------------- the enumeration

  /** The tuples the state machine visits from `a` on, `a` first. */
  function Walk(a: seq<int>, n: int): (r: seq<seq<int>>)
    requires n >= 0 && Increasing(a, n)
    ensures r != [] && r[0] == a
    decreases Distance(a, n)
  {
    match Next(a, n)
    case None => [a]
    case Some(c) =>
      assert Increasing(c, n) && 0 <= Distance(c, n) < Distance(a, n) by {
        NextSuccessor(a, n);
        NextCloser(a, n);
      }
      [a] + Walk(c, n)
  }

  /** After `a` the walk continues with the walk from the next tuple. */
  lemma WalkCons(a: seq<int>, n: int)
    requires n >= 0 && Increasing(a, n) && Next(a, n).Some?
    ensures Increasing(Next(a, n).value, n) && 0 <= Distance(Next(a, n).value, n) < Distance(a, n)
    ensures |Walk(a, n)| == |Walk(Next(a, n).value, n)| + 1
    ensures forall i | 0 < i < |Walk(a, n)| :: Walk(a, n)[i] == Walk(Next(a, n).value, n)[i - 1]
  {
    NextSuccessor(a, n);
    NextCloser(a, n);
  }

  /** The walk visits increasing tuples of the length of `a`. */
  lemma {:induction false} WalkShape(a: seq<int>, n: int)
    requires n >= 0 && Increasing(a, n)
    ensures forall i | 0 <= i < |Walk(a, n)| :: Increasing(Walk(a, n)[i], n) && |Walk(a, n)[i]| == |a|
    decreases Distance(a, n)
  {
    if Next(a, n).Some? {
      var c := Next(a, n).value;
      WalkCons(a, n);
      NextSuccessor(a, n);
      WalkShape(c, n);
    }
  }

  /** Every tuple the walk visits after `a` is larger than `a`. */
  lemma {:induction false} WalkAbove(a: seq<int>, n: int)
    requires n >= 0 && Increasing(a, n)
    ensures forall i | 0 < i < |Walk(a, n)| :: LexLess(a, Walk(a, n)[i])
    decreases Distance(a, n)
  {
    if Next(a, n).Some? {
      var c := Next(a, n).value;
      WalkCons(a, n);
      NextSuccessor(a, n);
      WalkAbove(c, n);
      var w, wc := Walk(a, n), Walk(c, n);
      forall i | 1 < i < |w| ensures LexLess(a, w[i]) {
        LexTrans(a, c, wc[i - 1]);
      }
    }
  }

  /** The walk visits its tuples in strictly increasing lexicographic order, so each once. */
  lemma {:induction false} WalkSorted(a: seq<int>, n: int)
    requires n >= 0 && Increasing(a, n)
    ensures forall i, j | 0 <= i < j < |Walk(a, n)| :: LexLess(Walk(a, n)[i], Walk(a, n)[j])
    decreases Distance(a, n)
  {
    WalkAbove(a, n);
    if Next(a, n).Some? {
      var c := Next(a, n).value;
      WalkCons(a, n);
      WalkSorted(c, n);
    }
  }

  lemma {:induction false} WalkCovers(a: seq<int>, n: int, c: seq<int>)
    requires n >= 0 && Increasing(a, n) && Increasing(c, n) && |c| == |a|
    requires c == a || LexLess(a, c)
    ensures c in Walk(a, n)
    decreases Distance(a, n)
  {
    if c != a {
      NextExists(a, n, c);
      var b := Next(a, n).value;
      NextSuccessor(a, n);
      WalkCons(a, n);
      WalkCovers(b, n, c);
    }
  }

  /** The index tuples `Choose` visits: every increasing k-tuple, each once, in
      lexicographic order. */
  function Tuples(n: nat, k: nat): (r: seq<seq<int>>)
    requires k <= n
    ensures forall i | 0 <= i < |r| :: Increasing(r[i], n) && |r[i]| == k
    ensures forall i, j | 0 <= i < j < |r| :: LexLess(r[i], r[j])
    ensures forall c | Increasing(c, n) && |c| == k :: c in r
  {
    WalkShape(First(k), n);
    WalkSorted(First(k), n);
    forall c | Increasing(c, n) && |c| == k ensures c in Walk(First(k), n) {
      FirstLeast(k, n, c);
      WalkCovers(First(k), n, c);
    }
    Walk(First(k), n)
  }

  /** The elements at the indices. */
  function Pick(source: seq<int>, a: seq<int>): (r: seq<int>)
    requires forall i | 0 <= i < |a| :: 0 <= a[i] < |source|
    ensures |r| == |a| && forall i | 0 <= i < |a| :: r[i] == source[a[i]]
  {
    seq(|a|, i requires 0 <= i < |a| => source[a[i]])
  }

  /** `Choose(source, k)`: a negative size fails to allocate the index array, a size
      larger than the list indexes past its end; otherwise the elements at each index tuple
      in turn. */
  function Choose(source: seq<int>, k: int): (r: Result<seq<seq<int>>>)
    ensures k < 0 ==> r == Fail(Overflow)
    ensures k > |source| ==> r == Fail(IndexOutOfRange)
    ensures r.Ok? <==> 0 <= k <= |source|
    ensures r.Ok? ==> |r.value| == |Tuples(|source|, k)|
    ensures r.Ok? ==> forall i | 0 <= i < |r.value| :: r.value[i] == Pick(source, Tuples(|source|, k)[i])
  {
    if k < 0 then Fail(Overflow)
    else if k > |source| then Fail(IndexOutOfRange)
    else
      var ts := Tuples(|source|, k);
      Ok(seq(|ts|, i requires 0 <= i < |ts| => Pick(source, ts[i])))
  }

  /** With k = 0 the one combination is the empty one. */
  lemma ChooseNone(source: seq<int>)
    ensures Choose(source, 0) == Ok([[]])
  {
    var ts := Tuples(|source|, 0);
    assert Increasing([], |source|);
    assert [] in ts;
    forall a: seq<int>, b: seq<int> | |a| == 0 ensures !LexLess(a, b) {
    }
    assert |ts| == 1;
    assert ts[0] == [];
    var r := Choose(source, 0).value;
    assert |r| == 1 && r[0] == Pick(source, []) == [];
    assert r == [[]];
  }
}
