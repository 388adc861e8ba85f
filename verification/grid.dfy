/** Nested counting loops that emit one packed cell per iteration, in iteration order. */
module Grid {

  /** `for a in [0, n) for b in [0, m) emit f(a, b)`. */
  function Grid2(n: nat, m: nat, f: (int, int) -> int): seq<int>
  {
    if n == 0 then [] else Grid2(n - 1, m, f) + seq(m, b => f(n - 1, b))
  }

  /** `for a in [0, n) for b in [0, m) for c in [0, l) emit f(a, b, c)`. */
  function Grid3(n: nat, m: nat, l: nat, f: (int, int, int) -> int): seq<int>
  {
    if n == 0 then [] else Grid3(n - 1, m, l, f) + Grid2(m, l, (b, c) => f(n - 1, b, c))
  }

  /** Two nested loops run `n * m` times and emit exactly the values `f(a, b)`. */
  lemma {:induction false} Grid2Facts(n: nat, m: nat, f: (int, int) -> int)
    ensures |Grid2(n, m, f)| == n * m
    ensures forall a, b | 0 <= a < n && 0 <= b < m :: f(a, b) in Grid2(n, m, f)
    ensures forall v | v in Grid2(n, m, f) :: exists a, b | 0 <= a < n && 0 <= b < m :: v == f(a, b)
  {
    if n > 0 {
      Grid2Facts(n - 1, m, f);
      var p, t := Grid2(n - 1, m, f), seq(m, b => f(n - 1, b));
      assert Grid2(n, m, f) == p + t;
      assert (n - 1) * m + m == n * m;
      forall a, b | 0 <= a < n && 0 <= b < m ensures f(a, b) in p + t {
        if a == n - 1 {
          assert t[b] == f(a, b);
        } else {
          assert f(a, b) in p;
        }
      }
      forall v | v in p + t ensures exists a, b | 0 <= a < n && 0 <= b < m :: v == f(a, b) {
        if v in p {
        } else {
          var b :| 0 <= b < m && t[b] == v;
          assert v == f(n - 1, b);
        }
      }
    }
  }

  /** Three nested loops run `n * m * l` times and emit exactly the values `f(a, b, c)`. */
  lemma Grid3Facts(n: nat, m: nat, l: nat, f: (int, int, int) -> int)
    ensures |Grid3(n, m, l, f)| == n * m * l
    ensures forall a, b, c | 0 <= a < n && 0 <= b < m && 0 <= c < l :: f(a, b, c) in Grid3(n, m, l, f)
    ensures forall v | v in Grid3(n, m, l, f) ::
      exists a, b, c | 0 <= a < n && 0 <= b < m && 0 <= c < l :: v == f(a, b, c)
  {
    Grid3Length(n, m, l, f);
    forall a, b, c | 0 <= a < n && 0 <= b < m && 0 <= c < l ensures f(a, b, c) in Grid3(n, m, l, f) {
      Grid3Has(n, m, l, f, a, b, c);
    }
    forall v | v in Grid3(n, m, l, f) ensures exists a, b, c | 0 <= a < n && 0 <= b < m && 0 <= c < l :: v == f(a, b, c) {
      Grid3Only(n, m, l, f, v);
    }
  }

  lemma {:induction false} Grid3Length(n: nat, m: nat, l: nat, f: (int, int, int) -> int)
    ensures |Grid3(n, m, l, f)| == n * (m * l)
  {
    if n > 0 {
      Grid3Length(n - 1, m, l, f);
      Grid2Facts(m, l, (b, c) => f(n - 1, b, c));
    }
  }

  lemma {:induction false} Grid3Has(n: nat, m: nat, l: nat, f: (int, int, int) -> int, a: int, b: int, c: int)
    requires 0 <= a < n && 0 <= b < m && 0 <= c < l
    ensures f(a, b, c) in Grid3(n, m, l, f)
  {
    var g := (b, c) => f(n - 1, b, c);
    if a == n - 1 {
      Grid2Facts(m, l, g);
      assert g(b, c) in Grid2(m, l, g);
    } else {
      Grid3Has(n - 1, m, l, f, a, b, c);
    }
  }

  lemma {:induction false} Grid3Only(n: nat, m: nat, l: nat, f: (int, int, int) -> int, v: int)
    requires v in Grid3(n, m, l, f)
    ensures exists a, b, c | 0 <= a < n && 0 <= b < m && 0 <= c < l :: v == f(a, b, c)
  {
    var g := (b, c) => f(n - 1, b, c);
    if v in Grid3(n - 1, m, l, f) {
      Grid3Only(n - 1, m, l, f, v);
    } else {
      Grid2Facts(m, l, g);
      var b, c :| 0 <= b < m && 0 <= c < l && v == g(b, c);
      assert v == f(n - 1, b, c);
    }
  }

  /** The iteration that emits `f(a, b)` is number `a * m + b`. */
  lemma {:induction false} Grid2At(n: nat, m: nat, f: (int, int) -> int, a: nat, b: nat)
    requires a < n && b < m
    ensures a * m + b < |Grid2(n, m, f)|
    ensures Grid2(n, m, f)[a * m + b] == f(a, b)
  {
    Grid2Facts(n, m, f);
    Grid2Facts(n - 1, m, f);
    var p := Grid2(n - 1, m, f);
    if a < n - 1 {
      Grid2At(n - 1, m, f, a, b);
    } else {
      assert a * m == |p|;
    }
  }

  /** Loops with pointwise-equal bodies emit the same sequence. */
  lemma {:induction false} Grid2Congruent(n: nat, m: nat, f: (int, int) -> int, g: (int, int) -> int)
    requires forall a, b | 0 <= a < n && 0 <= b < m :: f(a, b) == g(a, b)
    ensures Grid2(n, m, f) == Grid2(n, m, g)
  {
    if n > 0 {
      Grid2Congruent(n - 1, m, f, g);
      assert seq(m, b => f(n - 1, b)) == seq(m, b => g(n - 1, b));
    }
  }
}
