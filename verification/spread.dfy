/** Where the tiles of a level may be: on the board, in a slot or in the corral, they keep
    their geometry and their index. A tile's `Shape` forgets its zone and its flags; moves
    shuffle tiles between zones but keep the bag of shapes, and whatever depends on shapes
    alone (fitting the board, distinct indices) carries over. */
module Spreads {
  import opened Packed
  import opened Tiles
  import opened Pastures
  import opened PastureEdits

  /** The tile's caches agree with its geometry, and its top face lies on the board's
      layers and plane. */
  ghost predicate Fitting(p: Pasture, t: Tile) {
    && WellFormed(t) && Z(t.volume) >= 1 && 0 <= t.topZ < p.maxLayer
    && forall q | q in t.topCoordinates :: X(q) < p.maxCol && Y(q) < p.maxRow
  }

  /** The tiles all fit the board and no two share an index. */
  ghost predicate Spread(p: Pasture, ts: seq<Tile>) {
    (forall i | 0 <= i < |ts| :: Fitting(p, ts[i])) && DistinctIndices(ts)
  }

  /** The tile without its zone and its flags. */
  function Shape(t: Tile): (r: Tile)
    ensures r.index == t.index && r.color == t.color
  {
    t.(zone := PastureZone, locked := false, visible := false)
  }

  function Shapes(ts: seq<Tile>): (r: seq<Tile>)
    ensures |r| == |ts| && forall i | 0 <= i < |ts| :: r[i] == Shape(ts[i])
  {
    seq(|ts|, i requires 0 <= i < |ts| => Shape(ts[i]))
  }

  /** The bag of shapes of the tiles. */
  function ShapeBag(ts: seq<Tile>): multiset<Tile> {
    multiset(Shapes(ts))
  }

  /** Fitting depends on the shape alone, and on the board's size alone. */
  lemma FittingShape(p: Pasture, q: Pasture, t: Tile, u: Tile)
    requires SameSize(p, q) && Shape(t) == Shape(u)
    ensures Fitting(p, t) == Fitting(q, u)
  {
    assert t.coordinates == u.coordinates && t.topCoordinates == u.topCoordinates by {
      assert Shape(t).coordinates == Shape(u).coordinates;
      assert Shape(t).topCoordinates == Shape(u).topCoordinates;
    }
  }

  lemma ShapesAppend(a: seq<Tile>, b: seq<Tile>)
    ensures ShapeBag(a + b) == ShapeBag(a) + ShapeBag(b)
  {
    assert Shapes(a + b) == Shapes(a) + Shapes(b);
  }

  /** Moving tiles to another zone keeps their shapes. */
  lemma ShapesInZone(ts: seq<Tile>, zone: Zone)
    ensures Shapes(InZone(ts, zone)) == Shapes(ts)
  {
  }

  /** Recomputing flags keeps the shapes. */
  lemma ShapesReflags(ts: seq<Tile>, us: seq<Tile>)
    requires Reflags(ts, us)
    ensures Shapes(us) == Shapes(ts)
  {
    forall i | 0 <= i < |ts| ensures Shape(us[i]) == Shape(ts[i]) {
      assert Bare(us[i]) == Bare(ts[i]);
    }
  }

  /** Dropping the tile at `k` drops one copy of its shape. */
  lemma ShapesRemoveAt(ts: seq<Tile>, k: int)
    requires 0 <= k < |ts|
    ensures ShapeBag(ts) == ShapeBag(RemoveAt(ts, k)) + multiset{Shape(ts[k])}
  {
    var ss := Shapes(ts);
    DropAt(ss, k);
    assert Shapes(RemoveAt(ts, k)) == ss[..k] + ss[k + 1..];
  }

  /** The bag of shapes is the image of the bag of tiles. */
  lemma {:induction false} ShapesMultiset(a: seq<Tile>, b: seq<Tile>)
    requires multiset(a) == multiset(b)
    ensures ShapeBag(a) == ShapeBag(b)
    decreases |a|
  {
    if a == [] {
      assert b == [] by { assert |multiset(b)| == |b|; }
    } else {
      var t := a[|a| - 1];
      var a' := a[..|a| - 1];
      assert a == a' + [t];
      assert t in b by {
        assert t in multiset(b);
      }
      var j :| 0 <= j < |b| && b[j] == t;
      var b' := RemoveAt(b, j);
      assert multiset(a') == multiset(b') by {
        DropAt(b, j);
        Cancel(multiset(a'), multiset(b'), t);
      }
      ShapesMultiset(a', b');
      assert ShapeBag(b) == ShapeBag(b') + multiset{Shape(t)} by {
        ShapesRemoveAt(b, j);
      }
      assert ShapeBag(a) == ShapeBag(a') + multiset{Shape(t)} by {
        ShapesAppend(a', [t]);
        assert Shapes([t]) == [Shape(t)];
      }
    }
  }

  /** With distinct indices no tile occurs twice. */
  lemma {:induction false} DistinctCounts(ts: seq<Tile>)
    requires DistinctIndices(ts)
    ensures forall x :: multiset(ts)[x] <= 1
    decreases |ts|
  {
    if ts != [] {
      var last := ts[|ts| - 1];
      var front := ts[..|ts| - 1];
      assert ts == front + [last];
      assert DistinctIndices(front) by {
        assert forall i | 0 <= i < |front| :: front[i] == ts[i];
      }
      DistinctCounts(front);
      assert forall i | 0 <= i < |front| :: front[i] != last by {
        assert forall i | 0 <= i < |front| :: front[i] == ts[i];
      }
      assert multiset(front)[last] == 0;
    }
  }

  /** Two positions of a list hold two copies of the list's bag. */
  lemma PairWithin<T>(s: seq<T>, i: int, j: int)
    requires 0 <= i < j < |s|
    ensures multiset{s[i]} + multiset{s[j]} <= multiset(s)
  {
    assert s == s[..j] + [s[j]] + s[j + 1..];
    assert s[..j][i] == s[i];
  }

  /** Distinct indices survive a reordering. */
  lemma DistinctPerm(a: seq<Tile>, b: seq<Tile>)
    requires multiset(a) == multiset(b) && DistinctIndices(a)
    ensures DistinctIndices(b)
  {
    DistinctCounts(a);
    forall i, j | 0 <= i < |b| && 0 <= j < |b| && i < j ensures b[i].index != b[j].index {
      PairWithin(b, i, j);
      assert b[i] != b[j];
      assert b[i] in multiset(a) && b[j] in multiset(a);
      var i' :| 0 <= i' < |a| && a[i'] == b[i];
      var j' :| 0 <= j' < |a| && a[j'] == b[j];
    }
  }

  lemma DistinctShapes(ts: seq<Tile>)
    ensures DistinctIndices(Shapes(ts)) == DistinctIndices(ts)
  {
  }

  /** A spread of tiles stays a spread when its bag of shapes is kept, on a board of the
      same size. */
  lemma SpreadTransfer(p: Pasture, q: Pasture, ts: seq<Tile>, us: seq<Tile>)
    requires Spread(p, ts) && SameSize(p, q) && ShapeBag(us) == ShapeBag(ts)
    ensures Spread(q, us)
  {
    forall i | 0 <= i < |us| ensures Fitting(q, us[i]) {
      assert Shapes(us)[i] in multiset(Shapes(ts));
      var j :| 0 <= j < |ts| && Shapes(ts)[j] == Shape(us[i]);
      FittingShape(p, q, ts[j], us[i]);
    }
    DistinctShapes(ts);
    DistinctPerm(Shapes(ts), Shapes(us));
    DistinctShapes(us);
  }
}
