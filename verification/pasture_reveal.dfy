/** Which board tiles lie under a tile (`Expand`) and which hold it down (`LockersOf`).
    Both read the cell index of the pasture at the cells just below or just above a tile.
    The board looks at those cells with the default (2, 2, 1) volume; the footprint of the
    tile's own volume is the corrected reading (see `Footprint`). */
module PastureReveal {
  import opened Outcomes
  import opened Packed
  import opened LockStatus
  import opened Tiles
  import opened Pastures

  /** Whose volume spans the neighbour cells: the default one, as the board passes no
      volume, or the tile's own. */
  datatype Footprint = DefaultFootprint | OwnFootprint

  function VolumeArg(t: Tile, f: Footprint): Option<int> {
    if f == OwnFootprint then Some(t.volume) else None
  }

  /** The own footprint spans the tile's volume. */
  lemma OwnDims(t: Tile)
    ensures Dx(VolumeArg(t, OwnFootprint)) == X(t.volume)
    ensures Dy(VolumeArg(t, OwnFootprint)) == Y(t.volume)
    ensures Dz(VolumeArg(t, OwnFootprint)) == Z(t.volume)
  {
  }

  /** The cells just below the tile. */
  function BelowCells(t: Tile, f: Footprint): seq<int> {
    Down(t.position, VolumeArg(t, f))
  }

  /** The cells just above the tile. */
  function AboveCells(t: Tile, f: Footprint): seq<int> {
    Up(t.position, VolumeArg(t, f))
  }

  /** The board tiles occupying some of the cells, in cell order, each once: what a
      `HashSet<Tile>` filled from `PosTileDict` hits holds, in insertion order. */
  function Hits(posTile: map<int, int>, cells: seq<int>): (r: seq<int>)
    ensures forall k :: k in r <==> exists c | c in cells :: c in posTile && posTile[c] == k
  {
    Dedup(Found(posTile, cells))
  }

  function Found(posTile: map<int, int>, cells: seq<int>): (r: seq<int>)
    ensures forall k :: k in r <==> exists c | c in cells :: c in posTile && posTile[c] == k
  {
    if cells == [] then []
    else
      var rest := Found(posTile, cells[1..]);
      assert forall c | c in cells :: c == cells[0] || c in cells[1..];
      (if cells[0] in posTile then [posTile[cells[0]]] else []) + rest
  }

  /** The list without repeats, first occurrences kept in order. */
  function Dedup(s: seq<int>): (r: seq<int>)
    ensures forall k :: k in r <==> k in s
    ensures forall i, j | 0 <= i < j < |r| :: r[i] != r[j]
  {
    if s == [] then []
    else
      var rest := Dedup(s[..|s| - 1]);
      assert forall k | k in s :: k in s[..|s| - 1] || k == s[|s| - 1];
      if s[|s| - 1] in rest then rest else rest + [s[|s| - 1]]
  }

  // ---------------------------------------------------------------- expanding

  /** Every board tile at a cell just below the tile joins the expanders. */
  function ExpandWith(p: Pasture, t: Tile, expanders: set<int>, f: Footprint): (r: set<int>)
    ensures expanders <= r
    ensures forall k | k in r - expanders :: exists c | c in BelowCells(t, f) :: c in p.posTile && p.posTile[c] == k
    ensures forall c | c in BelowCells(t, f) && c in p.posTile :: p.posTile[c] in r
  {
    expanders + set k | k in Hits(p.posTile, BelowCells(t, f))
  }

  /** `Expand` as written: the cells below are taken with the default (2, 2, 1) volume,
      whatever the tile's own volume. */
  function Expand(p: Pasture, t: Tile, expanders: set<int>): (r: set<int>)
    ensures expanders <= r
    ensures forall k | k in r - expanders :: exists c | c in Down(t.position) :: c in p.posTile && p.posTile[c] == k
    ensures forall c | c in Down(t.position) && c in p.posTile :: p.posTile[c] in r
  {
    ExpandWith(p, t, expanders, DefaultFootprint)
  }

  /** `Expand` over the tile's own footprint. */
  function ExpandUnder(p: Pasture, t: Tile, expanders: set<int>): (r: set<int>)
    ensures expanders <= r
  {
    ExpandWith(p, t, expanders, OwnFootprint)
  }

  /** Through a faithful cell index, the cells name exactly the tiles whose boxes hold them. */
  lemma BoardHits(ts: seq<Tile>, posTile: map<int, int>, cells: seq<int>, k: int)
    requires CellIndexed(ts, posTile)
    ensures (exists c | c in cells :: c in posTile && posTile[c] == k) <==>
      exists i, c | 0 <= i < |ts| && c in cells :: c in ts[i].coordinates && ts[i].index == k
  {
    if exists c | c in cells :: c in posTile && posTile[c] == k {
      var c :| c in cells && c in posTile && posTile[c] == k;
      var i :| 0 <= i < |ts| && c in ts[i].coordinates;
    }
  }

  /** The tiles whose box holds one of the shifted footprint cells `Offset(.., a, b, dz)`. */
  ghost predicate AtFootprint(ts: seq<Tile>, t: Tile, dz: int, k: int) {
    exists i, a, b | 0 <= i < |ts| && 0 <= a < X(t.volume) && 0 <= b < Y(t.volume) ::
      Offset(t.position, a, b, dz) in ts[i].coordinates && ts[i].index == k
  }

  /** The tiles at some of the cells equal the tiles at some shifted footprint cell, when the
      cells are exactly those shifted footprint cells. */
  lemma FootprintHits(ts: seq<Tile>, t: Tile, cells: seq<int>, dz: int, k: int)
    requires forall a, b | 0 <= a < X(t.volume) && 0 <= b < Y(t.volume) :: Offset(t.position, a, b, dz) in cells
    requires forall c | c in cells :: exists a, b | 0 <= a < X(t.volume) && 0 <= b < Y(t.volume) :: c == Offset(t.position, a, b, dz)
    ensures (exists i, c | 0 <= i < |ts| && c in cells :: c in ts[i].coordinates && ts[i].index == k) <==> AtFootprint(ts, t, dz, k)
  {
    if exists i, c | 0 <= i < |ts| && c in cells :: c in ts[i].coordinates && ts[i].index == k {
      var i, c :| 0 <= i < |ts| && c in cells && c in ts[i].coordinates && ts[i].index == k;
      var a, b :| 0 <= a < X(t.volume) && 0 <= b < Y(t.volume) && c == Offset(t.position, a, b, dz);
      assert Offset(t.position, a, b, dz) in ts[i].coordinates;
    }
    if AtFootprint(ts, t, dz, k) {
      var i, a, b :| 0 <= i < |ts| && 0 <= a < X(t.volume) && 0 <= b < Y(t.volume) &&
        Offset(t.position, a, b, dz) in ts[i].coordinates && ts[i].index == k;
      assert Offset(t.position, a, b, dz) in cells;
    }
  }

  /** On a board whose cell index is faithful, what `ExpandUnder` adds is exactly the board
      tiles whose box holds a cell just below the tile's footprint. */
  lemma ExpandUnderMeans(p: Pasture, t: Tile, expanders: set<int>, k: int)
    requires CellIndexed(p.tiles, p.posTile) && k !in expanders
    ensures k in ExpandUnder(p, t, expanders) <==> AtFootprint(p.tiles, t, -1, k)
  {
    var below := BelowCells(t, OwnFootprint);
    assert (k in ExpandUnder(p, t, expanders)) <==> exists c | c in below :: c in p.posTile && p.posTile[c] == k;
    BoardHits(p.tiles, p.posTile, below, k);
    FootprintHits(p.tiles, t, below, -1, k);
  }

  /** A tile at least three cells wide (and at least one deep), over a board whose only cell is the one under its
      third column: `Expand` finds nothing there, while `ExpandUnder` finds the tile at
      that cell. */
  lemma ExpandMissesFarColumn(p: Pasture, t: Tile, k: int)
    requires X(t.volume) >= 3 && Y(t.volume) >= 1
    requires p.posTile == map[Offset(t.position, 2, 0, -1) := k]
    ensures Expand(p, t, {}) == {}
    ensures ExpandUnder(p, t, {}) == {k}
  {
    FarColumn(t.position, t.volume);
    assert Offset(t.position, 2, 0, -1) in BelowCells(t, OwnFootprint);
  }

  /** The cell under the third column of a box at least three wide is not among the cells
      below the default 2x2 footprint. */
  lemma FarColumn(position: int, volume: int)
    requires X(volume) >= 3 && Y(volume) >= 1
    ensures Offset(position, 2, 0, -1) in Down(position, Some(volume))
    ensures Offset(position, 2, 0, -1) !in Down(position)
  {
    FarColumnBelow(position, volume);
    FarColumnOutside(position);
  }

  lemma FarColumnBelow(position: int, volume: int)
    requires X(volume) >= 3 && Y(volume) >= 1
    ensures Offset(position, 2, 0, -1) in Down(position, Some(volume))
  {
    assert 2 < Dx(Some(volume)) && 0 < Dy(Some(volume));
  }

  lemma FarColumnOutside(position: int)
    ensures Offset(position, 2, 0, -1) !in Down(position)
  {
    var c := Offset(position, 2, 0, -1);
    OffsetComponents(position, 2, 0, -1);
    DefaultDims();
    forall d | d in Down(position) ensures X(d) != X(c) {
      var a, b :| 0 <= a < 2 && 0 <= b < 2 && d == Offset(position, a, b, -1);
      OffsetComponents(position, a, b, -1);
      Low8Apart(X(position), a, 2);
    }
  }

  /** Shifts by less than 256 apart stay apart after wrapping to a byte. */
  lemma Low8Apart(u: int, a: int, b: int)
    requires 0 <= u < 256 && 0 <= a < b < 256
    ensures Low8(u + a) != Low8(u + b)
  {
    if u + b < 256 {
    } else if u + a < 256 {
      assert Low8(u + b) == u + b - 256;
    } else {
      assert Low8(u + a) == u + a - 256;
      assert Low8(u + b) == u + b - 256;
    }
  }

  // ---------------------------------------------------------------- lockers

  /** The tiles resting on `t` through the cells just above it; nothing for an unlocked tile. */
  function Ups(p: Pasture, t: Tile, f: Footprint): set<int> {
    if t.locked then set k | k in Hits(p.posTile, AboveCells(t, f)) else {}
  }

  lemma UpsAt(p: Pasture, t: Tile, f: Footprint, k: int)
    requires t.locked
    ensures k in Ups(p, t, f) <==> exists c | c in AboveCells(t, f) :: c in p.posTile && p.posTile[c] == k
  {
  }

  /** `Ups` of the board tile with the index, nothing when no board tile has it. */
  function UpsOf(p: Pasture, k: int, f: Footprint): set<int> {
    match Lookup(p, k)
    case None => {}
    case Some(u) => Ups(p, u, f)
  }

  /** The tiles the cell index can name. */
  function Named(p: Pasture): set<int> {
    p.posTile.Values
  }

  /** The blockers still unknown; each recursive step names a new one. */
  function Unknown(p: Pasture, blocker: set<int>): nat {
    |Named(p) - blocker|
  }

  lemma UnknownShrinks(p: Pasture, b: set<int>, b': set<int>, k: int)
    requires b <= b' && k in Named(p) && k !in b && k in b'
    ensures Unknown(p, b') < Unknown(p, b)
  {
    assert k in Named(p) - b && k !in Named(p) - b';
    SubsetSize(Named(p) - b', Named(p) - b);
  }

  lemma UnknownMonotone(p: Pasture, b: set<int>, b': set<int>)
    requires b <= b'
    ensures Unknown(p, b') <= Unknown(p, b)
  {
    SubsetSize(Named(p) - b', Named(p) - b);
  }

  lemma SubsetSize(a: set<int>, b: set<int>)
    requires a <= b
    ensures |a| <= |b|
    ensures a < b ==> |a| < |b|
  {
    var d := b - a;
    assert b == a + d && a * d == {};
    if |d| == 0 {
      assert d == {};
    }
  }

  /** `LockersOf(tile, ref blocker, all)`: an unlocked tile adds nothing. Otherwise the tiles
      just above it join the blockers; with `all`, each of them not already a blocker is
      then visited in turn with the blockers gathered so far. The result holds the tiles
      just above, only tiles the board names, and, with `all`, whatever holds down a tile
      it added. */
  function LockersWith(p: Pasture, t: Tile, blocker: set<int>, all: bool, f: Footprint): (r: set<int>)
    ensures blocker <= r <= blocker + Named(p)
    ensures Ups(p, t, f) <= r
    ensures all ==> forall y | y in r - blocker :: UpsOf(p, y, f) <= r
    decreases Unknown(p, blocker), 0, 0
  {
    if !t.locked then blocker
    else
      var cur := Hits(p.posTile, AboveCells(t, f));
      assert forall k | k in cur :: k in Named(p);
      var next := blocker + set k | k in cur;
      if !all then next
      else
        var news := Fresh(cur, blocker);
        if news == [] then next
        else
          UnknownShrinks(p, blocker, next, news[0]);
          var r := VisitWith(p, news, next, f);
          assert forall y | y in r - blocker :: y in r - next || y in news;
          r
  }

  /** `foreach (var newB in newBlocker) LockersOf(newB, ref blocker, all)`: every pending
      tile has what holds it down in the result. */
  function VisitWith(p: Pasture, pending: seq<int>, blocker: set<int>, f: Footprint): (r: set<int>)
    ensures blocker <= r <= blocker + Named(p)
    ensures forall x | x in pending :: UpsOf(p, x, f) <= r
    ensures forall y | y in r - blocker :: UpsOf(p, y, f) <= r
    decreases Unknown(p, blocker), 1, |pending|
  {
    if pending == [] then blocker
    else
      var b := match Lookup(p, pending[0])
        case None => blocker
        case Some(u) => LockersWith(p, u, blocker, true, f);
      assert UpsOf(p, pending[0], f) <= b;
      assert forall y | y in b - blocker :: UpsOf(p, y, f) <= b;
      UnknownMonotone(p, blocker, b);
      var r := VisitWith(p, pending[1..], b, f);
      assert forall x | x in pending :: x == pending[0] || x in pending[1..];
      r
  }

  /** The entries of `cur` not yet in `blocker`, in order. */
  function Fresh(cur: seq<int>, blocker: set<int>): (r: seq<int>)
    ensures forall k :: k in r <==> k in cur && k !in blocker
  {
    if cur == [] then []
    else
      var rest := Fresh(cur[1..], blocker);
      assert forall k | k in cur :: k == cur[0] || k in cur[1..];
      (if cur[0] in blocker then [] else [cur[0]]) + rest
  }

  /** A set that holds the blockers, what holds `t` down, and what holds down each of its
      members beyond the blockers. */
  ghost predicate ClosedOver(p: Pasture, t: Tile, blocker: set<int>, f: Footprint, s: set<int>) {
    && blocker <= s
    && Ups(p, t, f) <= s
    && forall y | y in s - blocker :: UpsOf(p, y, f) <= s
  }

  /** `LockersOf(.., all: true)` returns the least such closed set, so the order in which
      the hash set hands out the new blockers does not matter. */
  lemma {:induction false} LockersLeast(p: Pasture, t: Tile, blocker: set<int>, f: Footprint, s: set<int>)
    requires ClosedOver(p, t, blocker, f, s)
    ensures LockersWith(p, t, blocker, true, f) <= s
    decreases Unknown(p, blocker), 0, 0
  {
    if t.locked {
      var cur := Hits(p.posTile, AboveCells(t, f));
      var next := blocker + set k | k in cur;
      var news := Fresh(cur, blocker);
      LockersStep(p, t, blocker, f);
      assert next <= s by {
        assert Ups(p, t, f) == set k | k in cur;
      }
      if news != [] {
        assert forall x | x in news :: x in s - blocker;
        UnknownShrinks(p, blocker, next, news[0]);
        VisitLeast(p, news, next, blocker, f, s);
      }
    }
  }

  /** One unfolding of `Lockers` for a locked tile and `all`. */
  lemma LockersStep(p: Pasture, t: Tile, blocker: set<int>, f: Footprint)
    requires t.locked
    ensures var cur := Hits(p.posTile, AboveCells(t, f));
      var next := blocker + set k | k in cur;
      var news := Fresh(cur, blocker);
      LockersWith(p, t, blocker, true, f) == if news == [] then next else VisitWith(p, news, next, f)
  {
  }

  lemma {:induction false} VisitLeast(p: Pasture, pending: seq<int>, blocker: set<int>, base: set<int>, f: Footprint, s: set<int>)
    requires base <= blocker <= s
    requires forall y | y in s - base :: UpsOf(p, y, f) <= s
    requires forall x | x in pending :: x in s - base
    ensures VisitWith(p, pending, blocker, f) <= s
    decreases Unknown(p, blocker), 1, |pending|
  {
    if pending != [] {
      assert forall x | x in pending[1..] :: x in pending;
      match Lookup(p, pending[0])
      case None =>
        VisitLeast(p, pending[1..], blocker, base, f, s);
      case Some(u) =>
        assert ClosedOver(p, u, blocker, f, s) by {
          assert UpsOf(p, pending[0], f) == Ups(p, u, f);
        }
        LockersLeast(p, u, blocker, f, s);
        var b := LockersWith(p, u, blocker, true, f);
        UnknownMonotone(p, blocker, b);
        VisitLeast(p, pending[1..], b, base, f, s);
    }
  }

  /** `LockersOf` as written: the cells above are taken with the default (2, 2, 1) volume,
      that is, the layer one above the tile's base over a 2x2 footprint. */
  function LockersOf(p: Pasture, t: Tile, blocker: set<int>, all: bool): (r: set<int>)
    ensures blocker <= r
    ensures !t.locked ==> r == blocker
    ensures !all ==> r == blocker + Ups(p, t, DefaultFootprint)
  {
    LockersWith(p, t, blocker, all, DefaultFootprint)
  }

  /** `LockersOf` over the layer just above the tile's own box. */
  function LockersOfOver(p: Pasture, t: Tile, blocker: set<int>, all: bool): (r: set<int>)
    ensures blocker <= r
    ensures !all ==> r == blocker + Ups(p, t, OwnFootprint)
  {
    LockersWith(p, t, blocker, all, OwnFootprint)
  }

  /** A locked board tile two layers high or more holds its own second layer in the cells
      `LockersOf` reads, so it is reported as one of its own lockers. */
  lemma LockersOfSelf(p: Pasture, i: int)
    requires CellIndexed(p.tiles, p.posTile) && 0 <= i < |p.tiles|
    requires WellFormed(p.tiles[i]) && p.tiles[i].locked
    requires X(p.tiles[i].volume) >= 1 && Y(p.tiles[i].volume) >= 1 && Z(p.tiles[i].volume) >= 2
    ensures p.tiles[i].index in LockersOf(p, p.tiles[i], {}, false)
  {
    var t := p.tiles[i];
    var c := Offset(t.position, 0, 0, 1);
    AboveSecondLayer(t);
    SecondLayerOwn(t);
    OwnCellIndexed(p.tiles, p.posTile, i, c);
  }

  /** The cells `LockersOf` reads hold the cell one layer above the position. */
  lemma AboveSecondLayer(t: Tile)
    ensures Offset(t.position, 0, 0, 1) in AboveCells(t, DefaultFootprint)
  {
    DefaultDims();
  }

  /** A box two layers high holds the cell one layer above its position. */
  lemma SecondLayerOwn(t: Tile)
    requires WellFormed(t) && X(t.volume) >= 1 && Y(t.volume) >= 1 && Z(t.volume) >= 2
    ensures Offset(t.position, 0, 0, 1) in t.coordinates
  {
    BoxCellHas(t.position, t.volume, 0, 0, 1);
  }

  /** A faithful cell index maps each cell of a tile's box to that tile. */
  lemma OwnCellIndexed(ts: seq<Tile>, posTile: map<int, int>, i: int, c: int)
    requires CellIndexed(ts, posTile) && 0 <= i < |ts| && c in ts[i].coordinates
    ensures c in posTile && posTile[c] == ts[i].index
  {
  }

  /** On a board whose cell index is faithful, what `LockersOfOver` reads for a locked tile
      is exactly the board tiles whose box holds a cell just above the tile's own box. */
  lemma LockersOfOverMeans(p: Pasture, t: Tile, k: int)
    requires CellIndexed(p.tiles, p.posTile) && t.locked
    ensures k in LockersOfOver(p, t, {}, false) <==> AtFootprint(p.tiles, t, Z(t.volume), k)
  {
    var above := AboveCells(t, OwnFootprint);
    var dz := Z(t.volume);
    assert (k in LockersOfOver(p, t, {}, false)) <==> exists c | c in above :: c in p.posTile && p.posTile[c] == k by {
      assert LockersOfOver(p, t, {}, false) == Ups(p, t, OwnFootprint);
      UpsAt(p, t, OwnFootprint, k);
    }
    BoardHits(p.tiles, p.posTile, above, k);
    assert (forall a, b | 0 <= a < X(t.volume) && 0 <= b < Y(t.volume) :: Offset(t.position, a, b, dz) in above)
      && (forall c | c in above :: exists a, b | 0 <= a < X(t.volume) && 0 <= b < Y(t.volume) :: c == Offset(t.position, a, b, dz)) by {
      OwnDims(t);
    }
    FootprintHits(p.tiles, t, above, dz, k);
  }

  /** Over its own box, a board tile whose box stays below layer 256 is never its own
      locker. */
  lemma LockersOfOverNotSelf(p: Pasture, i: int)
    requires CellIndexed(p.tiles, p.posTile) && DistinctIndices(p.tiles) && 0 <= i < |p.tiles|
    requires WellFormed(p.tiles[i])
    requires Z(p.tiles[i].position) + Z(p.tiles[i].volume) < 256
    ensures p.tiles[i].index !in LockersOfOver(p, p.tiles[i], {}, false)
  {
    var t := p.tiles[i];
    forall c | c in AboveCells(t, OwnFootprint) ensures c !in t.coordinates {
      var a, b :| 0 <= a < X(t.volume) && 0 <= b < Y(t.volume) && c == Offset(t.position, a, b, Z(t.volume));
      LayerAbove(t.position, t.volume, a, b);
      if c in t.coordinates {
        BoxLayers(t, c);
        assert false;
      }
    }
    forall c | c in AboveCells(t, OwnFootprint) && c in p.posTile ensures p.posTile[c] != t.index {
      var j :| 0 <= j < |p.tiles| && c in p.tiles[j].coordinates;
      assert p.tiles[j].index == p.posTile[c];
    }
  }

  /** The box of a tile below layer 256 lies on layers under `Z(position) + Z(volume)`. */
  lemma BoxLayers(t: Tile, c: int)
    requires WellFormed(t) && Z(t.position) + Z(t.volume) < 256
    requires c in t.coordinates
    ensures Z(c) < Z(t.position) + Z(t.volume)
  {
    assert exists a, b, k | 0 <= a < X(t.volume) && 0 <= b < Y(t.volume) && 0 <= k < Z(t.volume) :: c == Offset(t.position, a, b, k) by {
      assert c in BoxCells(t.position, t.volume);
      BoxCellsMembers(t.position, t.volume);
    }
    var a, b, k :| 0 <= a < X(t.volume) && 0 <= b < Y(t.volume) && 0 <= k < Z(t.volume) && c == Offset(t.position, a, b, k);
    LayerBelow(t.position, t.volume, a, b, k);
  }

  lemma LayerAbove(position: int, volume: int, a: int, b: int)
    requires Z(position) + Z(volume) < 256
    ensures Z(Offset(position, a, b, Z(volume))) == Z(position) + Z(volume)
  {
    var dz := Z(volume);
    LayerAt(position, a, b, dz);
  }

  lemma LayerAt(position: int, a: int, b: int, dz: int)
    requires 0 <= Z(position) + dz < 256
    ensures Z(Offset(position, a, b, dz)) == Z(position) + dz
  {
    OffsetComponents(position, a, b, dz);
  }

  lemma LayerBelow(position: int, volume: int, a: int, b: int, k: int)
    requires 0 <= k < Z(volume) && Z(position) + Z(volume) < 256
    ensures Z(Offset(position, a, b, k)) < Z(position) + Z(volume)
  {
    OffsetComponents(position, a, b, k);
  }
}
