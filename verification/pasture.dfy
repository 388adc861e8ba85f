/** The pasture: the spatial board. It owns the tiles in insertion order, three indices
    (cell to tile, top layer to tiles, tile to its top-face shadow), a layer shadow
    manager fed with the top faces, and the derived lists of unlocked and visible tiles.
    Tiles are identified by index, as their equality is. */
module Pastures {
  import opened Outcomes
  import opened Packed
  import opened Tiles
  import opened LayerShadows
  import opened ShadowManager

  datatype Pasture = Pasture(
    maxRow: int,
    maxCol: int,
    maxLayer: int,
    tiles: seq<Tile>,
    posTile: map<int, int>,
    topZTiles: map<int, set<int>>,
    tileShadow: map<int, Shadow>,
    manager: Manager,
    unlocking: seq<Tile>,
    visible: seq<Tile>)

  /** `new Pasture(maxRow, maxCol, maxLayer, mode)`: empty, with a fresh shadow manager,
      whose constructor rejects non-positive dimensions. */
  function NewPasture(maxRow: int, maxCol: int, maxLayer: int, mode: Propagation): (r: Result<Pasture>)
    ensures r.Ok? <==> maxRow > 0 && maxCol > 0 && maxLayer > 0
    ensures r.Fail? ==> r.fault == ArgumentOutOfRange
    ensures r.Ok? ==> Refreshed(r.value) && r.value.tiles == [] && r.value.manager.mode == mode
  {
    var m :- NewManager(mode, maxRow, maxCol, maxLayer);
    var p := Pasture(maxRow, maxCol, maxLayer, [], map[], map[], map[], m, [], []);
    forall z | 0 <= z < maxLayer ensures Cells(m.self[z]) == Faces([], z) {
    }
    Ok(p)
  }

  /** What the board needs of a tile's geometry: its top layer is one of the manager's,
      and each top-face cell is a cell of the box, inside the plane, and a packed value on
      that layer. */
  ghost predicate Placed(m: Manager, t: Tile) {
    && HasLayer(m, t.topZ)
    && forall q | q in t.topCoordinates ::
         q in t.coordinates && Fits(m, q) && 0 <= q < 0x100_0000 && Z(q) == Low8(t.topZ)
  }

  /** The indices of the tiles whose top face lies on layer `z`. */
  function IndicesAt(ts: seq<Tile>, z: int): set<int> {
    set i | 0 <= i < |ts| && ts[i].topZ == z :: ts[i].index
  }

  /** The plane cells of the top faces lying on layer `z`. */
  ghost function Faces(ts: seq<Tile>, z: int): set<(int, int)> {
    set i, q | 0 <= i < |ts| && ts[i].topZ == z && q in ts[i].topCoordinates :: Cell(q)
  }

  /** `Tiles`: distinct tiles, placed, all in the pasture zone. */
  ghost predicate TilesPlaced(m: Manager, ts: seq<Tile>) {
    && DistinctIndices(ts)
    && forall i | 0 <= i < |ts| :: Placed(m, ts[i]) && ts[i].zone == PastureZone
  }

  /** `PosTileDict`: exactly the cells of the boxes, each mapped to its tile. */
  ghost predicate CellIndexed(ts: seq<Tile>, posTile: map<int, int>) {
    && (forall c | c in posTile :: exists i | 0 <= i < |ts| :: c in ts[i].coordinates)
    && (forall i, c | 0 <= i < |ts| && c in ts[i].coordinates :: c in posTile && posTile[c] == ts[i].index)
  }

  /** `TopZTileDict`: the non-empty layers, each mapped to the tiles whose top is there. */
  ghost predicate LayerIndexed(ts: seq<Tile>, topZTiles: map<int, set<int>>) {
    && (forall z | z in topZTiles :: topZTiles[z] == IndicesAt(ts, z) && topZTiles[z] != {})
    && (forall i | 0 <= i < |ts| :: ts[i].topZ in topZTiles)
  }

  /** The shadow kept for a tile covers exactly its top face. */
  ghost predicate ShadowOf(m: Manager, tileShadow: map<int, Shadow>, t: Tile) {
    && t.index in tileShadow
    && Sized(tileShadow[t.index])
    && OnPlane(m, tileShadow[t.index])
    && Cells(tileShadow[t.index]) == CellsOf(t.topCoordinates)
  }

  /** `TileShadowDict`: one top-face shadow per tile and no other entry. */
  ghost predicate ShadowIndexed(m: Manager, ts: seq<Tile>, tileShadow: map<int, Shadow>) {
    && (forall k | k in tileShadow :: exists i | 0 <= i < |ts| :: ts[i].index == k)
    && (forall i | 0 <= i < |ts| :: ShadowOf(m, tileShadow, ts[i]))
  }

  /** The manager's self shadows are the top faces of the tiles, and its incoming shadows are
      propagated. */
  ghost predicate Layered(p: Pasture) {
    && Consistent(p.manager) && Propagated(p.manager)
    && p.manager.maxRow == p.maxRow && p.manager.maxCol == p.maxCol && p.manager.maxLayer == p.maxLayer
    && forall z | 0 <= z < p.maxLayer :: Cells(p.manager.self[z]) == Faces(p.tiles, z)
  }

  /** What every operation of the pasture keeps. Lock and visibility flags play no part. */
  ghost predicate Coherent(p: Pasture) {
    && Layered(p)
    && TilesPlaced(p.manager, p.tiles)
    && CellIndexed(p.tiles, p.posTile)
    && LayerIndexed(p.tiles, p.topZTiles)
    && ShadowIndexed(p.manager, p.tiles, p.tileShadow)
  }

  /** The manager has the tile's layer and the board keeps a shadow of its top face. */
  ghost predicate Ready(p: Pasture, t: Tile) {
    && Consistent(p.manager) && HasLayer(p.manager, t.topZ)
    && t.index in p.tileShadow && OnPlane(p.manager, p.tileShadow[t.index])
  }

  lemma AllReady(p: Pasture)
    requires Coherent(p)
    ensures forall i | 0 <= i < |p.tiles| :: Ready(p, p.tiles[i])
  {
    forall i | 0 <= i < |p.tiles| ensures Ready(p, p.tiles[i]) {
      assert Placed(p.manager, p.tiles[i]);
      assert ShadowOf(p.manager, p.tileShadow, p.tiles[i]);
    }
  }

  /** The status depends on the tile only through its index and top layer. */
  lemma StatusStable(p: Pasture, r: Pasture, t: Tile, u: Tile)
    requires Ready(p, t) && r.manager == p.manager && r.tileShadow == p.tileShadow && Bare(u) == Bare(t)
    ensures Ready(r, u) && Status(r, u) == Status(p, t)
  {
    assert u.index == Bare(u).index && u.topZ == Bare(u).topZ;
  }

  /** `UpdateTileLockedStatus` and `UpdateTileVisibleStatus`: locked iff the top-face shadow
      meets the incoming shadow of the top layer; visible iff fewer of its cells are covered
      than it has. */
  function Status(p: Pasture, t: Tile): (r: Tile)
    requires Ready(p, t)
    ensures r == t.(locked := r.locked, visible := r.visible)
    ensures r.locked <==> Cells(p.manager.incoming[t.topZ]) * Cells(p.tileShadow[t.index]) != {}
    ensures r.visible <==> !(Cells(p.tileShadow[t.index]) <= Cells(p.manager.incoming[t.topZ]))
  {
    var area := p.tileShadow[t.index];
    SameWords(p.manager, area, p.manager.incoming[t.topZ]);
    var covered := IntersectsIncoming(p.manager, t.topZ, area).value;
    var coverCount := IncomingIntersectCount(p.manager, t.topZ, area).value;
    t.(locked := covered, visible := coverCount < PopCount(area))
  }

  /** The unlocked tiles, in list order. */
  function Unlocked(ts: seq<Tile>): (r: seq<Tile>)
    ensures |r| <= |ts|
  {
    if ts == [] then []
    else (if ts[0].locked then [] else [ts[0]]) + Unlocked(ts[1..])
  }

  /** The visible tiles, in list order. */
  function Visibles(ts: seq<Tile>): (r: seq<Tile>)
    ensures |r| <= |ts|
  {
    if ts == [] then []
    else (if ts[0].visible then [ts[0]] else []) + Visibles(ts[1..])
  }

  /** The filters keep exactly the tiles with the flag. */
  lemma {:induction false} FilterMembers(ts: seq<Tile>)
    ensures forall t :: t in Unlocked(ts) <==> t in ts && !t.locked
    ensures forall t :: t in Visibles(ts) <==> t in ts && t.visible
  {
    if ts != [] {
      FilterMembers(ts[1..]);
      assert ts == [ts[0]] + ts[1..];
    }
  }

  /** The flag-free part of a tile. */
  function Bare(t: Tile): Tile {
    t.(locked := false, visible := false)
  }

  /** Two lists of the same tiles that differ at most in their flags. */
  predicate Reflags(ts: seq<Tile>, us: seq<Tile>) {
    |ts| == |us| && forall i | 0 <= i < |ts| :: Bare(us[i]) == Bare(ts[i])
  }

  /** `RefreshUnlockingAndVisibleTiles`: every tile's flags recomputed from the incoming
      shadow of its layer, then both lists rebuilt in list order. */
  function Refresh(p: Pasture): (r: Pasture)
    requires Coherent(p)
    ensures |r.tiles| == |p.tiles| && Reflags(p.tiles, r.tiles) && Coherent(r)
    ensures r == p.(tiles := r.tiles, unlocking := r.unlocking, visible := r.visible)
    ensures forall i | 0 <= i < |p.tiles| :: Ready(p, p.tiles[i]) && StatusMeans(p, p.tiles[i], r.tiles[i])
    ensures Listed(r)
  {
    var ts := Statuses(p);
    var r := p.(tiles := ts, unlocking := Unlocked(ts), visible := Visibles(ts));
    Reflagged(p, r);
    assert forall i | 0 <= i < |p.tiles| :: Ready(p, p.tiles[i]) && StatusMeans(p, p.tiles[i], ts[i]) by {
      forall i | 0 <= i < |p.tiles| ensures Ready(p, p.tiles[i]) && StatusMeans(p, p.tiles[i], ts[i]) {
        StatusOfTile(p, i);
      }
    }
    r
  }

  /** `u` carries the flags `Status` gives `t`, read in terms of the top face: locked iff
      the incoming shadow meets the face, visible iff it leaves a cell of the face uncovered. */
  ghost predicate StatusMeans(p: Pasture, t: Tile, u: Tile)
    requires Ready(p, t)
  {
    && (u.locked <==> Cells(p.manager.incoming[t.topZ]) * CellsOf(t.topCoordinates) != {})
    && (u.visible <==> !(CellsOf(t.topCoordinates) <= Cells(p.manager.incoming[t.topZ])))
  }

  lemma StatusOfTile(p: Pasture, i: int)
    requires Coherent(p) && 0 <= i < |p.tiles|
    ensures Ready(p, p.tiles[i]) && StatusMeans(p, p.tiles[i], Status(p, p.tiles[i]))
  {
    AllReady(p);
    assert ShadowOf(p.manager, p.tileShadow, p.tiles[i]);
  }

  /** A refreshed board is determined by everything but its flags and lists: two refreshed
      boards that differ at most there are equal. */
  lemma RefreshedDetermined(p: Pasture, r: Pasture)
    requires Refreshed(p) && Refreshed(r) && Reflags(p.tiles, r.tiles)
    requires r == p.(tiles := r.tiles, unlocking := r.unlocking, visible := r.visible)
    ensures r == p
  {
    forall i | 0 <= i < |p.tiles| ensures r.tiles[i] == p.tiles[i] {
      StatusStable(p, r, p.tiles[i], r.tiles[i]);
    }
    assert r.tiles == p.tiles;
  }

  /** Each tile with its status recomputed. */
  function Statuses(p: Pasture): (ts: seq<Tile>)
    requires Coherent(p)
    ensures Reflags(p.tiles, ts)
    ensures forall i | 0 <= i < |ts| :: Ready(p, p.tiles[i]) && ts[i] == Status(p, p.tiles[i])
  {
    AllReady(p);
    seq(|p.tiles|, i requires 0 <= i < |p.tiles| => Status(p, p.tiles[i]))
  }

  /** `UnlockingTiles` and `VisibleTiles` are the filtered tile list. */
  predicate Listed(p: Pasture) {
    p.unlocking == Unlocked(p.tiles) && p.visible == Visibles(p.tiles)
  }

  /** Every tile's flags are what `Status` computes, and the lists are rebuilt. */
  ghost predicate Refreshed(p: Pasture) {
    && Coherent(p)
    && (forall i | 0 <= i < |p.tiles| :: p.tiles[i] == Status(p, p.tiles[i]))
    && Listed(p)
  }

  /** A refreshed board is a fixed point of `Refresh`, and refreshing any coherent board
      yields a refreshed one. */
  lemma RefreshIdempotent(p: Pasture)
    requires Coherent(p)
    ensures Refreshed(Refresh(p))
    ensures Refreshed(p) ==> Refresh(p) == p
  {
    var r := Refresh(p);
    forall i | 0 <= i < |r.tiles| ensures r.tiles[i] == Status(r, r.tiles[i]) {
      assert r.tiles[i] == Status(p, p.tiles[i]);
      StatusStable(p, r, p.tiles[i], r.tiles[i]);
    }
    if Refreshed(p) {
      assert r.tiles == p.tiles;
    }
  }

  /** Coherence does not depend on the flags or the derived lists. */
  lemma Reflagged(p: Pasture, r: Pasture)
    requires Coherent(p) && Reflags(p.tiles, r.tiles)
    requires r == p.(tiles := r.tiles, unlocking := r.unlocking, visible := r.visible)
    ensures Coherent(r)
  {
    forall z ensures Faces(r.tiles, z) == Faces(p.tiles, z) {
      FacesReflag(p.tiles, r.tiles, z);
    }
    TilesPlacedReflag(p.manager, p.tiles, r.tiles);
    CellIndexedReflag(p.tiles, r.tiles, p.posTile);
    LayerIndexedReflag(p.tiles, r.tiles, p.topZTiles);
    ShadowIndexedReflag(p.manager, p.tiles, r.tiles, p.tileShadow);
  }

  lemma FacesReflag(ts: seq<Tile>, us: seq<Tile>, z: int)
    requires Reflags(ts, us)
    ensures Faces(us, z) == Faces(ts, z) && IndicesAt(us, z) == IndicesAt(ts, z)
  {
    assert forall i | 0 <= i < |ts| ::
      (us[i].topZ == ts[i].topZ && us[i].topCoordinates == ts[i].topCoordinates && us[i].index == ts[i].index) by {
      forall i | 0 <= i < |ts| ensures us[i].topZ == Bare(us[i]).topZ == Bare(ts[i]).topZ {
      }
    }
  }

  lemma TilesPlacedReflag(m: Manager, ts: seq<Tile>, us: seq<Tile>)
    requires TilesPlaced(m, ts) && Reflags(ts, us)
    ensures TilesPlaced(m, us)
  {
    forall i | 0 <= i < |us| ensures Placed(m, us[i]) && us[i].zone == PastureZone && us[i].index == ts[i].index {
      assert Bare(us[i]) == Bare(ts[i]);
    }
  }

  lemma CellIndexedReflag(ts: seq<Tile>, us: seq<Tile>, posTile: map<int, int>)
    requires CellIndexed(ts, posTile) && Reflags(ts, us)
    ensures CellIndexed(us, posTile)
  {
    assert forall i | 0 <= i < |ts| :: us[i].coordinates == ts[i].coordinates && us[i].index == ts[i].index by {
      forall i | 0 <= i < |ts| ensures us[i].coordinates == Bare(us[i]).coordinates == Bare(ts[i]).coordinates {
      }
    }
    forall c | c in posTile ensures exists i | 0 <= i < |us| :: c in us[i].coordinates {
      var i :| 0 <= i < |ts| && c in ts[i].coordinates;
      assert c in us[i].coordinates;
    }
  }

  lemma LayerIndexedReflag(ts: seq<Tile>, us: seq<Tile>, topZTiles: map<int, set<int>>)
    requires LayerIndexed(ts, topZTiles) && Reflags(ts, us)
    ensures LayerIndexed(us, topZTiles)
  {
    forall z ensures IndicesAt(us, z) == IndicesAt(ts, z) {
      FacesReflag(ts, us, z);
    }
    forall i | 0 <= i < |us| ensures us[i].topZ == ts[i].topZ {
      assert Bare(us[i]) == Bare(ts[i]);
    }
  }

  lemma ShadowIndexedReflag(m: Manager, ts: seq<Tile>, us: seq<Tile>, tileShadow: map<int, Shadow>)
    requires ShadowIndexed(m, ts, tileShadow) && Reflags(ts, us)
    ensures ShadowIndexed(m, us, tileShadow)
  {
    forall i | 0 <= i < |us| ensures ShadowOf(m, tileShadow, us[i]) && us[i].index == ts[i].index {
      assert Bare(us[i]) == Bare(ts[i]);
      assert ShadowOf(m, tileShadow, ts[i]);
    }
    forall k | k in tileShadow ensures exists i | 0 <= i < |us| :: us[i].index == k {
      var i :| 0 <= i < |ts| && ts[i].index == k;
      assert us[i].index == k;
    }
  }

  /** `IndexToTileDict[index]`, derived from the list. */
  function Lookup(p: Pasture, index: int): (r: Option<Tile>)
    ensures r.None? <==> forall i | 0 <= i < |p.tiles| :: p.tiles[i].index != index
    ensures r.Some? ==> r.value in p.tiles && r.value.index == index
  {
    FirstWith(p.tiles, index)
  }

  function FirstWith(ts: seq<Tile>, index: int): (r: Option<Tile>)
    ensures r.None? <==> forall i | 0 <= i < |ts| :: ts[i].index != index
    ensures r.Some? ==> r.value in ts && r.value.index == index
  {
    if ts == [] then None
    else if ts[0].index == index then Some(ts[0])
    else
      var r := FirstWith(ts[1..], index);
      assert forall i | 1 <= i < |ts| :: ts[i] == ts[1..][i - 1];
      r
  }

  /** With distinct indices, the tile found is the one at the index's position. */
  lemma LookupAt(p: Pasture, i: int)
    requires DistinctIndices(p.tiles) && 0 <= i < |p.tiles|
    ensures Lookup(p, p.tiles[i].index) == Some(p.tiles[i])
  {
    var t := Lookup(p, p.tiles[i].index).value;
    var j :| 0 <= j < |p.tiles| && p.tiles[j] == t;
  }

  /** `CanSelect`: some unlocked tile has the index. */
  function CanSelect(p: Pasture, index: int): (b: bool)
    ensures b <==> exists t | t in p.unlocking :: t.index == index
  {
    exists t | t in p.unlocking :: t.index == index
  }

  /** On a refreshed board, `CanSelect` holds iff the board holds an unlocked tile of that index. */
  lemma CanSelectMeans(p: Pasture, index: int)
    requires Listed(p)
    ensures CanSelect(p, index) <==> exists i | 0 <= i < |p.tiles| :: p.tiles[i].index == index && !p.tiles[i].locked
  {
    FilterMembers(p.tiles);
    if CanSelect(p, index) {
      var t :| t in p.unlocking && t.index == index;
      var i :| 0 <= i < |p.tiles| && p.tiles[i] == t;
    }
    if i :| 0 <= i < |p.tiles| && p.tiles[i].index == index && !p.tiles[i].locked {
      assert p.tiles[i] in p.unlocking;
    }
  }

  /** Tile `u` lies over tile `t` for the purpose of covering, under the manager's policy. */
  predicate Over(mode: Propagation, u: Tile, t: Tile) {
    match mode
    case DirectOnly => u.topZ == t.topZ + 1
    case Cascade => u.topZ > t.topZ
  }

  /** Some top-face cell of `u` lies on a column of `t`'s top face. */
  ghost predicate Shades(u: Tile, t: Tile) {
    CellsOf(u.topCoordinates) * CellsOf(t.topCoordinates) != {}
  }

  /** Some tile over `t` has a top-face cell on plane cell `c`. */
  ghost predicate CoveredOver(p: Pasture, t: Tile, c: (int, int)) {
    exists j | 0 <= j < |p.tiles| :: Over(p.manager.mode, p.tiles[j], t) && c in CellsOf(p.tiles[j].topCoordinates)
  }

  /** A plane cell is in the faces of layer `z` iff a tile topped there has a cell on it. */
  lemma FaceMembers(ts: seq<Tile>, z: int, c: (int, int))
    ensures c in Faces(ts, z) <==> exists j | 0 <= j < |ts| :: ts[j].topZ == z && c in CellsOf(ts[j].topCoordinates)
  {
    if c in Faces(ts, z) {
      var j, q :| 0 <= j < |ts| && ts[j].topZ == z && q in ts[j].topCoordinates && Cell(q) == c;
      assert c in CellsOf(ts[j].topCoordinates);
    }
    if j :| 0 <= j < |ts| && ts[j].topZ == z && c in CellsOf(ts[j].topCoordinates) {
      var q :| q in ts[j].topCoordinates && Cell(q) == c;
    }
  }

  /** The incoming shadow of a tile's layer, read back in terms of tiles: a cell is covered
      iff a tile over it has a top-face cell there. */
  lemma CoveredByTiles(p: Pasture, t: Tile, c: (int, int))
    requires Coherent(p) && HasLayer(p.manager, t.topZ)
    ensures c in Cells(p.manager.incoming[t.topZ]) <==> CoveredOver(p, t, c)
  {
    if p.manager.mode == Cascade {
      CoveredCascade(p, t, c);
    } else {
      CoveredDirect(p, t, c);
    }
  }

  lemma CoveredCascade(p: Pasture, t: Tile, c: (int, int))
    requires Layered(p) && TilesPlaced(p.manager, p.tiles) && HasLayer(p.manager, t.topZ)
    requires p.manager.mode == Cascade
    ensures c in Cells(p.manager.incoming[t.topZ]) <==> CoveredOver(p, t, c)
  {
    var m := p.manager;
    AboveMeans(m.self, t.topZ, c);
    if c in Cells(m.incoming[t.topZ]) {
      var k :| t.topZ < k < |m.self| && c in Cells(m.self[k]);
      CascadeFrom(p, t, c, k);
    }
    if CoveredOver(p, t, c) {
      var j :| 0 <= j < |p.tiles| && Over(m.mode, p.tiles[j], t) && c in CellsOf(p.tiles[j].topCoordinates);
      CascadeTo(p, t, c, j);
    }
  }

  lemma CascadeFrom(p: Pasture, t: Tile, c: (int, int), k: int)
    requires Layered(p) && p.manager.mode == Cascade
    requires 0 <= t.topZ < k < |p.manager.self| && c in Cells(p.manager.self[k])
    ensures CoveredOver(p, t, c)
  {
    FaceMembers(p.tiles, k, c);
    var j :| 0 <= j < |p.tiles| && p.tiles[j].topZ == k && c in CellsOf(p.tiles[j].topCoordinates);
    assert Over(p.manager.mode, p.tiles[j], t);
  }

  lemma CascadeTo(p: Pasture, t: Tile, c: (int, int), j: int)
    requires Layered(p) && TilesPlaced(p.manager, p.tiles) && p.manager.mode == Cascade && 0 <= t.topZ
    requires 0 <= j < |p.tiles| && Over(p.manager.mode, p.tiles[j], t) && c in CellsOf(p.tiles[j].topCoordinates)
    ensures exists k | t.topZ < k < |p.manager.self| :: c in Cells(p.manager.self[k])
  {
    var k := p.tiles[j].topZ;
    assert Placed(p.manager, p.tiles[j]);
    FaceMembers(p.tiles, k, c);
    assert c in Cells(p.manager.self[k]);
  }

  lemma CoveredDirect(p: Pasture, t: Tile, c: (int, int))
    requires Layered(p) && TilesPlaced(p.manager, p.tiles) && HasLayer(p.manager, t.topZ)
    requires p.manager.mode == DirectOnly
    ensures c in Cells(p.manager.incoming[t.topZ]) <==> CoveredOver(p, t, c)
  {
    var m := p.manager;
    var z := t.topZ;
    if c in Cells(m.incoming[z]) {
      assert z + 1 < m.maxLayer && c in Cells(m.self[z + 1]);
      FaceMembers(p.tiles, z + 1, c);
      var j :| 0 <= j < |p.tiles| && p.tiles[j].topZ == z + 1 && c in CellsOf(p.tiles[j].topCoordinates);
      assert Over(m.mode, p.tiles[j], t);
    }
    if CoveredOver(p, t, c) {
      var j :| 0 <= j < |p.tiles| && Over(m.mode, p.tiles[j], t) && c in CellsOf(p.tiles[j].topCoordinates);
      assert Placed(m, p.tiles[j]);
      FaceMembers(p.tiles, z + 1, c);
      assert c in Cells(m.self[z + 1]);
    }
  }

  /** On a refreshed board a tile is locked iff some tile over it shades its top face. */
  lemma LockedMeansShaded(p: Pasture, i: int)
    requires Refreshed(p) && 0 <= i < |p.tiles|
    ensures p.tiles[i].locked <==>
      exists j | 0 <= j < |p.tiles| :: Over(p.manager.mode, p.tiles[j], p.tiles[i]) && Shades(p.tiles[j], p.tiles[i])
  {
    StatusOfTile(p, i);
    MeetsIffShaded(p, p.tiles[i]);
  }

  lemma MeetsIffShaded(p: Pasture, t: Tile)
    requires Coherent(p) && HasLayer(p.manager, t.topZ)
    ensures Cells(p.manager.incoming[t.topZ]) * CellsOf(t.topCoordinates) != {} <==>
      exists j | 0 <= j < |p.tiles| :: Over(p.manager.mode, p.tiles[j], t) && Shades(p.tiles[j], t)
  {
    var inc := Cells(p.manager.incoming[t.topZ]);
    if inc * CellsOf(t.topCoordinates) != {} {
      var c :| c in inc && c in CellsOf(t.topCoordinates);
      CoveredByTiles(p, t, c);
      var j :| 0 <= j < |p.tiles| && Over(p.manager.mode, p.tiles[j], t) && c in CellsOf(p.tiles[j].topCoordinates);
      assert c in CellsOf(p.tiles[j].topCoordinates) * CellsOf(t.topCoordinates);
    }
    if j :| 0 <= j < |p.tiles| && Over(p.manager.mode, p.tiles[j], t) && Shades(p.tiles[j], t) {
      var c :| c in CellsOf(p.tiles[j].topCoordinates) * CellsOf(t.topCoordinates);
      CoveredByTiles(p, t, c);
      assert c in inc * CellsOf(t.topCoordinates);
    }
  }

  /** On a refreshed board a tile is visible iff some cell of its top face is shaded by no
      tile over it. */
  lemma VisibleMeansUnshaded(p: Pasture, i: int)
    requires Refreshed(p) && 0 <= i < |p.tiles|
    ensures p.tiles[i].visible <==>
      exists q | q in p.tiles[i].topCoordinates :: !CoveredOver(p, p.tiles[i], Cell(q))
  {
    StatusOfTile(p, i);
    UncoveredIffUnshaded(p, p.tiles[i]);
  }

  lemma UncoveredIffUnshaded(p: Pasture, t: Tile)
    requires Coherent(p) && HasLayer(p.manager, t.topZ)
    ensures !(CellsOf(t.topCoordinates) <= Cells(p.manager.incoming[t.topZ])) <==>
      exists q | q in t.topCoordinates :: !CoveredOver(p, t, Cell(q))
  {
    var inc := Cells(p.manager.incoming[t.topZ]);
    if !(CellsOf(t.topCoordinates) <= inc) {
      var c :| c in CellsOf(t.topCoordinates) && c !in inc;
      var q :| q in t.topCoordinates && Cell(q) == c;
      CoveredByTiles(p, t, c);
    }
    if q :| q in t.topCoordinates && !CoveredOver(p, t, Cell(q)) {
      CoveredByTiles(p, t, Cell(q));
      assert Cell(q) in CellsOf(t.topCoordinates);
    }
  }
}
