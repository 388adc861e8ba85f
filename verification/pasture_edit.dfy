/** Adding, removing and extracting tiles on the pasture. Each edit updates the three
    dictionaries and the manager's self shadow of the tile's top layer, rebuilds the
    incoming shadows and refreshes every tile's flags. */
module PastureEdits {
  import opened Outcomes
  import opened Packed
  import opened Tiles
  import opened LayerShadows
  import opened ShadowManager
  import opened Pastures

  /** Some cell of the tile's box is already occupied: `AddTile` leaves the board alone. */
  predicate Collides(p: Pasture, tile: Tile) {
    exists c | c in tile.coordinates :: c in p.posTile
  }

  predicate SameDims(m: Manager, m': Manager) {
    m.maxRow == m'.maxRow && m.maxCol == m'.maxCol && m.maxLayer == m'.maxLayer
  }

  /** Two boards of the same size. */
  predicate SameSize(p: Pasture, q: Pasture) {
    p.maxRow == q.maxRow && p.maxCol == q.maxCol && p.maxLayer == q.maxLayer
  }

  // ---------------------------------------------------------------- adding

  /** `AddTile`: a tile whose box meets an occupied cell is ignored. Otherwise it joins the
      pasture zone and the end of the list, every cell of its box maps to it, its index
      joins the set of its top layer, its top face gets a shadow of its own and joins the
      self shadow of its layer, and the board is refreshed. A top layer outside the manager
      fails as the manager's `AddSelfShadow` does. */
  function AddTile(p: Pasture, tile: Tile): (r: Result<Pasture>)
    requires Coherent(p)
    requires WellFormed(tile) && Z(tile.volume) >= 1
    requires Fresh(p.tiles, tile.index)
    requires !Collides(p, tile) ==> forall q | q in tile.topCoordinates :: Fits(p.manager, q)
    ensures Collides(p, tile) ==> r == Ok(p)
    ensures !Collides(p, tile) ==> (r.Ok? <==> HasLayer(p.manager, tile.topZ))
    ensures r.Fail? ==> r.fault == ArgumentOutOfRange
    ensures r.Ok? && !Collides(p, tile) ==> Refreshed(r.value) && Added(p, tile, r.value)
  {
    if Collides(p, tile) then Ok(p)
    else
      match AddSelfShadowAndRebuild(p.manager, tile.topZ, tile.topCoordinates)
      case Fail(f) => Fail(f)
      case Ok(m) => Ok(Place(p, tile, m))
  }

  /** The placing steps of `AddTile` followed by the refresh. */
  function Place(p: Pasture, tile: Tile, m: Manager): (r: Pasture)
    requires Coherent(p) && WellFormed(tile) && Z(tile.volume) >= 1
    requires Fresh(p.tiles, tile.index) && !Collides(p, tile) && HasLayer(p.manager, tile.topZ)
    requires forall c | c in tile.topCoordinates :: Fits(p.manager, c)
    requires AddSelfShadowAndRebuild(p.manager, tile.topZ, tile.topCoordinates) == Ok(m)
    ensures Refreshed(r) && Added(p, tile, r)
    ensures PlacedFields(p, tile, m, r)
  {
    var t := SetZone(tile, PastureZone);
    var q := Placing(p, t, m);
    var r := Refresh(q);
    RefreshIdempotent(q);
    AddedAfterRefresh(p, tile, q, r);
    r
  }

  /** What adding did: the old tiles first with their caches unchanged, the tile last in the
      pasture zone, every box cell indexed to it, its index on its layer. */
  ghost predicate Added(p: Pasture, tile: Tile, r: Pasture) {
    && |r.tiles| == |p.tiles| + 1
    && Reflags(p.tiles, r.tiles[..|p.tiles|])
    && Bare(r.tiles[|p.tiles|]) == Bare(tile.(zone := PastureZone))
    && (forall c | c in tile.coordinates :: c in r.posTile && r.posTile[c] == tile.index)
    && tile.topZ in r.topZTiles && tile.index in r.topZTiles[tile.topZ]
  }

  lemma AddedAfterRefresh(p: Pasture, tile: Tile, q: Pasture, r: Pasture)
    requires q.tiles == p.tiles + [tile.(zone := PastureZone)] && Reflags(q.tiles, r.tiles)
    requires r.posTile == q.posTile && r.topZTiles == q.topZTiles
    requires forall c | c in tile.coordinates :: c in q.posTile && q.posTile[c] == tile.index
    requires tile.topZ in q.topZTiles && tile.index in q.topZTiles[tile.topZ]
    ensures Added(p, tile, r)
  {
    assert Bare(r.tiles[|p.tiles|]) == Bare(q.tiles[|p.tiles|]);
    forall i | 0 <= i < |p.tiles| ensures Bare(r.tiles[..|p.tiles|][i]) == Bare(p.tiles[i]) {
      assert q.tiles[i] == p.tiles[i];
    }
  }

  /** The top face of a tile as a shadow of its own: a fresh shadow of the plane with each
      top cell added. */
  function TopShadow(m: Manager, t: Tile): (s: Shadow)
    requires Consistent(m) && forall c | c in t.topCoordinates :: Fits(m, c)
    ensures Sized(s) && OnPlane(m, s) && Cells(s) == CellsOf(t.topCoordinates)
  {
    AddAll(m, NewShadow(m.maxRow, m.maxCol), t.topCoordinates)
  }

  lemma PlacedNew(m0: Manager, m: Manager, t: Tile)
    requires WellFormed(t) && Z(t.volume) >= 1 && HasLayer(m0, t.topZ) && SameDims(m0, m)
    requires forall c | c in t.topCoordinates :: Fits(m0, c)
    ensures Placed(m, t)
  {
    TopFacts(t);
  }

  /** The dictionaries and the manager after placing a tile; the old shadows stay. */
  ghost predicate PlacedFields(p: Pasture, tile: Tile, m: Manager, r: Pasture) {
    var bucket := if tile.topZ in p.topZTiles then p.topZTiles[tile.topZ] else {};
    && r.posTile == p.posTile + (map c | c in tile.coordinates :: tile.index)
    && r.topZTiles == p.topZTiles[tile.topZ := bucket + {tile.index}]
    && r.tileShadow.Keys == p.tileShadow.Keys + {tile.index}
    && (forall i | i in p.tileShadow :: r.tileShadow[i] == p.tileShadow[i])
    && r.manager == m
    && r.maxRow == p.maxRow && r.maxCol == p.maxCol && r.maxLayer == p.maxLayer
  }

  /** The unrefreshed board after the placing steps of `AddTile`, given the manager after
      `AddSelfShadow` and the rebuild. */
  function Placing(p: Pasture, t: Tile, m: Manager): (q: Pasture)
    requires Coherent(p) && WellFormed(t) && Z(t.volume) >= 1 && t.zone == PastureZone
    requires Fresh(p.tiles, t.index) && !Collides(p, t) && HasLayer(p.manager, t.topZ)
    requires forall c | c in t.topCoordinates :: Fits(p.manager, c)
    requires AddSelfShadowAndRebuild(p.manager, t.topZ, t.topCoordinates) == Ok(m)
    ensures Coherent(q) && q.tiles == p.tiles + [t] && PlacedFields(p, t, m, q)
    ensures forall c | c in t.coordinates :: c in q.posTile && q.posTile[c] == t.index
    ensures t.topZ in q.topZTiles && t.index in q.topZTiles[t.topZ]
  {
    var bucket := if t.topZ in p.topZTiles then p.topZTiles[t.topZ] else {};
    var shadow := TopShadow(p.manager, t);
    var q := p.(
      tiles := p.tiles + [t],
      posTile := p.posTile + map c | c in t.coordinates :: t.index,
      topZTiles := p.topZTiles[t.topZ := bucket + {t.index}],
      tileShadow := p.tileShadow[t.index := shadow],
      manager := m);
    assert SameDims(p.manager, m);
    assert TilesPlaced(m, q.tiles) by {
      PlacedNew(p.manager, m, t);
      AddPlaced(p.manager, m, p.tiles, t);
    }
    assert CellIndexed(q.tiles, q.posTile) by {
      AddCellIndexed(p.tiles, p.posTile, t);
    }
    assert LayerIndexed(q.tiles, q.topZTiles) by {
      AddLayerIndexed(p.tiles, p.topZTiles, t);
    }
    assert ShadowIndexed(m, q.tiles, q.tileShadow) by {
      AddShadowIndexed(p.manager, m, p.tiles, p.tileShadow, t, shadow);
    }
    assert Layered(q) by {
      AddLayered(p, t, m, q);
    }
    assert PlacedFields(p, t, m, q) by {
      PlacedFieldsOf(p, t, m, shadow, q);
    }
    q
  }

  lemma PlacedFieldsOf(p: Pasture, t: Tile, m: Manager, shadow: Shadow, q: Pasture)
    requires var bucket := if t.topZ in p.topZTiles then p.topZTiles[t.topZ] else {};
      q == p.(
        tiles := p.tiles + [t],
        posTile := p.posTile + map c | c in t.coordinates :: t.index,
        topZTiles := p.topZTiles[t.topZ := bucket + {t.index}],
        tileShadow := p.tileShadow[t.index := shadow],
        manager := m)
    requires t.index !in p.tileShadow
    ensures PlacedFields(p, t, m, q)
  {
  }

  lemma AddPlaced(m: Manager, m': Manager, ts: seq<Tile>, t: Tile)
    requires TilesPlaced(m, ts) && SameDims(m, m') && Placed(m', t) && t.zone == PastureZone
    requires Fresh(ts, t.index)
    ensures TilesPlaced(m', ts + [t])
  {
    var us := ts + [t];
    forall i | 0 <= i < |us| ensures Placed(m', us[i]) && us[i].zone == PastureZone {
      if i < |ts| {
        assert us[i] == ts[i] && Placed(m, ts[i]);
      }
    }
  }

  lemma AddCellIndexed(ts: seq<Tile>, posTile: map<int, int>, t: Tile)
    requires CellIndexed(ts, posTile)
    requires forall c | c in t.coordinates :: c !in posTile
    ensures CellIndexed(ts + [t], posTile + map c | c in t.coordinates :: t.index)
  {
    var us := ts + [t];
    var pt := posTile + map c | c in t.coordinates :: t.index;
    forall c | c in pt ensures exists i | 0 <= i < |us| :: c in us[i].coordinates {
      if c in posTile {
        var i :| 0 <= i < |ts| && c in ts[i].coordinates;
        assert us[i] == ts[i];
      } else {
        assert c in us[|ts|].coordinates;
      }
    }
    forall i, c | 0 <= i < |us| && c in us[i].coordinates ensures c in pt && pt[c] == us[i].index {
      if i < |ts| {
        assert us[i] == ts[i];
        assert c in posTile;
      }
    }
  }

  lemma AddLayerIndexed(ts: seq<Tile>, topZTiles: map<int, set<int>>, t: Tile)
    requires LayerIndexed(ts, topZTiles)
    ensures var bucket := if t.topZ in topZTiles then topZTiles[t.topZ] else {};
      LayerIndexed(ts + [t], topZTiles[t.topZ := bucket + {t.index}])
  {
    var us := ts + [t];
    var bucket := if t.topZ in topZTiles then topZTiles[t.topZ] else {};
    forall z ensures IndicesAt(us, z) == IndicesAt(ts, z) + (if z == t.topZ then {t.index} else {}) {
      IndicesAppend(ts, t, z);
    }
    if t.topZ !in topZTiles {
      assert IndicesAt(ts, t.topZ) == {} by {
        forall i | 0 <= i < |ts| ensures ts[i].topZ != t.topZ {
        }
      }
    }
    forall i | 0 <= i < |us| ensures us[i].topZ in topZTiles[t.topZ := bucket + {t.index}] {
      if i < |ts| {
        assert us[i] == ts[i];
      }
    }
  }

  lemma IndicesAppend(ts: seq<Tile>, t: Tile, z: int)
    ensures IndicesAt(ts + [t], z) == IndicesAt(ts, z) + (if z == t.topZ then {t.index} else {})
  {
    var us := ts + [t];
    forall k | k in IndicesAt(us, z) ensures k in IndicesAt(ts, z) + (if z == t.topZ then {t.index} else {}) {
      var i :| 0 <= i < |us| && us[i].topZ == z && us[i].index == k;
      if i < |ts| {
        assert us[i] == ts[i];
      }
    }
    forall k | k in IndicesAt(ts, z) ensures k in IndicesAt(us, z) {
      var i :| 0 <= i < |ts| && ts[i].topZ == z && ts[i].index == k;
      assert us[i] == ts[i];
    }
    if z == t.topZ {
      assert us[|ts|] == t;
    }
  }

  lemma AddShadowIndexed(m: Manager, m': Manager, ts: seq<Tile>, tileShadow: map<int, Shadow>, t: Tile, s: Shadow)
    requires ShadowIndexed(m, ts, tileShadow) && SameDims(m, m') && Fresh(ts, t.index)
    requires Sized(s) && OnPlane(m, s) && Cells(s) == CellsOf(t.topCoordinates)
    ensures ShadowIndexed(m', ts + [t], tileShadow[t.index := s])
  {
    var us := ts + [t];
    var ts' := tileShadow[t.index := s];
    forall k | k in ts' ensures exists i | 0 <= i < |us| :: us[i].index == k {
      if k != t.index {
        var i :| 0 <= i < |ts| && ts[i].index == k;
        assert us[i] == ts[i];
      } else {
        assert us[|ts|] == t;
      }
    }
    forall i | 0 <= i < |us| ensures ShadowOf(m', ts', us[i]) {
      if i < |ts| {
        assert us[i] == ts[i] && ShadowOf(m, tileShadow, ts[i]);
      }
    }
  }

  /** The faces of a layer gain the new top face exactly when it lies on that layer. */
  lemma FacesAppend(ts: seq<Tile>, t: Tile, z: int)
    ensures Faces(ts + [t], z) == Faces(ts, z) + (if z == t.topZ then CellsOf(t.topCoordinates) else {})
  {
    var us := ts + [t];
    FaceMembersAll(ts, z);
    FaceMembersAll(us, z);
    forall c ensures c in Faces(us, z) <==> c in Faces(ts, z) + (if z == t.topZ then CellsOf(t.topCoordinates) else {}) {
      if j :| 0 <= j < |us| && us[j].topZ == z && c in CellsOf(us[j].topCoordinates) {
        if j < |ts| {
          assert us[j] == ts[j];
        }
      }
      if j :| 0 <= j < |ts| && ts[j].topZ == z && c in CellsOf(ts[j].topCoordinates) {
        assert us[j] == ts[j];
      }
      if z == t.topZ && c in CellsOf(t.topCoordinates) {
        assert us[|ts|] == t;
      }
    }
  }

  lemma FaceMembersAll(ts: seq<Tile>, z: int)
    ensures forall c :: c in Faces(ts, z) <==> exists j | 0 <= j < |ts| :: ts[j].topZ == z && c in CellsOf(ts[j].topCoordinates)
  {
    forall c ensures c in Faces(ts, z) <==> exists j | 0 <= j < |ts| :: ts[j].topZ == z && c in CellsOf(ts[j].topCoordinates) {
      FaceMembers(ts, z, c);
    }
  }

  lemma AddLayered(p: Pasture, t: Tile, m: Manager, q: Pasture)
    requires Layered(p) && HasLayer(p.manager, t.topZ)
    requires forall c | c in t.topCoordinates :: Fits(p.manager, c)
    requires AddSelfShadowAndRebuild(p.manager, t.topZ, t.topCoordinates) == Ok(m)
    requires q.tiles == p.tiles + [t] && q.manager == m
    requires q.maxRow == p.maxRow && q.maxCol == p.maxCol && q.maxLayer == p.maxLayer
    ensures Layered(q)
  {
    forall z | 0 <= z < q.maxLayer ensures Cells(m.self[z]) == Faces(q.tiles, z) {
      FacesAppend(p.tiles, t, z);
    }
  }

  // ---------------------------------------------------------------- removing

  /** The list without its element `k`. */
  function RemoveAt(ts: seq<Tile>, k: int): (r: seq<Tile>)
    requires 0 <= k < |ts|
    ensures |r| == |ts| - 1
    ensures forall i | 0 <= i < |r| :: r[i] == if i < k then ts[i] else ts[i + 1]
  {
    ts[..k] + ts[k + 1..]
  }

  /** `RemoveTile`, given the index of a board tile: absent, nothing happens. Otherwise
      the tile leaves the list, its box cells leave the cell index, its index leaves the
      set of its layer (an emptied set is dropped), its top face leaves the self shadow
      of its layer, its own shadow is dropped and the board is refreshed. */
  function RemoveTile(p: Pasture, index: int): (r: Pasture)
    requires Coherent(p)
    ensures Fresh(p.tiles, index) ==> r == p
    ensures !Fresh(p.tiles, index) ==> Refreshed(r) && Removed(p, Find(p.tiles, index), r)
    ensures SameSize(p, r)
  {
    var k := Find(p.tiles, index);
    if k < 0 then p else Lift(p, k)
  }

  /** The removing steps of `RemoveTile` for the tile at `k`, followed by the refresh. */
  function Lift(p: Pasture, k: int): (r: Pasture)
    requires Coherent(p) && 0 <= k < |p.tiles|
    ensures Refreshed(r) && Removed(p, k, r) && LiftedFields(p, k, r)
  {
    var q := Lifting(p, k);
    var r := Refresh(q);
    RefreshIdempotent(q);
    RemovedAfterRefresh(p, k, q, r);
    r
  }

  lemma RemovedAfterRefresh(p: Pasture, k: int, q: Pasture, r: Pasture)
    requires 0 <= k < |p.tiles| && q.tiles == RemoveAt(p.tiles, k) && Reflags(q.tiles, r.tiles)
    requires r.posTile == q.posTile && r.tileShadow == q.tileShadow
    requires forall c | c in p.tiles[k].coordinates :: c !in q.posTile
    requires p.tiles[k].index !in q.tileShadow
    requires Fresh(q.tiles, p.tiles[k].index)
    ensures Removed(p, k, r)
  {
    forall i | 0 <= i < |r.tiles| ensures r.tiles[i].index != p.tiles[k].index {
      assert Bare(r.tiles[i]) == Bare(q.tiles[i]);
    }
  }

  /** What removing the tile at `k` did: the other tiles keep their order and caches, its
      cells and index are gone from the dictionaries. */
  ghost predicate Removed(p: Pasture, k: int, r: Pasture)
    requires 0 <= k < |p.tiles|
  {
    && Reflags(RemoveAt(p.tiles, k), r.tiles)
    && (forall c | c in p.tiles[k].coordinates :: c !in r.posTile)
    && p.tiles[k].index !in r.tileShadow
    && Lookup(r, p.tiles[k].index).None?
  }

  /** The dictionaries and the manager after lifting the tile at `k`. */
  ghost predicate LiftedFields(p: Pasture, k: int, r: Pasture)
    requires 0 <= k < |p.tiles| && Consistent(p.manager)
    requires forall c | c in p.tiles[k].topCoordinates :: Fits(p.manager, c)
  {
    var t := p.tiles[k];
    && t.topZ in p.topZTiles
    && var set' := p.topZTiles[t.topZ] - {t.index};
    && r.posTile == (map c | c in p.posTile && c !in t.coordinates :: p.posTile[c])
    && r.topZTiles == (if set' == {} then p.topZTiles - {t.topZ} else p.topZTiles[t.topZ := set'])
    && r.tileShadow == p.tileShadow - {t.index}
    && Ok(r.manager) == RemoveSelfShadowAndRebuild(p.manager, t.topZ, t.topCoordinates)
    && r.maxRow == p.maxRow && r.maxCol == p.maxCol && r.maxLayer == p.maxLayer
  }

  /** The unrefreshed board after the removing steps of `RemoveTile`. */
  function Lifting(p: Pasture, k: int): (q: Pasture)
    requires Coherent(p) && 0 <= k < |p.tiles|
    ensures Coherent(q) && q.tiles == RemoveAt(p.tiles, k)
    ensures forall c | c in p.tiles[k].coordinates :: c !in q.posTile
    ensures p.tiles[k].index !in q.tileShadow
    ensures Fresh(q.tiles, p.tiles[k].index) && LiftedFields(p, k, q)
  {
    var t := p.tiles[k];
    assert Placed(p.manager, t);
    var topZTiles :=
      if t.topZ in p.topZTiles then
        var set' := p.topZTiles[t.topZ] - {t.index};
        if set' == {} then p.topZTiles - {t.topZ} else p.topZTiles[t.topZ := set']
      else p.topZTiles;
    var m2 := RemoveSelfShadowAndRebuild(p.manager, t.topZ, t.topCoordinates).value;
    var q := p.(
      tiles := RemoveAt(p.tiles, k),
      posTile := map c | c in p.posTile && c !in t.coordinates :: p.posTile[c],
      topZTiles := topZTiles,
      tileShadow := p.tileShadow - {t.index},
      manager := m2);
    RemovePlaced(p.manager, m2, p.tiles, k);
    RemoveCellIndexed(p.tiles, p.posTile, k);
    RemoveLayerIndexed(p.tiles, p.topZTiles, k);
    RemoveShadowIndexed(p.manager, m2, p.tiles, p.tileShadow, k);
    RemoveLayered(p, k, m2, q);
    q
  }

  lemma RemovePlaced(m: Manager, m': Manager, ts: seq<Tile>, k: int)
    requires TilesPlaced(m, ts) && SameDims(m, m') && 0 <= k < |ts|
    ensures TilesPlaced(m', RemoveAt(ts, k)) && Fresh(RemoveAt(ts, k), ts[k].index)
  {
    var us := RemoveAt(ts, k);
    forall i | 0 <= i < |us| ensures Placed(m', us[i]) && us[i].zone == PastureZone && us[i].index != ts[k].index {
      var j := if i < k then i else i + 1;
      assert us[i] == ts[j] && Placed(m, ts[j]);
    }
    forall i, j | 0 <= i < |us| && 0 <= j < |us| && i != j ensures us[i].index != us[j].index {
      var i' := if i < k then i else i + 1;
      var j' := if j < k then j else j + 1;
      assert us[i] == ts[i'] && us[j] == ts[j'];
    }
  }

  /** Distinct board tiles have disjoint boxes. */
  lemma BoxesDisjoint(ts: seq<Tile>, posTile: map<int, int>, i: int, j: int, c: int)
    requires DistinctIndices(ts) && CellIndexed(ts, posTile)
    requires 0 <= i < |ts| && 0 <= j < |ts| && c in ts[i].coordinates && c in ts[j].coordinates
    ensures i == j
  {
    assert posTile[c] == ts[i].index && posTile[c] == ts[j].index;
  }

  lemma RemoveCellIndexed(ts: seq<Tile>, posTile: map<int, int>, k: int)
    requires DistinctIndices(ts) && CellIndexed(ts, posTile) && 0 <= k < |ts|
    ensures CellIndexed(RemoveAt(ts, k), map c | c in posTile && c !in ts[k].coordinates :: posTile[c])
  {
    var us := RemoveAt(ts, k);
    var pt := map c | c in posTile && c !in ts[k].coordinates :: posTile[c];
    forall c | c in pt ensures exists i | 0 <= i < |us| :: c in us[i].coordinates {
      var j :| 0 <= j < |ts| && c in ts[j].coordinates;
      assert j != k;
      var i := if j < k then j else j - 1;
      assert us[i] == ts[j];
    }
    forall i, c | 0 <= i < |us| && c in us[i].coordinates ensures c in pt && pt[c] == us[i].index {
      var j := if i < k then i else i + 1;
      assert us[i] == ts[j];
      if c in ts[k].coordinates {
        BoxesDisjoint(ts, posTile, j, k, c);
      }
    }
  }

  lemma RemoveLayerIndexed(ts: seq<Tile>, topZTiles: map<int, set<int>>, k: int)
    requires DistinctIndices(ts) && LayerIndexed(ts, topZTiles) && 0 <= k < |ts|
    ensures var t := ts[k];
      var r :=
        if t.topZ in topZTiles then
          var set' := topZTiles[t.topZ] - {t.index};
          if set' == {} then topZTiles - {t.topZ} else topZTiles[t.topZ := set']
        else topZTiles;
      LayerIndexed(RemoveAt(ts, k), r)
  {
    var t := ts[k];
    var us := RemoveAt(ts, k);
    forall z ensures IndicesAt(us, z) == IndicesAt(ts, z) - (if z == t.topZ then {t.index} else {}) {
      IndicesRemove(ts, k, z);
    }
    forall i | 0 <= i < |us| ensures us[i].topZ in topZTiles && (us[i].topZ == t.topZ ==> us[i].index in topZTiles[t.topZ] - {t.index}) {
      var j := if i < k then i else i + 1;
      assert us[i] == ts[j];
      assert ts[j].index in IndicesAt(ts, ts[j].topZ);
    }
  }

  lemma IndicesRemove(ts: seq<Tile>, k: int, z: int)
    requires DistinctIndices(ts) && 0 <= k < |ts|
    ensures IndicesAt(RemoveAt(ts, k), z) == IndicesAt(ts, z) - (if z == ts[k].topZ then {ts[k].index} else {})
  {
    var us := RemoveAt(ts, k);
    forall x | x in IndicesAt(us, z) ensures x in IndicesAt(ts, z) && x != ts[k].index {
      var i :| 0 <= i < |us| && us[i].topZ == z && us[i].index == x;
      var j := if i < k then i else i + 1;
      assert us[i] == ts[j];
    }
    forall x | x in IndicesAt(ts, z) && x != ts[k].index ensures x in IndicesAt(us, z) {
      var j :| 0 <= j < |ts| && ts[j].topZ == z && ts[j].index == x;
      var i := if j < k then j else j - 1;
      assert us[i] == ts[j];
    }
  }

  lemma RemoveShadowIndexed(m: Manager, m': Manager, ts: seq<Tile>, tileShadow: map<int, Shadow>, k: int)
    requires DistinctIndices(ts) && ShadowIndexed(m, ts, tileShadow) && SameDims(m, m') && 0 <= k < |ts|
    ensures ShadowIndexed(m', RemoveAt(ts, k), tileShadow - {ts[k].index})
  {
    var us := RemoveAt(ts, k);
    var sh := tileShadow - {ts[k].index};
    forall x | x in sh ensures exists i | 0 <= i < |us| :: us[i].index == x {
      var j :| 0 <= j < |ts| && ts[j].index == x;
      var i := if j < k then j else j - 1;
      assert us[i] == ts[j];
    }
    forall i | 0 <= i < |us| ensures ShadowOf(m', sh, us[i]) {
      var j := if i < k then i else i + 1;
      assert us[i] == ts[j] && ShadowOf(m, tileShadow, ts[j]);
    }
  }

  /** Distinct board tiles topped on the same layer have disjoint top faces: a shared
      plane cell on one layer is one packed cell, which lies in both boxes. */
  lemma TopsDisjoint(m: Manager, ts: seq<Tile>, posTile: map<int, int>, i: int, j: int, c: (int, int))
    requires TilesPlaced(m, ts) && CellIndexed(ts, posTile)
    requires 0 <= i < |ts| && 0 <= j < |ts| && ts[i].topZ == ts[j].topZ
    requires c in CellsOf(ts[i].topCoordinates) && c in CellsOf(ts[j].topCoordinates)
    ensures i == j
  {
    var q :| q in ts[i].topCoordinates && Cell(q) == c;
    var q' :| q' in ts[j].topCoordinates && Cell(q') == c;
    assert Placed(m, ts[i]) && Placed(m, ts[j]);
    PackUnpack(q);
    PackUnpack(q');
    assert q == q';
    BoxesDisjoint(ts, posTile, i, j, q);
  }

  lemma FacesRemove(m: Manager, ts: seq<Tile>, posTile: map<int, int>, k: int, z: int)
    requires TilesPlaced(m, ts) && CellIndexed(ts, posTile) && 0 <= k < |ts|
    ensures Faces(RemoveAt(ts, k), z) == Faces(ts, z) - (if z == ts[k].topZ then CellsOf(ts[k].topCoordinates) else {})
  {
    var us := RemoveAt(ts, k);
    var t := ts[k];
    FaceMembersAll(ts, z);
    FaceMembersAll(us, z);
    forall c | c in Faces(us, z) ensures c in Faces(ts, z) && (z == t.topZ ==> c !in CellsOf(t.topCoordinates)) {
      var i :| 0 <= i < |us| && us[i].topZ == z && c in CellsOf(us[i].topCoordinates);
      var j := if i < k then i else i + 1;
      assert us[i] == ts[j];
      if z == t.topZ && c in CellsOf(t.topCoordinates) {
        TopsDisjoint(m, ts, posTile, j, k, c);
      }
    }
    forall c | c in Faces(ts, z) && !(z == t.topZ && c in CellsOf(t.topCoordinates)) ensures c in Faces(us, z) {
      var j :| 0 <= j < |ts| && ts[j].topZ == z && c in CellsOf(ts[j].topCoordinates);
      assert j != k;
      var i := if j < k then j else j - 1;
      assert us[i] == ts[j];
    }
  }

  lemma RemoveLayered(p: Pasture, k: int, m2: Manager, q: Pasture)
    requires Coherent(p) && 0 <= k < |p.tiles| && HasLayer(p.manager, p.tiles[k].topZ)
    requires forall c | c in p.tiles[k].topCoordinates :: Fits(p.manager, c)
    requires RemoveSelfShadowAndRebuild(p.manager, p.tiles[k].topZ, p.tiles[k].topCoordinates) == Ok(m2)
    requires q.tiles == RemoveAt(p.tiles, k) && q.manager == m2
    requires q.maxRow == p.maxRow && q.maxCol == p.maxCol && q.maxLayer == p.maxLayer
    ensures Layered(q) && SameDims(p.manager, m2)
  {
    forall z | 0 <= z < q.maxLayer ensures Cells(m2.self[z]) == Faces(q.tiles, z) {
      FacesRemove(p.manager, p.tiles, p.posTile, k, z);
    }
  }

  // ---------------------------------------------------------------- round trip

  /** Adding a tile that fits and then removing it by its index gives the refreshed board
      back, caches, shadows and flags included. */
  lemma AddThenRemoveTile(p: Pasture, tile: Tile)
    requires Refreshed(p) && WellFormed(tile) && Z(tile.volume) >= 1 && Fresh(p.tiles, tile.index)
    requires !Collides(p, tile) && HasLayer(p.manager, tile.topZ)
    requires forall c | c in tile.topCoordinates :: Fits(p.manager, c)
    ensures AddTile(p, tile).Ok? && RemoveTile(AddTile(p, tile).value, tile.index) == p
  {
    var m := AddSelfShadowAndRebuild(p.manager, tile.topZ, tile.topCoordinates).value;
    var a := Place(p, tile, m);
    assert AddTile(p, tile) == Ok(a) by {
      AddTileIsPlace(p, tile);
    }
    assert RemoveTile(a, tile.index) == Lift(a, |p.tiles|) by {
      FindLast(p, tile, a);
    }
    assert Lift(a, |p.tiles|) == p by {
      PlaceThenLift(p, tile);
    }
  }

  /** The placing steps and the lifting steps undo each other on a refreshed board. */
  lemma PlaceThenLift(p: Pasture, tile: Tile)
    requires Refreshed(p) && WellFormed(tile) && Z(tile.volume) >= 1 && Fresh(p.tiles, tile.index)
    requires !Collides(p, tile) && HasLayer(p.manager, tile.topZ)
    requires forall c | c in tile.topCoordinates :: Fits(p.manager, c)
    ensures var m := AddSelfShadowAndRebuild(p.manager, tile.topZ, tile.topCoordinates).value;
      Lift(Place(p, tile, m), |p.tiles|) == p
  {
    var m := AddSelfShadowAndRebuild(p.manager, tile.topZ, tile.topCoordinates).value;
    var a := Place(p, tile, m);
    var r := Lift(a, |p.tiles|);
    ManagerBack(p, tile);
    LiftPlaceFields(p, tile, m, a, r);
    ReflagsBack(p.tiles, a.tiles, r.tiles);
    RefreshedDetermined(p, r);
  }

  lemma AddTileIsPlace(p: Pasture, tile: Tile)
    requires Coherent(p) && WellFormed(tile) && Z(tile.volume) >= 1 && Fresh(p.tiles, tile.index)
    requires !Collides(p, tile) && HasLayer(p.manager, tile.topZ)
    requires forall c | c in tile.topCoordinates :: Fits(p.manager, c)
    ensures AddTile(p, tile) == Ok(Place(p, tile, AddSelfShadowAndRebuild(p.manager, tile.topZ, tile.topCoordinates).value))
  {
  }

  /** The manager gets its self shadow back: the new top face misses the faces already on
      its layer. */
  lemma ManagerBack(p: Pasture, tile: Tile)
    requires Coherent(p) && WellFormed(tile) && Z(tile.volume) >= 1
    requires !Collides(p, tile) && HasLayer(p.manager, tile.topZ)
    requires forall c | c in tile.topCoordinates :: Fits(p.manager, c)
    ensures var m := AddSelfShadowAndRebuild(p.manager, tile.topZ, tile.topCoordinates).value;
      RemoveSelfShadowAndRebuild(m, tile.topZ, tile.topCoordinates) == Ok(p.manager)
  {
    FacesMissTop(p.manager, p.tiles, p.posTile, tile);
    assert Cells(p.manager.self[tile.topZ]) == Faces(p.tiles, tile.topZ);
    AddThenRemoveRebuilt(p.manager, tile.topZ, tile.topCoordinates);
  }

  /** Lifting the tile just placed restores every dictionary, the manager and the plane. */
  lemma LiftPlaceFields(p: Pasture, tile: Tile, m: Manager, a: Pasture, r: Pasture)
    requires |a.tiles| == |p.tiles| + 1 && Consistent(a.manager)
    requires LayerIndexed(p.tiles, p.topZTiles) && Fresh(p.tiles, tile.index)
    requires forall c | c in tile.coordinates :: c !in p.posTile
    requires tile.index !in p.tileShadow
    requires Bare(a.tiles[|p.tiles|]) == Bare(tile.(zone := PastureZone))
    requires forall c | c in a.tiles[|p.tiles|].topCoordinates :: Fits(a.manager, c)
    requires PlacedFields(p, tile, m, a) && LiftedFields(a, |p.tiles|, r)
    requires RemoveSelfShadowAndRebuild(m, tile.topZ, tile.topCoordinates) == Ok(p.manager)
    ensures r == p.(tiles := r.tiles, unlocking := r.unlocking, visible := r.visible)
  {
    var t := a.tiles[|p.tiles|];
    assert t.index == tile.index && t.topZ == tile.topZ && t.coordinates == tile.coordinates
      && t.topCoordinates == tile.topCoordinates by {
      assert Bare(t) == Bare(tile.(zone := PastureZone));
    }
    assert r.posTile == p.posTile by {
      PosTileBack(p.posTile, tile.coordinates, tile.index);
    }
    assert r.topZTiles == p.topZTiles by {
      LayerBack(p, tile);
    }
    assert r.tileShadow == p.tileShadow by {
      ShadowBack(p.tileShadow, a.tileShadow, tile.index);
    }
    assert r.manager == p.manager;
    SameBoard(p, r);
  }

  lemma ShadowBack(s: map<int, Shadow>, a: map<int, Shadow>, index: int)
    requires index !in s && a.Keys == s.Keys + {index}
    requires forall i | i in s :: a[i] == s[i]
    ensures a - {index} == s
  {
    var b := a - {index};
    assert b.Keys == s.Keys;
    forall i | i in b ensures b[i] == s[i] {
    }
  }

  lemma SameBoard(p: Pasture, r: Pasture)
    requires r.posTile == p.posTile && r.topZTiles == p.topZTiles && r.tileShadow == p.tileShadow
    requires r.manager == p.manager && r.maxRow == p.maxRow && r.maxCol == p.maxCol && r.maxLayer == p.maxLayer
    ensures r == p.(tiles := r.tiles, unlocking := r.unlocking, visible := r.visible)
  {
  }

  /** Dropping the last tile of a reflagged extension reflags the original list. */
  lemma ReflagsBack(ts: seq<Tile>, us: seq<Tile>, vs: seq<Tile>)
    requires |us| == |ts| + 1 && Reflags(ts, us[..|ts|]) && Reflags(RemoveAt(us, |ts|), vs)
    ensures Reflags(ts, vs)
  {
    forall i | 0 <= i < |ts| ensures Bare(vs[i]) == Bare(ts[i]) {
      assert RemoveAt(us, |ts|)[i] == us[i] == us[..|ts|][i];
    }
  }

  /** The added tile is the first with its index. */
  lemma FindLast(p: Pasture, tile: Tile, a: Pasture)
    requires Fresh(p.tiles, tile.index) && Added(p, tile, a)
    ensures Find(a.tiles, tile.index) == |p.tiles|
  {
    var k := |p.tiles|;
    assert a.tiles[k].index == Bare(a.tiles[k]).index == tile.index;
    forall j | 0 <= j < k ensures a.tiles[j].index != tile.index {
      assert a.tiles[..k][j] == a.tiles[j];
      assert Bare(a.tiles[..k][j]) == Bare(p.tiles[j]);
    }
  }

  lemma PosTileBack(posTile: map<int, int>, cs: seq<int>, index: int)
    requires forall c | c in cs :: c !in posTile
    ensures var a := posTile + map c | c in cs :: index;
      (map c | c in a && c !in cs :: a[c]) == posTile
  {
    var a := posTile + map c | c in cs :: index;
    var b := map c | c in a && c !in cs :: a[c];
    forall c ensures c in b <==> c in posTile {
      if c in posTile {
        assert c !in cs;
      }
    }
    forall c | c in b ensures b[c] == posTile[c] {
    }
  }

  /** The layer index is back once the added index leaves its bucket again. */
  lemma LayerBack(p: Pasture, t: Tile)
    requires LayerIndexed(p.tiles, p.topZTiles) && Fresh(p.tiles, t.index)
    ensures var bucket := if t.topZ in p.topZTiles then p.topZTiles[t.topZ] else {};
      var a := p.topZTiles[t.topZ := bucket + {t.index}];
      var set' := a[t.topZ] - {t.index};
      (if set' == {} then a - {t.topZ} else a[t.topZ := set']) == p.topZTiles
  {
    if t.topZ in p.topZTiles {
      assert t.index !in IndicesAt(p.tiles, t.topZ);
    }
  }

  /** Two cells of 24-bit packed form on one layer with the same plane cell are one cell. */
  lemma SamePlaneCell(q: int, q': int)
    requires 0 <= q < 0x100_0000 && 0 <= q' < 0x100_0000 && Z(q) == Z(q') && Cell(q) == Cell(q')
    ensures q == q'
  {
    PackUnpack(q);
    PackUnpack(q');
  }

  lemma IndexedCell(ts: seq<Tile>, posTile: map<int, int>, j: int, q: int)
    requires CellIndexed(ts, posTile) && 0 <= j < |ts| && q in ts[j].coordinates
    ensures q in posTile
  {
  }

  /** A tile that meets no indexed cell has a top face disjoint from the faces on its layer. */
  lemma FacesMissTop(m: Manager, ts: seq<Tile>, posTile: map<int, int>, tile: Tile)
    requires TilesPlaced(m, ts) && CellIndexed(ts, posTile)
    requires WellFormed(tile) && Z(tile.volume) >= 1
    requires forall c | c in tile.coordinates :: c !in posTile
    ensures Faces(ts, tile.topZ) * CellsOf(tile.topCoordinates) == {}
  {
    var z := tile.topZ;
    TopFacts(tile);
    FaceMembersAll(ts, z);
    forall c | c in Faces(ts, z) ensures c !in CellsOf(tile.topCoordinates) {
      var j :| 0 <= j < |ts| && ts[j].topZ == z && c in CellsOf(ts[j].topCoordinates);
      if c in CellsOf(tile.topCoordinates) {
        var q :| q in ts[j].topCoordinates && Cell(q) == c;
        var q' :| q' in tile.topCoordinates && Cell(q') == c;
        assert Placed(m, ts[j]);
        assert q in ts[j].coordinates;
        IndexedCell(ts, posTile, j, q);
        assert q' in tile.coordinates && q' !in posTile;
        SamePlaneCell(q, q');
        assert false;
      }
    }
  }

  // ---------------------------------------------------------------- extracting

  /** `Extract`: the tile with the index, removed from the board; an unknown index fails
      like the dictionary lookup. */
  function Extract(p: Pasture, index: int): (r: Result<(Tile, Pasture)>)
    requires Coherent(p)
    ensures r.Fail? <==> Fresh(p.tiles, index)
    ensures r.Fail? ==> r.fault == KeyNotFound
    ensures r.Ok? ==> r.value.0.index == index && r.value.0 in p.tiles
    ensures r.Ok? ==> Refreshed(r.value.1) && Fresh(r.value.1.tiles, index)
    ensures r.Ok? ==> |r.value.1.tiles| == |p.tiles| - 1
    ensures r.Ok? ==> r.value.0 == p.tiles[Find(p.tiles, index)] && SameSize(p, r.value.1)
    ensures r.Ok? ==> Removed(p, Find(p.tiles, index), r.value.1)
  {
    match Lookup(p, index)
    case None => Fail(KeyNotFound)
    case Some(t) =>
      assert t == p.tiles[Find(p.tiles, index)] by {
        LookupAt(p, Find(p.tiles, index));
      }
      var r := RemoveTile(p, index);
      Ok((t, r))
  }

  /** What `AddTile` needs to place a tile: sound geometry, a new index, free cells and a
      top face on the plane. */
  ghost predicate Addable(p: Pasture, u: Tile) {
    && Coherent(p) && WellFormed(u) && Z(u.volume) >= 1 && Fresh(p.tiles, u.index)
    && !Collides(p, u) && HasLayer(p.manager, u.topZ)
    && forall c | c in u.topCoordinates :: Fits(p.manager, c)
  }

  /** Putting an extracted tile back, from whatever zone it has reached: adding it to the
      board it left succeeds and gives that board's tiles back, the returned tile last,
      with every flag recomputed. */
  lemma ExtractThenAdd(p: Pasture, index: int, zone: Zone) returns (t: Tile, q: Pasture, r: Pasture)
    requires Refreshed(p) && !Fresh(p.tiles, index)
    requires WellFormed(p.tiles[Find(p.tiles, index)]) && Z(p.tiles[Find(p.tiles, index)].volume) >= 1
    ensures Extract(p, index) == Ok((t, q)) && t == p.tiles[Find(p.tiles, index)]
    ensures Addable(q, SetZone(t, zone)) && AddTile(q, SetZone(t, zone)) == Ok(r)
    ensures Refreshed(r) && SameSize(p, r)
    ensures Reflags(RemoveAt(p.tiles, Find(p.tiles, index)) + [t], r.tiles)
  {
    var k := Find(p.tiles, index);
    t, q := ExtractAddable(p, index, zone);
    var u := SetZone(t, zone);
    r := AddBack(q, u);
    ReflagsJoin(RemoveAt(p.tiles, k), q.tiles, r.tiles, t);
  }

  lemma ExtractAddable(p: Pasture, index: int, zone: Zone) returns (t: Tile, q: Pasture)
    requires Refreshed(p) && !Fresh(p.tiles, index)
    requires WellFormed(p.tiles[Find(p.tiles, index)]) && Z(p.tiles[Find(p.tiles, index)].volume) >= 1
    ensures Extract(p, index) == Ok((t, q)) && t == p.tiles[Find(p.tiles, index)]
    ensures Addable(q, SetZone(t, zone)) && SameSize(p, q) && t.zone == PastureZone
    ensures Reflags(RemoveAt(p.tiles, Find(p.tiles, index)), q.tiles)
  {
    var k := Find(p.tiles, index);
    t := p.tiles[k];
    q := Extract(p, index).value.1;
    ReturnFits(p, k, q, SetZone(t, zone));
  }

  /** A tile lifted from a board fits back on what is left of it. */
  lemma ReturnFits(p: Pasture, k: int, q: Pasture, u: Tile)
    requires Coherent(p) && 0 <= k < |p.tiles| && Coherent(q) && Removed(p, k, q) && SameSize(p, q)
    requires u == SetZone(p.tiles[k], u.zone) && Fresh(q.tiles, u.index)
    requires WellFormed(p.tiles[k]) && Z(p.tiles[k].volume) >= 1
    ensures Addable(q, u) && p.tiles[k].zone == PastureZone
  {
    assert Placed(p.manager, p.tiles[k]) && p.tiles[k].zone == PastureZone;
  }

  lemma AddBack(q: Pasture, u: Tile) returns (r: Pasture)
    requires Addable(q, u)
    ensures AddTile(q, u) == Ok(r) && Refreshed(r) && SameSize(q, r) && Added(q, u, r)
    ensures r.manager.mode == q.manager.mode
  {
    var m := AddSelfShadowAndRebuild(q.manager, u.topZ, u.topCoordinates).value;
    r := Place(q, u, m);
    AddTileIsPlace(q, u);
  }

  lemma ReflagsJoin(ts: seq<Tile>, qs: seq<Tile>, rs: seq<Tile>, t: Tile)
    requires Reflags(ts, qs) && |rs| == |qs| + 1 && Reflags(qs, rs[..|qs|])
    requires Bare(rs[|qs|]) == Bare(t.(zone := PastureZone)) && t.zone == PastureZone
    ensures Reflags(ts + [t], rs)
  {
    forall i | 0 <= i < |rs| ensures Bare(rs[i]) == Bare((ts + [t])[i]) {
      if i < |qs| {
        assert rs[..|qs|][i] == rs[i];
      }
    }
  }
}
