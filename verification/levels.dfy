/** A level: the three zones built from packed positions and colours, and the history of
    the moves done on it, undone last first. */
module Levels {
  import opened Outcomes
  import opened Packed
  import opened LockStatus
  import opened Tiles
  import opened ShadowManager
  import opened Pastures
  import opened PastureEdits
  import opened StagingAreas
  import opened Corrals
  import opened Spreads
  import opened Moves

  /** A tile spans two cells along x and along y, so the board reaches one cell past the
      largest coordinate. */
  const TileUnitWidth: int := 2

  datatype Level = Level(zones: Zones, history: seq<SelectMove>)

  /** What every level keeps: its zones are sound. */
  ghost predicate Valid(l: Level) {
    Sound(l.zones)
  }

  // ---------------------------------------------------------------- sizing

  /** The largest element, and 0 for an empty list or when every element is negative: the
      running `Math.Max` that starts at 0. */
  function Largest(s: seq<int>): (r: int)
    ensures r >= 0 && forall i | 0 <= i < |s| :: s[i] <= r
    ensures r == 0 || exists i | 0 <= i < |s| :: s[i] == r
  {
    if s == [] then 0
    else
      var m := Largest(s[..|s| - 1]);
      assert forall i | 0 <= i < |s| - 1 :: s[..|s| - 1][i] == s[i];
      if s[|s| - 1] > m then s[|s| - 1] else m
  }

  function Xs(positions: seq<int>): (r: seq<int>)
    ensures |r| == |positions| && forall i | 0 <= i < |positions| :: r[i] == X(positions[i])
  {
    seq(|positions|, i requires 0 <= i < |positions| => X(positions[i]) as int)
  }

  function Ys(positions: seq<int>): (r: seq<int>)
    ensures |r| == |positions| && forall i | 0 <= i < |positions| :: r[i] == Y(positions[i])
  {
    seq(|positions|, i requires 0 <= i < |positions| => Y(positions[i]) as int)
  }

  function Zs(positions: seq<int>): (r: seq<int>)
    ensures |r| == |positions| && forall i | 0 <= i < |positions| :: r[i] == Z(positions[i])
  {
    seq(|positions|, i requires 0 <= i < |positions| => Z(positions[i]) as int)
  }

  /** The board's columns, rows and layers for the positions. */
  function Columns(positions: seq<int>): int { Largest(Xs(positions)) + TileUnitWidth }
  function Rows(positions: seq<int>): int { Largest(Ys(positions)) + TileUnitWidth }
  function Layers(positions: seq<int>): int { Largest(Zs(positions)) + 1 }

  /** The tile built for position `i`: a default-volume tile put in the pasture zone. */
  function LevelTile(positions: seq<int>, colors: seq<int>, i: int): Tile
    requires 0 <= i < |positions| && |positions| == |colors|
  {
    SetZone(NewTile(i, positions[i], colors[i]), PastureZone)
  }

  function LevelTiles(positions: seq<int>, colors: seq<int>): (r: seq<Tile>)
    requires |positions| == |colors|
    ensures |r| == |positions| && forall i | 0 <= i < |r| :: r[i] == LevelTile(positions, colors, i)
  {
    seq(|positions|, i requires 0 <= i < |positions| => LevelTile(positions, colors, i))
  }

  // ---------------------------------------------------------------- placing

  /** The cells of the boxes of the tiles. */
  ghost function Occupied(ts: seq<Tile>): set<int> {
    set i, c | 0 <= i < |ts| && c in ts[i].coordinates :: c
  }

  ghost function CellsOf(t: Tile): set<int> {
    set c | c in t.coordinates
  }

  /** The tile's box meets one of the cells. */
  ghost predicate Meets(cells: set<int>, t: Tile) {
    exists c | c in t.coordinates :: c in cells
  }

  /** Of the tiles in turn, those whose box misses the cells already taken, each taking its
      own: what adding the tiles one by one to a board with those cells leaves standing. */
  ghost function Survivors(cells: set<int>, ts: seq<Tile>): seq<Tile>
    decreases |ts|
  {
    if ts == [] then []
    else if Meets(cells, ts[0]) then Survivors(cells, ts[1..])
    else [ts[0]] + Survivors(cells + CellsOf(ts[0]), ts[1..])
  }

  /** Survivors are some of the tiles. */
  lemma {:induction false} SurvivorsWithin(cells: set<int>, ts: seq<Tile>)
    ensures forall j | 0 <= j < |Survivors(cells, ts)| :: Survivors(cells, ts)[j] in ts
    decreases |ts|
  {
    if ts != [] {
      var rest := ts[1..];
      assert forall t | t in rest :: t in ts;
      if Meets(cells, ts[0]) {
        SurvivorsWithin(cells, rest);
      } else {
        SurvivorsWithin(cells + CellsOf(ts[0]), rest);
      }
    }
  }

  /** On a coherent board a tile collides exactly when its box meets the cells of the
      board's tiles. */
  lemma CollidesMeets(p: Pasture, t: Tile)
    requires Coherent(p)
    ensures Collides(p, t) == Meets(Occupied(p.tiles), t)
  {
    if Collides(p, t) {
      var c :| c in t.coordinates && c in p.posTile;
      var i :| 0 <= i < |p.tiles| && c in p.tiles[i].coordinates;
      assert c in Occupied(p.tiles);
    }
    if Meets(Occupied(p.tiles), t) {
      var c :| c in t.coordinates && c in Occupied(p.tiles);
      var i :| 0 <= i < |p.tiles| && c in p.tiles[i].coordinates;
      assert c in p.posTile;
    }
  }

  lemma OccupiedReflags(ts: seq<Tile>, us: seq<Tile>)
    requires Reflags(ts, us)
    ensures Occupied(us) == Occupied(ts)
  {
    assert forall i | 0 <= i < |ts| :: us[i].coordinates == Bare(us[i]).coordinates == Bare(ts[i]).coordinates;
  }

  lemma OccupiedAppend(ts: seq<Tile>, t: Tile)
    ensures Occupied(ts + [t]) == Occupied(ts) + CellsOf(t)
  {
    var us := ts + [t];
    forall c | c in Occupied(us) ensures c in Occupied(ts) + CellsOf(t) {
      var i :| 0 <= i < |us| && c in us[i].coordinates;
      if i < |ts| {
        assert us[i] == ts[i];
      }
    }
    forall c | c in Occupied(ts) ensures c in Occupied(us) {
      var i :| 0 <= i < |ts| && c in ts[i].coordinates;
      assert us[i] == ts[i];
    }
    forall c | c in t.coordinates ensures c in Occupied(us) {
      assert us[|ts|] == t;
    }
  }

  lemma ReflagsAppend(a: seq<Tile>, b: seq<Tile>, s: seq<Tile>)
    requires Reflags(a, b)
    ensures Reflags(a + s, b + s)
  {
    forall i | 0 <= i < |a + s| ensures Bare((b + s)[i]) == Bare((a + s)[i]) {
      if i < |a| {
        assert (b + s)[i] == b[i] && (a + s)[i] == a[i];
      }
    }
  }

  lemma ReflagsTrans(a: seq<Tile>, b: seq<Tile>, c: seq<Tile>)
    requires Reflags(a, b) && Reflags(b, c)
    ensures Reflags(a, c)
  {
  }

  /** A tile ready for the board: built from its geometry, in the pasture zone, fitting. */
  ghost predicate Ready(p: Pasture, t: Tile) {
    Fitting(p, t) && t.zone == PastureZone
  }

  /** One `AddTile` of the constructor's loop. */
  lemma AddStep(p: Pasture, t: Tile) returns (q: Pasture)
    requires Refreshed(p) && Ready(p, t) && Fresh(p.tiles, t.index)
    ensures AddTile(p, t) == Ok(q) && Refreshed(q) && SameSize(p, q) && q.manager.mode == p.manager.mode
    ensures Meets(Occupied(p.tiles), t) ==> q == p
    ensures !Meets(Occupied(p.tiles), t) ==> Reflags(p.tiles + [t], q.tiles)
  {
    CollidesMeets(p, t);
    if Collides(p, t) {
      q := p;
    } else {
      ReadyAddable(p, t);
      q := AddBack(p, t);
      AddedReflags(p, t, q);
    }
  }

  lemma ReadyAddable(p: Pasture, t: Tile)
    requires Coherent(p) && Ready(p, t) && Fresh(p.tiles, t.index) && !Collides(p, t)
    ensures Addable(p, t)
  {
  }

  lemma ReadyFits(p: Pasture, t: Tile)
    requires Coherent(p) && Ready(p, t)
    ensures WellFormed(t) && Z(t.volume) >= 1 && forall c | c in t.topCoordinates :: Fits(p.manager, c)
  {
  }

  lemma AddedReflags(p: Pasture, t: Tile, q: Pasture)
    requires Added(p, t, q) && t.zone == PastureZone
    ensures Reflags(p.tiles + [t], q.tiles)
  {
    ReflagsAppend(p.tiles, q.tiles[..|p.tiles|], [t]);
    assert q.tiles == q.tiles[..|p.tiles|] + [q.tiles[|p.tiles|]];
  }

  ghost predicate StepDone(p: Pasture, t: Tile, q: Pasture) {
    && Refreshed(q) && SameSize(p, q) && q.manager.mode == p.manager.mode
    && (Meets(Occupied(p.tiles), t) ==> q == p)
    && (!Meets(Occupied(p.tiles), t) ==> Reflags(p.tiles + [t], q.tiles))
  }

  /** One `AddTile` of the constructor's loop, as a function of the board. */
  function Step(p: Pasture, t: Tile): (q: Pasture)
    requires Refreshed(p) && Ready(p, t) && Fresh(p.tiles, t.index)
    ensures StepDone(p, t, q)
  {
    assert WellFormed(t) && Z(t.volume) >= 1 && forall c | c in t.topCoordinates :: Fits(p.manager, c) by {
      ReadyFits(p, t);
    }
    assert AddTile(p, t).Ok? && StepDone(p, t, AddTile(p, t).value) by {
      var q := AddStep(p, t);
    }
    AddTile(p, t).value
  }

  /** The constructor's loop: `AddTile` for each tile in turn. */
  function Populate(p: Pasture, ts: seq<Tile>): (r: Pasture)
    requires Refreshed(p) && DistinctIndices(ts)
    requires forall i | 0 <= i < |ts| :: Ready(p, ts[i]) && Fresh(p.tiles, ts[i].index)
    ensures Refreshed(r) && SameSize(p, r) && r.manager.mode == p.manager.mode
    decreases |ts|
  {
    if ts == [] then p
    else
      var q := Step(p, ts[0]);
      RestReady(p, ts, q);
      Populate(q, ts[1..])
  }

  /** The constructor's loop leaves the survivors after the board's tiles, in order, with
      their flags recomputed. */
  lemma {:induction false} PopulateSurvivors(p: Pasture, ts: seq<Tile>)
    requires Refreshed(p) && DistinctIndices(ts)
    requires forall i | 0 <= i < |ts| :: Ready(p, ts[i]) && Fresh(p.tiles, ts[i].index)
    ensures Reflags(p.tiles + Survivors(Occupied(p.tiles), ts), Populate(p, ts).tiles)
    decreases |ts|
  {
    if ts == [] {
      assert p.tiles + [] == p.tiles;
    } else {
      var q := Step(p, ts[0]);
      RestReady(p, ts, q);
      PopulateSurvivors(q, ts[1..]);
      PopulateStep(p, ts, q, Populate(q, ts[1..]));
    }
  }

  /** After the first tile is added, the others are still ready for the board. */
  lemma RestReady(p: Pasture, ts: seq<Tile>, q: Pasture)
    requires ts != [] && DistinctIndices(ts) && SameSize(p, q)
    requires forall i | 0 <= i < |ts| :: Ready(p, ts[i]) && Fresh(p.tiles, ts[i].index)
    requires Meets(Occupied(p.tiles), ts[0]) ==> q == p
    requires !Meets(Occupied(p.tiles), ts[0]) ==> Reflags(p.tiles + [ts[0]], q.tiles)
    ensures DistinctIndices(ts[1..])
    ensures forall i | 0 <= i < |ts| - 1 :: Ready(q, ts[1..][i]) && Fresh(q.tiles, ts[1..][i].index)
  {
    var t := ts[0];
    var rest := ts[1..];
    assert forall i | 0 <= i < |rest| :: rest[i] == ts[i + 1];
    forall i | 0 <= i < |rest| ensures Ready(q, rest[i]) && Fresh(q.tiles, rest[i].index) {
      assert rest[i].index != t.index;
      if !Meets(Occupied(p.tiles), t) {
        assert forall j | 0 <= j < |q.tiles| :: q.tiles[j].index == Bare(q.tiles[j]).index == (p.tiles + [t])[j].index;
      }
    }
  }

  lemma PopulateStep(p: Pasture, ts: seq<Tile>, q: Pasture, r: Pasture)
    requires ts != []
    requires Meets(Occupied(p.tiles), ts[0]) ==> q == p
    requires !Meets(Occupied(p.tiles), ts[0]) ==> Reflags(p.tiles + [ts[0]], q.tiles)
    requires Reflags(q.tiles + Survivors(Occupied(q.tiles), ts[1..]), r.tiles)
    ensures Reflags(p.tiles + Survivors(Occupied(p.tiles), ts), r.tiles)
  {
    var t := ts[0];
    var rest := ts[1..];
    if !Meets(Occupied(p.tiles), t) {
      var cells := Occupied(p.tiles) + CellsOf(t);
      assert Occupied(q.tiles) == cells by {
        OccupiedReflags(p.tiles + [t], q.tiles);
        OccupiedAppend(p.tiles, t);
      }
      var s := Survivors(cells, rest);
      assert Survivors(Occupied(p.tiles), ts) == [t] + s;
      ReflagsAppend(p.tiles + [t], q.tiles, s);
      assert p.tiles + ([t] + s) == p.tiles + [t] + s;
      ReflagsTrans(p.tiles + [t] + s, q.tiles + s, r.tiles);
    }
  }

  // ---------------------------------------------------------------- constructing

  /** A level tile fits the board sized for its positions: its top face lies on a layer
      up to the largest z, and its two columns and rows reach at most one past the largest
      x and y. */
  lemma LevelTileReady(p: Pasture, positions: seq<int>, colors: seq<int>, i: int)
    requires |positions| == |colors| && 0 <= i < |positions|
    requires p.maxCol == Columns(positions) && p.maxRow == Rows(positions) && p.maxLayer == Layers(positions)
    ensures Ready(p, LevelTile(positions, colors, i))
  {
    var pos := positions[i];
    assert X(pos) + TileUnitWidth <= p.maxCol by { assert Xs(positions)[i] == X(pos); }
    assert Y(pos) + TileUnitWidth <= p.maxRow by { assert Ys(positions)[i] == Y(pos); }
    assert Z(pos) < p.maxLayer by { assert Zs(positions)[i] == Z(pos); }
    LevelTileShape(positions, colors, i);
    DefaultFitting(p, LevelTile(positions, colors, i));
  }

  lemma LevelTileShape(positions: seq<int>, colors: seq<int>, i: int)
    requires |positions| == |colors| && 0 <= i < |positions|
    ensures var t := LevelTile(positions, colors, i);
      && WellFormed(t) && t.zone == PastureZone && t.index == i && t.volume == DefaultVolume && t.position == positions[i]
  {
    var u := NewTile(i, positions[i], colors[i]);
    assert LevelTile(positions, colors, i) == u.(zone := PastureZone);
  }

  /** A default-volume tile has its top face on its own layer and over columns x, x + 1
      and rows y, y + 1, each wrapped to a byte: it fits a board one layer above its z and
      two cells past its x and y. */
  lemma DefaultFitting(p: Pasture, t: Tile)
    requires WellFormed(t) && t.volume == DefaultVolume
    requires X(t.position) + TileUnitWidth <= p.maxCol && Y(t.position) + TileUnitWidth <= p.maxRow
    requires Z(t.position) < p.maxLayer
    ensures Fitting(p, t)
  {
    var v, pos := DefaultVolume, t.position;
    DefaultDims();
    assert t.topZ == Z(pos) by {
      assert ComputeTopZ(pos, v) == Z(pos) + Z(v) - 1;
    }
    forall q | q in t.topCoordinates ensures X(q) < p.maxCol && Y(q) < p.maxRow {
      DefaultTopCell(pos, q);
    }
  }

  /** A default-volume top cell lies at most one column and one row past the position. */
  lemma DefaultTopCell(pos: int, q: int)
    requires q in TopCells(pos, DefaultVolume)
    ensures X(q) <= X(pos) + 1 && Y(q) <= Y(pos) + 1
  {
    var v := DefaultVolume;
    DefaultDims();
    TopCellsMembers(pos, v);
    var a, b :| 0 <= a < 2 && 0 <= b < 2 && q == TopCell(pos, v, a, b);
    TopCellFits(pos, v, a, b);
  }

  lemma TopCellFits(pos: int, v: int, a: int, b: int)
    requires 0 <= a && 0 <= b
    ensures X(TopCell(pos, v, a, b)) <= X(pos) + a && Y(TopCell(pos, v, a, b)) <= Y(pos) + b
  {
    CellBelow(TopCell(pos, v, a, b), X(pos) + a, Y(pos) + b, ComputeTopZ(pos, v));
  }

  /** A packed cell's column and row are no larger than the coordinates it was packed from. */
  lemma CellBelow(q: int, x: int, y: int, z: int)
    requires q == Pack(x, y, z) && x >= 0 && y >= 0
    ensures X(q) <= x && Y(q) <= y
  {
    PackAxes(x, y, z);
    Low8Below(x);
    Low8Below(y);
  }

  lemma Low8Below(v: int)
    requires v >= 0
    ensures Low8(v) <= v
  {
    if v >= 256 {
      assert Low8(v) < 256;
    }
  }

  /** The level tiles carry their positions' indices and fit the board. */
  lemma LevelTilesFit(p: Pasture, positions: seq<int>, colors: seq<int>)
    requires |positions| == |colors|
    requires p.maxCol == Columns(positions) && p.maxRow == Rows(positions) && p.maxLayer == Layers(positions)
    ensures DistinctIndices(LevelTiles(positions, colors))
    ensures forall i | 0 <= i < |positions| :: Ready(p, LevelTiles(positions, colors)[i])
  {
    var ts := LevelTiles(positions, colors);
    forall i | 0 <= i < |positions| ensures Ready(p, ts[i]) && ts[i].index == i {
      LevelTileReady(p, positions, colors, i);
    }
  }

  lemma LevelTilesReady(p: Pasture, positions: seq<int>, colors: seq<int>)
    requires |positions| == |colors| && p.tiles == []
    requires p.maxCol == Columns(positions) && p.maxRow == Rows(positions) && p.maxLayer == Layers(positions)
    ensures DistinctIndices(LevelTiles(positions, colors))
    ensures forall i | 0 <= i < |positions| ::
      Ready(p, LevelTiles(positions, colors)[i]) && Fresh(p.tiles, LevelTiles(positions, colors)[i].index)
  {
    LevelTilesFit(p, positions, colors);
  }

  /** Tiles left standing from ready ones, with their flags recomputed, are spread over a
      board of the same size. */
  lemma SurvivorsSpread(p0: Pasture, p: Pasture, ts: seq<Tile>)
    requires SameSize(p0, p) && DistinctIndices(p.tiles)
    requires forall i | 0 <= i < |ts| :: Ready(p0, ts[i])
    requires Reflags(Survivors({}, ts), p.tiles)
    ensures Spread(p, p.tiles)
  {
    var s := Survivors({}, ts);
    SurvivorsWithin({}, ts);
    forall j | 0 <= j < |p.tiles| ensures Fitting(p, p.tiles[j]) {
      assert s[j] in ts;
      assert Bare(p.tiles[j]) == Bare(s[j]);
      FittingShape(p0, p, s[j], p.tiles[j]);
    }
  }

  /** What the constructor builds: a valid level with no history whose board is sized for
      the positions and holds the tiles that survive, in order, with their flags recomputed,
      and whose slots and corral are empty. */
  ghost predicate Built(positions: seq<int>, colors: seq<int>, capacity: int, required: int, mode: Propagation, l: Level)
    requires |positions| == |colors|
  {
    Valid(l) && Laid(positions, colors, capacity, required, mode, l)
  }

  ghost predicate Laid(positions: seq<int>, colors: seq<int>, capacity: int, required: int, mode: Propagation, l: Level)
    requires |positions| == |colors|
  {
    && l.history == []
    && l.zones.pasture.manager.mode == mode
    && l.zones.pasture.maxCol == Columns(positions) && l.zones.pasture.maxRow == Rows(positions)
    && l.zones.pasture.maxLayer == Layers(positions)
    && Reflags(Survivors({}, LevelTiles(positions, colors)), l.zones.pasture.tiles)
    && l.zones.staging.tiles == [] && l.zones.staging.capacity == capacity && l.zones.staging.required == required
    && l.zones.corral.tiles == []
  }

  lemma BuiltLevel(positions: seq<int>, colors: seq<int>, mode: Propagation, p: Pasture, s: Staging)
    requires |positions| == |colors| && Refreshed(p) && p.manager.mode == mode
    requires p.maxCol == Columns(positions) && p.maxRow == Rows(positions) && p.maxLayer == Layers(positions)
    requires Reflags(Survivors({}, LevelTiles(positions, colors)), p.tiles)
    requires StagingAreas.Valid(s) && s.tiles == []
    ensures Built(positions, colors, s.capacity, s.required, mode, Level(Zones(p, s, NewCorral()), []))
  {
    LevelTilesFit(p, positions, colors);
    SurvivorsSpread(p, p, LevelTiles(positions, colors));
    EmptySound(p, s);
  }

  /** A board whose tiles are spread over it, with empty slots and corral. */
  lemma EmptySound(p: Pasture, s: Staging)
    requires Refreshed(p) && Spread(p, p.tiles) && StagingAreas.Valid(s) && s.tiles == []
    ensures Sound(Zones(p, s, NewCorral()))
  {
    assert AllTiles(Zones(p, s, NewCorral())) == p.tiles;
    CapacityFacts(s);
  }

  /** The constructor's board: sized for the positions, with the tiles that survive adding
      each position's tile in order. */
  function Board(positions: seq<int>, colors: seq<int>, mode: Propagation): (p: Pasture)
    requires |positions| == |colors|
    ensures Refreshed(p) && p.manager.mode == mode
    ensures p.maxCol == Columns(positions) && p.maxRow == Rows(positions) && p.maxLayer == Layers(positions)
    ensures Reflags(Survivors({}, LevelTiles(positions, colors)), p.tiles)
  {
    var ts := LevelTiles(positions, colors);
    var p0 := NewPasture(Rows(positions), Columns(positions), Layers(positions), mode).value;
    assert DistinctIndices(ts) && forall i | 0 <= i < |ts| :: Ready(p0, ts[i]) && Fresh(p0.tiles, ts[i].index) by {
      LevelTilesReady(p0, positions, colors);
    }
    assert Reflags(Survivors({}, ts), Populate(p0, ts).tiles) by {
      PopulateSurvivors(p0, ts);
      EmptyPrefix(p0.tiles, ts, Populate(p0, ts).tiles);
    }
    Populate(p0, ts)
  }

  lemma EmptyPrefix(a: seq<Tile>, ts: seq<Tile>, r: seq<Tile>)
    requires a == [] && Reflags(a + Survivors(Occupied(a), ts), r)
    ensures Reflags(Survivors({}, ts), r)
  {
    assert Occupied(a) == {};
    assert a + Survivors({}, ts) == Survivors({}, ts);
  }

  /** `new Level(positions, colors, slotCapacity, k, mode)`: the arguments are checked in
      turn (no positions or a colour list of another length, then a non-positive capacity
      or group size, then a group larger than the slots); the board is sized from the
      largest coordinates and each position's tile is added in order, a tile whose box
      meets a cell already taken being dropped. */
  function NewLevel(positions: seq<int>, colors: seq<int>, capacity: int, required: int, mode: Propagation): (r: Result<Level>)
    ensures |positions| == 0 ==> r == Fail(Argument)
    ensures |positions| > 0 && |positions| != |colors| ==> r == Fail(Argument)
    ensures |positions| > 0 && |positions| == |colors| && (capacity <= 0 || required <= 0) ==> r == Fail(ArgumentOutOfRange)
    ensures |positions| > 0 && |positions| == |colors| && 0 < capacity < required ==> r == Fail(Argument)
    ensures r.Ok? <==> |positions| > 0 && |positions| == |colors| && 0 < required <= capacity
    ensures r.Ok? ==> Built(positions, colors, capacity, required, mode, r.value)
  {
    if |positions| == 0 || |positions| != |colors| then Fail(Argument)
    else if capacity <= 0 || required <= 0 then Fail(ArgumentOutOfRange)
    else
      var p := Board(positions, colors, mode);
      var s :- NewStaging(capacity, required);
      assert Built(positions, colors, capacity, required, mode, Level(Zones(p, s, NewCorral()), [])) by {
        BuiltLevel(positions, colors, mode, p, s);
      }
      Ok(Level(Zones(p, s, NewCorral()), []))
  }

  // ---------------------------------------------------------------- history

  /** The level after a move: the zones as the move left them and the move, with what it
      recorded, appended to the history. */
  ghost predicate Recorded(l: Level, index: int, l1: Level) {
    && |l1.history| == |l.history| + 1 && l1.history[..|l.history|] == l.history
    && Moved(l.zones, l1.zones, l1.history[|l.history|], index)
  }

  /** `DoMove`: a move that cannot be done is rejected; otherwise it is done and kept. */
  function DoMove(l: Level, index: int): (r: Result<Level>)
    requires Valid(l)
    ensures !CanDo(l.zones, index) ==> r == Fail(InvalidOperation)
    ensures CanDo(l.zones, index) ==> r.Ok? && Valid(r.value) && Recorded(l, index, r.value)
  {
    if !CanDo(l.zones, index) then Fail(InvalidOperation)
    else
      assert Do(l.zones, index).Ok? && Sound(Do(l.zones, index).value.0)
        && Moved(l.zones, Do(l.zones, index).value.0, Do(l.zones, index).value.1, index) by {
        var _, _ := DoSound(l.zones, index);
      }
      var e := Do(l.zones, index).value;
      assert (l.history + [e.1])[..|l.history|] == l.history;
      Ok(Level(e.0, l.history + [e.1]))
  }

  /** `UndoMove`: with no history it fails; otherwise the last move is undone and dropped. */
  function UndoMove(l: Level): (r: Result<Level>)
    requires Undoable(l.zones)
    ensures l.history == [] ==> r == Fail(ArgumentOutOfRange)
    ensures l.history != [] ==> (r.Ok? <==> Undo(l.zones, l.history[|l.history| - 1]).Ok?)
    ensures r.Ok? ==> r.value.history == l.history[..|l.history| - 1]
    ensures r.Ok? ==> r.value.zones == Undo(l.zones, l.history[|l.history| - 1]).value.0
  {
    if l.history == [] then Fail(ArgumentOutOfRange)
    else
      var e :- Undo(l.zones, l.history[|l.history| - 1]);
      Ok(Level(e.0, l.history[..|l.history| - 1]))
  }

  /** `UndoMove` after `DoMove` gives back the history and the zones, up to the board's
      order and flags and the order of the slots, and the level is valid again. */
  lemma DoMoveThenUndoMove(l: Level, index: int) returns (l1: Level, l2: Level)
    requires Valid(l) && CanDo(l.zones, index)
    ensures DoMove(l, index) == Ok(l1) && Valid(l1) && Undoable(l1.zones)
    ensures UndoMove(l1) == Ok(l2) && l2.history == l.history
    ensures Restores(l.zones, index, l2.zones) && Valid(l2)
  {
    var z1, m, z2 := DoThenUndo(l.zones, index);
    l1 := Level(z1, l.history + [m]);
    l2 := Level(z2, l.history);
    DoMoveValue(l, index, z1, m);
    UndoMoveValue(l1, l.history, m, z2);
  }

  lemma DoMoveValue(l: Level, index: int, z1: Zones, m: SelectMove)
    requires Valid(l) && CanDo(l.zones, index) && Do(l.zones, index) == Ok((z1, m))
    ensures DoMove(l, index) == Ok(Level(z1, l.history + [m]))
  {
  }

  lemma UndoMoveValue(l: Level, h: seq<SelectMove>, m: SelectMove, z2: Zones)
    requires Undoable(l.zones) && l.history == h + [m]
    requires Undo(l.zones, m) == Ok((z2, SelectMove(m.tileIndex, false, [])))
    ensures UndoMove(l) == Ok(Level(z2, h))
  {
    assert l.history[..|l.history| - 1] == h;
  }
}
