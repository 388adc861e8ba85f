/** The layer shadow manager: per layer z (0 the bottom, maxLayer - 1 the top) the
    self shadow, the top faces lying on layer z, and the incoming shadow, what covers
    layer z from above. The manager knows nothing of tiles, only cells per layer. */
module ShadowManager {
  import opened Outcomes
  import opened Packed
  import opened LayerShadows

  /** How cover propagates downwards. */
  datatype Propagation =
    | DirectOnly   // a layer is covered by the layer directly above it only
    | Cascade      // a layer is covered by every layer above it

  datatype Manager = Manager(
    mode: Propagation,
    maxRow: int,
    maxCol: int,
    maxLayer: int,
    self: seq<Shadow>,
    incoming: seq<Shadow>)

  /** A shadow of the manager's plane. */
  ghost predicate OnPlane(m: Manager, s: Shadow) {
    Valid(s) && s.maxRow == m.maxRow && s.maxCol == m.maxCol
  }

  predicate AllSized(layers: seq<Shadow>) {
    forall k | 0 <= k < |layers| :: Sized(layers[k])
  }

  /** What the constructor establishes and every operation keeps. */
  ghost predicate Consistent(m: Manager) {
    && m.maxRow > 0 && m.maxCol > 0 && m.maxLayer > 0
    && |m.self| == m.maxLayer && |m.incoming| == m.maxLayer
    && AllSized(m.self) && AllSized(m.incoming)
    && (forall z | 0 <= z < m.maxLayer :: OnPlane(m, m.self[z]))
    && (forall z | 0 <= z < m.maxLayer :: OnPlane(m, m.incoming[z]))
  }

  /** The `(uint)z >= (uint)maxLayer` guard, read positively. */
  predicate HasLayer(m: Manager, z: int) {
    0 <= z < m.maxLayer
  }

  /** The cell of a packed position lies on the plane (the DEBUG range check of a shadow). */
  predicate Fits(m: Manager, position: int) {
    X(position) < m.maxCol && Y(position) < m.maxRow
  }

  /** The cells occupied on the layers strictly above `z`. */
  ghost function Above(self: seq<Shadow>, z: int): set<(int, int)>
    requires AllSized(self)
    decreases |self| - z
  {
    if z + 1 >= |self| || z + 1 < 0 then {} else Cells(self[z + 1]) + Above(self, z + 1)
  }

  /** Independent reading of `Above`: a cell is above `z` iff some higher layer occupies it. */
  lemma {:induction false} AboveMeans(self: seq<Shadow>, z: nat, c: (int, int))
    requires AllSized(self)
    ensures c in Above(self, z) <==> exists k | z < k < |self| :: c in Cells(self[k])
    decreases |self| - z
  {
    if z + 1 < |self| {
      AboveMeans(self, z + 1, c);
      if c in Above(self, z) && c !in Cells(self[z + 1]) {
        var k :| z + 1 < k < |self| && c in Cells(self[k]);
      }
    }
  }

  /** What the incoming shadow of layer `z` must hold once propagation is rebuilt. */
  ghost function Expected(mode: Propagation, self: seq<Shadow>, z: int): set<(int, int)>
    requires AllSized(self)
  {
    match mode
    case DirectOnly => if 0 <= z && z + 1 < |self| then Cells(self[z + 1]) else {}
    case Cascade => Above(self, z)
  }

  /** The incoming shadows are up to date with the self shadows. */
  ghost predicate Propagated(m: Manager)
    requires Consistent(m)
  {
    forall z | 0 <= z < m.maxLayer :: Cells(m.incoming[z]) == Expected(m.mode, m.self, z)
  }

  /** The constructor: every dimension must be positive; all shadows start empty. */
  function NewManager(mode: Propagation, maxRow: int, maxCol: int, maxLayer: int): (r: Result<Manager>)
    ensures r.Ok? <==> maxRow > 0 && maxCol > 0 && maxLayer > 0
    ensures r.Fail? ==> r.fault == ArgumentOutOfRange
    ensures r.Ok? ==> Consistent(r.value) && Propagated(r.value)
    ensures r.Ok? ==> (r.value.mode == mode && r.value.maxRow == maxRow && r.value.maxCol == maxCol
      && r.value.maxLayer == maxLayer)
    ensures r.Ok? ==> forall z | 0 <= z < maxLayer :: Cells(r.value.self[z]) == {} && Cells(r.value.incoming[z]) == {}
  {
    var _ :- Need(maxRow > 0, ArgumentOutOfRange);
    var _ :- Need(maxCol > 0, ArgumentOutOfRange);
    var _ :- Need(maxLayer > 0, ArgumentOutOfRange);
    var empty := NewShadow(maxRow, maxCol);
    var m := Manager(mode, maxRow, maxCol, maxLayer, seq(maxLayer, _ => empty), seq(maxLayer, _ => empty));
    forall z | 0 <= z < maxLayer ensures Cells(m.incoming[z]) == Expected(mode, m.self, z) {
      EmptyAbove(m.self, z);
    }
    Ok(m)
  }

  lemma {:induction false} EmptyAbove(self: seq<Shadow>, z: int)
    requires AllSized(self) && forall k | 0 <= k < |self| :: Cells(self[k]) == {}
    ensures Above(self, z) == {}
    decreases |self| - z
  {
    if z + 1 < |self| && z + 1 >= 0 {
      EmptyAbove(self, z + 1);
    }
  }

  /** Shadows of one plane have word arrays of one length. */
  lemma SameWords(m: Manager, a: Shadow, b: Shadow)
    requires OnPlane(m, a) && OnPlane(m, b)
    ensures |a.words| == |b.words| && Compatible(a, b)
  {
  }

  /** One step of `BuildIncomingShadows`: the receiver `curr` becomes a copy of the self
      shadow above (DirectOnly), or a copy of the incoming shadow above united with the
      self shadow above (Cascade). */
  function NextIncoming(m: Manager, curr: Shadow, aboveSelf: Shadow, aboveIncoming: Shadow): (r: Shadow)
    requires OnPlane(m, curr) && OnPlane(m, aboveSelf) && OnPlane(m, aboveIncoming)
    ensures OnPlane(m, r)
    ensures Cells(r) == match m.mode
      case DirectOnly => Cells(aboveSelf)
      case Cascade => Cells(aboveIncoming) + Cells(aboveSelf)
  {
    match m.mode
    case DirectOnly => CopyFrom(curr, aboveSelf).value
    case Cascade =>
      var copied := CopyFrom(curr, aboveIncoming).value;
      OrCells(copied, aboveSelf);
      Or(copied, aboveSelf).value
  }

  /** `BuildIncomingShadows` for layers `z` and up, computed top-down: the top layer is
      cleared, each lower layer is one `NextIncoming` step from the layer above. */
  function IncomingFrom(m: Manager, z: nat): (inc: seq<Shadow>)
    requires Consistent(m) && z < m.maxLayer
    ensures |inc| == m.maxLayer - z && AllSized(inc)
    ensures forall k | 0 <= k < |inc| :: OnPlane(m, inc[k])
    ensures forall k | 0 <= k < |inc| :: Cells(inc[k]) == Expected(m.mode, m.self, z + k)
    decreases m.maxLayer - z
  {
    if z == m.maxLayer - 1 then
      [Clear(m.incoming[z])]
    else
      var rest := IncomingFrom(m, z + 1);
      var next := NextIncoming(m, m.incoming[z], m.self[z + 1], rest[0]);
      IncomingStep(m, z, next, rest);
      [next] + rest
  }

  lemma IncomingStep(m: Manager, z: nat, next: Shadow, rest: seq<Shadow>)
    requires Consistent(m) && z + 1 < m.maxLayer && |rest| == m.maxLayer - z - 1
    requires AllSized(rest) && forall k | 0 <= k < |rest| :: OnPlane(m, rest[k])
    requires forall k | 0 <= k < |rest| :: Cells(rest[k]) == Expected(m.mode, m.self, z + 1 + k)
    requires OnPlane(m, next) && |rest| > 0
    requires Cells(next) == match m.mode
      case DirectOnly => Cells(m.self[z + 1])
      case Cascade => Cells(rest[0]) + Cells(m.self[z + 1])
    ensures var inc := [next] + rest;
      && AllSized(inc)
      && (forall k | 0 <= k < |inc| :: OnPlane(m, inc[k]))
      && (forall k | 0 <= k < |inc| :: Cells(inc[k]) == Expected(m.mode, m.self, z + k))
  {
    var inc := [next] + rest;
    forall k | 0 <= k < |inc| ensures Cells(inc[k]) == Expected(m.mode, m.self, z + k) {
      if k > 0 {
        assert inc[k] == rest[k - 1];
      }
    }
  }

  /** `RebuildIncomingAfterChange`: recompute every incoming shadow from the self shadows. */
  function BuildIncoming(m: Manager): (r: Manager)
    requires Consistent(m)
    ensures Consistent(r) && Propagated(r)
    ensures r.mode == m.mode && r.maxRow == m.maxRow && r.maxCol == m.maxCol && r.maxLayer == m.maxLayer
    ensures r.self == m.self
  {
    var inc := IncomingFrom(m, 0);
    m.(incoming := inc)
  }

  /** Cascade cover contains direct cover: whatever the layer above hides is hidden. */
  lemma CascadeCoversDirect(self: seq<Shadow>, z: nat)
    requires AllSized(self)
    ensures Expected(DirectOnly, self, z) <= Expected(Cascade, self, z)
  {
  }

  /** Under Cascade, cover only grows going down. */
  lemma CascadeMonotone(self: seq<Shadow>, z: nat)
    requires AllSized(self)
    ensures Above(self, z + 1) <= Above(self, z)
  {
  }

  /** The cells of a list of packed positions. */
  ghost function CellsOf(positions: seq<int>): set<(int, int)> {
    set p | p in positions :: Cell(p)
  }

  lemma CellsOfCons(positions: seq<int>)
    requires positions != []
    ensures CellsOf(positions) == {Cell(positions[0])} + CellsOf(positions[1..])
  {
    assert forall p | p in positions :: p == positions[0] || p in positions[1..];
  }

  /** `foreach (var pos in positions) self.AddPosition(pos)`. */
  function AddAll(m: Manager, s: Shadow, positions: seq<int>): (r: Shadow)
    requires OnPlane(m, s) && forall p | p in positions :: Fits(m, p)
    ensures Sized(r) && OnPlane(m, r) && Cells(r) == Cells(s) + CellsOf(positions)
    decreases |positions|
  {
    if positions == [] then s
    else
      assert positions[0] in positions;
      assert Sized(s);
      assert Fits(m, positions[0]);
      assert InRange(s, positions[0]);
      var r := AddAll(m, AddPosition(s, positions[0]), positions[1..]);
      CellsOfCons(positions);
      r
  }

  /** `foreach (var pos in positions) self.RemovePosition(pos)`. */
  function RemoveAll(m: Manager, s: Shadow, positions: seq<int>): (r: Shadow)
    requires OnPlane(m, s) && forall p | p in positions :: Fits(m, p)
    ensures Sized(r) && OnPlane(m, r) && Cells(r) == Cells(s) - CellsOf(positions)
    decreases |positions|
  {
    if positions == [] then s
    else
      assert positions[0] in positions;
      assert Sized(s);
      assert Fits(m, positions[0]);
      assert InRange(s, positions[0]);
      var r := RemoveAll(m, RemovePosition(s, positions[0]), positions[1..]);
      CellsOfCons(positions);
      r
  }

  /** `AddSelfShadow`: occupy the cells on layer `z`; the incoming shadows are not touched. */
  function AddSelfShadow(m: Manager, z: int, positions: seq<int>): (r: Result<Manager>)
    requires Consistent(m)
    requires HasLayer(m, z) ==> forall p | p in positions :: Fits(m, p)
    ensures r.Ok? <==> HasLayer(m, z)
    ensures r.Fail? ==> r.fault == ArgumentOutOfRange
    ensures r.Ok? ==> Consistent(r.value) && r.value == m.(self := r.value.self) && |r.value.self| == m.maxLayer
    ensures r.Ok? ==> Cells(r.value.self[z]) == Cells(m.self[z]) + CellsOf(positions)
    ensures r.Ok? ==> forall k | 0 <= k < m.maxLayer && k != z :: r.value.self[k] == m.self[k]
  {
    var _ :- Need(HasLayer(m, z), ArgumentOutOfRange);
    Ok(m.(self := m.self[z := AddAll(m, m.self[z], positions)]))
  }

  /** `RemoveSelfShadow`: free the cells on layer `z`; the incoming shadows are not touched. */
  function RemoveSelfShadow(m: Manager, z: int, positions: seq<int>): (r: Result<Manager>)
    requires Consistent(m)
    requires HasLayer(m, z) ==> forall p | p in positions :: Fits(m, p)
    ensures r.Ok? <==> HasLayer(m, z)
    ensures r.Fail? ==> r.fault == ArgumentOutOfRange
    ensures r.Ok? ==> Consistent(r.value) && r.value == m.(self := r.value.self) && |r.value.self| == m.maxLayer
    ensures r.Ok? ==> Cells(r.value.self[z]) == Cells(m.self[z]) - CellsOf(positions)
    ensures r.Ok? ==> forall k | 0 <= k < m.maxLayer && k != z :: r.value.self[k] == m.self[k]
  {
    var _ :- Need(HasLayer(m, z), ArgumentOutOfRange);
    Ok(m.(self := m.self[z := RemoveAll(m, m.self[z], positions)]))
  }

  /** `AddSelfShadowAndRebuild`. */
  function AddSelfShadowAndRebuild(m: Manager, z: int, positions: seq<int>): (r: Result<Manager>)
    requires Consistent(m)
    requires HasLayer(m, z) ==> forall p | p in positions :: Fits(m, p)
    ensures r.Ok? <==> HasLayer(m, z)
    ensures r.Fail? ==> r.fault == ArgumentOutOfRange
    ensures r.Ok? ==> Consistent(r.value) && Propagated(r.value)
    ensures r.Ok? ==> (r.value.mode == m.mode && r.value.maxRow == m.maxRow && r.value.maxCol == m.maxCol
      && r.value.maxLayer == m.maxLayer)
    ensures r.Ok? ==> Cells(r.value.self[z]) == Cells(m.self[z]) + CellsOf(positions)
    ensures r.Ok? ==> forall k | 0 <= k < m.maxLayer && k != z :: r.value.self[k] == m.self[k]
  {
    var added :- AddSelfShadow(m, z, positions);
    Ok(BuildIncoming(added))
  }

  /** `RemoveSelfShadowAndRebuild`. */
  function RemoveSelfShadowAndRebuild(m: Manager, z: int, positions: seq<int>): (r: Result<Manager>)
    requires Consistent(m)
    requires HasLayer(m, z) ==> forall p | p in positions :: Fits(m, p)
    ensures r.Ok? <==> HasLayer(m, z)
    ensures r.Fail? ==> r.fault == ArgumentOutOfRange
    ensures r.Ok? ==> Consistent(r.value) && Propagated(r.value)
    ensures r.Ok? ==> (r.value.mode == m.mode && r.value.maxRow == m.maxRow && r.value.maxCol == m.maxCol
      && r.value.maxLayer == m.maxLayer)
    ensures r.Ok? ==> Cells(r.value.self[z]) == Cells(m.self[z]) - CellsOf(positions)
    ensures r.Ok? ==> forall k | 0 <= k < m.maxLayer && k != z :: r.value.self[k] == m.self[k]
  {
    var removed :- RemoveSelfShadow(m, z, positions);
    Ok(BuildIncoming(removed))
  }

  /** Removing the cells just added restores a layer whose cells were free. */
  lemma AddThenRemove(m: Manager, z: int, positions: seq<int>)
    requires Consistent(m) && HasLayer(m, z) && forall p | p in positions :: Fits(m, p)
    requires Cells(m.self[z]) * CellsOf(positions) == {}
    ensures var a := AddSelfShadow(m, z, positions).value;
      RemoveSelfShadow(a, z, positions).value == m
  {
    var a := AddSelfShadow(m, z, positions).value;
    var b := RemoveSelfShadow(a, z, positions).value;
    CellsDetermine(b.self[z], m.self[z]);
    assert b.self == m.self;
  }

  /** A rebuilt manager is determined by its mode, its plane and its self shadows. */
  lemma PropagatedDetermined(a: Manager, b: Manager)
    requires Consistent(a) && Propagated(a) && Consistent(b) && Propagated(b)
    requires a.mode == b.mode && a.maxRow == b.maxRow && a.maxCol == b.maxCol && a.maxLayer == b.maxLayer
    requires forall z | 0 <= z < a.maxLayer :: Cells(a.self[z]) == Cells(b.self[z])
    ensures a == b
  {
    forall z | 0 <= z < a.maxLayer ensures a.self[z] == b.self[z] {
      CellsDetermine(a.self[z], b.self[z]);
    }
    assert a.self == b.self;
    forall z | 0 <= z < a.maxLayer ensures a.incoming[z] == b.incoming[z] {
      CellsDetermine(a.incoming[z], b.incoming[z]);
    }
    assert a.incoming == b.incoming;
  }

  lemma DisjointAddRemove<T>(a: set<T>, b: set<T>)
    requires a * b == {}
    ensures (a + b) - b == a
  {
    assert (a + b) - b == a - (a * b);
  }

  /** Adding disjoint top faces to a rebuilt manager and removing them again, rebuilding
      after each step, gives the manager back. */
  lemma AddThenRemoveRebuilt(m: Manager, z: int, positions: seq<int>)
    requires Consistent(m) && Propagated(m) && HasLayer(m, z) && forall p | p in positions :: Fits(m, p)
    requires Cells(m.self[z]) * CellsOf(positions) == {}
    ensures var a := AddSelfShadowAndRebuild(m, z, positions).value;
      RemoveSelfShadowAndRebuild(a, z, positions) == Ok(m)
  {
    var a := AddSelfShadowAndRebuild(m, z, positions).value;
    var b := RemoveSelfShadowAndRebuild(a, z, positions).value;
    forall k | 0 <= k < m.maxLayer ensures Cells(b.self[k]) == Cells(m.self[k]) {
      if k == z {
        DisjointAddRemove(Cells(m.self[z]), CellsOf(positions));
      }
    }
    PropagatedDetermined(b, m);
  }

  /** `RebuildAll`: every self shadow is cleared and refilled from its list (a null list
      leaves the layer empty), then propagation is rebuilt. */
  function RebuildAll(m: Manager, positionsByLayer: Option<seq<Option<seq<int>>>>): (r: Result<Manager>)
    requires Consistent(m)
    requires positionsByLayer.Some? ==> forall z | 0 <= z < |positionsByLayer.value| ::
      positionsByLayer.value[z].Some? ==> forall p | p in positionsByLayer.value[z].value :: Fits(m, p)
    ensures r.Ok? <==> positionsByLayer.Some? && |positionsByLayer.value| == m.maxLayer
    ensures positionsByLayer.None? ==> r == Fail(ArgumentNull)
    ensures positionsByLayer.Some? && r.Fail? ==> r.fault == Argument
    ensures r.Ok? ==> Consistent(r.value) && Propagated(r.value)
    ensures r.Ok? ==> (r.value.mode == m.mode && r.value.maxRow == m.maxRow && r.value.maxCol == m.maxCol
      && r.value.maxLayer == m.maxLayer)
    ensures r.Ok? ==> forall z | 0 <= z < m.maxLayer ::
      Cells(r.value.self[z]) == match positionsByLayer.value[z]
        case None => {}
        case Some(ps) => CellsOf(ps)
  {
    if positionsByLayer.None? then Fail(ArgumentNull)
    else
      var lists := positionsByLayer.value;
      var _ :- Need(|lists| == m.maxLayer, Argument);
      var own := seq(m.maxLayer, z requires 0 <= z < m.maxLayer =>
        var cleared := Clear(m.self[z]);
        match lists[z]
        case None => cleared
        case Some(ps) => AddAll(m, cleared, ps));
      Ok(BuildIncoming(m.(self := own)))
  }

  /** `IsPositionCovered(position)`: a position outside the layers is never covered. */
  function IsPositionCovered(m: Manager, position: int): (b: bool)
    requires Consistent(m) && (HasLayer(m, Z(position)) ==> Fits(m, position))
    ensures b <==> HasLayer(m, Z(position)) && Cell(position) in Cells(m.incoming[Z(position)])
  {
    var z := Z(position);
    if !HasLayer(m, z) then false else IsPositionExist(m.incoming[z], position)
  }

  /** `IsPositionCovered(x, y, z)`: the layer guard reads `z` itself, the cell test the packed
      bytes of `x` and `y`. */
  function IsCellCovered(m: Manager, x: int, y: int, z: int): (b: bool)
    requires Consistent(m) && (HasLayer(m, z) ==> Fits(m, Pack(x, y, z)))
    ensures b <==> HasLayer(m, z) && (Low8(x), Low8(y)) in Cells(m.incoming[z])
  {
    PackComponents(x, y, z);
    if !HasLayer(m, z) then false else IsPositionExist(m.incoming[z], Pack(x, y, z))
  }

  /** After propagation, a position is covered iff some layer above occupies its cell
      (Cascade), or the layer directly above does (DirectOnly). */
  lemma CoveredMeansAbove(m: Manager, position: int)
    requires Consistent(m) && Propagated(m) && Fits(m, position) && HasLayer(m, Z(position))
    ensures m.mode == Cascade ==> (IsPositionCovered(m, position) <==>
      exists k | Z(position) < k < m.maxLayer :: Cell(position) in Cells(m.self[k]))
    ensures m.mode == DirectOnly ==> (IsPositionCovered(m, position) <==>
      Z(position) + 1 < m.maxLayer && Cell(position) in Cells(m.self[Z(position) + 1]))
  {
    AboveMeans(m.self, Z(position), Cell(position));
  }

  /** The two overloads agree on positions whose layer fits in a byte. */
  lemma CoveredOverloadsAgree(m: Manager, x: int, y: int, z: int)
    requires Consistent(m) && (HasLayer(m, z) ==> Fits(m, Pack(x, y, z))) && 0 <= z < 256
    ensures IsCellCovered(m, x, y, z) == IsPositionCovered(m, Pack(x, y, z))
  {
    PackComponents(x, y, z);
    assert Z(Pack(x, y, z)) == z;
  }

  /** `IntersectsIncoming`: does the incoming shadow of layer `z` overlap `area`. */
  function IntersectsIncoming(m: Manager, z: int, area: Shadow): (r: Result<bool>)
    requires Consistent(m)
    ensures r.Ok? <==> HasLayer(m, z) && |area.words| == |m.incoming[z].words|
    ensures !HasLayer(m, z) ==> r == Fail(ArgumentOutOfRange)
    ensures HasLayer(m, z) && r.Fail? ==> r.fault == Argument
    ensures r.Ok? && OnPlane(m, area) ==> (r.value <==> Cells(m.incoming[z]) * Cells(area) != {})
  {
    var _ :- Need(HasLayer(m, z), ArgumentOutOfRange);
    assert OnPlane(m, area) ==> (Intersects(m.incoming[z], area).value <==> Cells(m.incoming[z]) * Cells(area) != {}) by {
      if OnPlane(m, area) {
        IntersectsCells(m.incoming[z], area);
      }
    }
    Intersects(m.incoming[z], area)
  }

  /** `IncomingIntersectCount`: how many cells of `area` the incoming shadow of `z` covers. */
  function IncomingIntersectCount(m: Manager, z: int, area: Shadow): (r: Result<nat>)
    requires Consistent(m)
    ensures r.Ok? <==> HasLayer(m, z) && |area.words| == |m.incoming[z].words|
    ensures !HasLayer(m, z) ==> r == Fail(ArgumentOutOfRange)
    ensures HasLayer(m, z) && r.Fail? ==> r.fault == Argument
    ensures r.Ok? ==> r.value <= PopCount(area)
    ensures r.Ok? && OnPlane(m, area) ==> (r.value < PopCount(area) <==> !(Cells(area) <= Cells(m.incoming[z])))
    ensures r.Ok? && OnPlane(m, area) ==> (r.value > 0 <==> Cells(m.incoming[z]) * Cells(area) != {})
  {
    var _ :- Need(HasLayer(m, z), ArgumentOutOfRange);
    var inc := m.incoming[z];
    IntersectCountFacts(m, inc, area);
    IntersectCount(inc, area)
  }

  lemma IntersectCountFacts(m: Manager, inc: Shadow, area: Shadow)
    requires OnPlane(m, inc)
    ensures var r := IntersectCount(inc, area);
      && (r.Ok? ==> r.value <= PopCount(area))
      && (r.Ok? && OnPlane(m, area) ==> (r.value < PopCount(area) <==> !(Cells(area) <= Cells(inc))))
      && (r.Ok? && OnPlane(m, area) ==> (r.value > 0 <==> Cells(inc) * Cells(area) != {}))
  {
    if |area.words| == |inc.words| {
      IntersectCountBounds(inc, area);
      if OnPlane(m, area) {
        UncoveredCells(inc, area);
        IntersectsIffCount(inc, area);
        IntersectsCells(inc, area);
      }
    }
  }

  /** `GetSelfShadow`. */
  function GetSelfShadow(m: Manager, z: int): (r: Result<Shadow>)
    requires Consistent(m)
    ensures r.Ok? <==> HasLayer(m, z)
    ensures r.Fail? ==> r.fault == ArgumentOutOfRange
    ensures r.Ok? ==> r.value == m.self[z]
  {
    var _ :- Need(HasLayer(m, z), ArgumentOutOfRange);
    Ok(m.self[z])
  }

  /** `GetIncomingShadow`. */
  function GetIncomingShadow(m: Manager, z: int): (r: Result<Shadow>)
    requires Consistent(m)
    ensures r.Ok? <==> HasLayer(m, z)
    ensures r.Fail? ==> r.fault == ArgumentOutOfRange
    ensures r.Ok? ==> r.value == m.incoming[z]
  {
    var _ :- Need(HasLayer(m, z), ArgumentOutOfRange);
    Ok(m.incoming[z])
  }

  /** `Clone`: a blank manager of the same configuration whose shadows copy the originals'. */
  function Clone(m: Manager): (c: Manager)
    requires Consistent(m)
    ensures c == m
  {
    var blank := NewManager(m.mode, m.maxRow, m.maxCol, m.maxLayer).value;
    assert forall z | 0 <= z < m.maxLayer ::
      |blank.self[z].words| == |m.self[z].words| && |blank.incoming[z].words| == |m.incoming[z].words|;
    var own := seq(m.maxLayer, z requires 0 <= z < m.maxLayer => CopyFrom(blank.self[z], m.self[z]).value);
    var inc := seq(m.maxLayer, z requires 0 <= z < m.maxLayer => CopyFrom(blank.incoming[z], m.incoming[z]).value);
    blank.(self := own, incoming := inc)
  }
}
