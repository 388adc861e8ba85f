/** A tile: a box of cells on the board with an identity, a colour and derived spatial caches. */
module Tiles {
  import opened Outcomes
  import opened Packed
  import opened Grid
  import opened LockStatus
  import opened Counters

  /** The colour of a tile whose colour has not been assigned yet. */
  const ColorUnspecified: int := -1

  /** Which area of the game a tile currently belongs to. */
  datatype Zone = PastureZone | StagingZone | CorralZone | UnknownZone

  /** `position` is the packed minimum corner; `coordinates` and `topCoordinates` are the
      cached box and top-face cells; `topZ` is the layer of the top face. */
  datatype Tile = Tile(
    index: int,
    color: int,
    volume: int,
    locked: bool,
    visible: bool,
    zone: Zone,
    position: int,
    coordinates: seq<int>,
    topCoordinates: seq<int>,
    topZ: int)

  /** The layer of the top face: z0 + dz - 1. */
  function ComputeTopZ(position: int, volume: int): (r: int)
    ensures Z(volume) >= 1 ==> Z(position) <= r < Z(position) + Z(volume)
  {
    Z(position) + Z(volume) - 1
  }

  /** Every cell of the box, x outermost and z innermost. */
  function BoxCells(position: int, volume: int): seq<int> {
    Grid3(X(volume), Y(volume), Z(volume), (i, j, k) => Offset(position, i, j, k))
  }

  /** One cell per unit of the volume. */
  lemma BoxCellsLength(position: int, volume: int)
    ensures |BoxCells(position, volume)| == X(volume) * Y(volume) * Z(volume)
  {
    Grid3Facts(X(volume), Y(volume), Z(volume), (i, j, k) => Offset(position, i, j, k));
  }

  /** The box holds exactly the offsets of the position within the volume. */
  lemma BoxCellsMembers(position: int, volume: int)
    ensures forall i, j, k | 0 <= i < X(volume) && 0 <= j < Y(volume) && 0 <= k < Z(volume) ::
      Offset(position, i, j, k) in BoxCells(position, volume)
    ensures forall c | c in BoxCells(position, volume) ::
      exists i, j, k | 0 <= i < X(volume) && 0 <= j < Y(volume) && 0 <= k < Z(volume) :: c == Offset(position, i, j, k)
  {
    var f := (i, j, k) => Offset(position, i, j, k);
    Grid3Facts(X(volume), Y(volume), Z(volume), f);
    assert forall i, j, k :: f(i, j, k) == Offset(position, i, j, k);
  }

  /** The top-face cell above column `i`, row `j` of the footprint. */
  function TopCell(position: int, volume: int, i: int, j: int): int {
    Pack(X(position) + i, Y(position) + j, ComputeTopZ(position, volume))
  }

  /** The cells of the top face, on layer `ComputeTopZ`, x outermost. */
  function TopCells(position: int, volume: int): seq<int> {
    Grid2(X(volume), Y(volume), (i, j) => TopCell(position, volume, i, j))
  }

  /** One top cell per column of the footprint. */
  lemma TopCellsLength(position: int, volume: int)
    ensures |TopCells(position, volume)| == X(volume) * Y(volume)
  {
    Grid2Facts(X(volume), Y(volume), (i, j) => TopCell(position, volume, i, j));
  }

  /** The top face holds exactly the top cells above the footprint. */
  lemma TopCellsMembers(position: int, volume: int)
    ensures forall i, j | 0 <= i < X(volume) && 0 <= j < Y(volume) :: TopCell(position, volume, i, j) in TopCells(position, volume)
    ensures forall c | c in TopCells(position, volume) ::
      exists i, j | 0 <= i < X(volume) && 0 <= j < Y(volume) :: c == TopCell(position, volume, i, j)
  {
    var f := (i, j) => TopCell(position, volume, i, j);
    Grid2Facts(X(volume), Y(volume), f);
    assert forall i, j :: f(i, j) == TopCell(position, volume, i, j);
  }

  /** `new Tile(index, position, color, volume)`: unlocked, visible, in no zone, with its
      spatial caches computed from the position and the volume (default (2, 2, 1)). */
  function NewTile(index: int, position: int, color: int := ColorUnspecified, volume: Option<int> := None): (t: Tile)
    ensures t.index == index && t.color == color && t.position == position
    ensures t.volume == VolumeOr(volume)
    ensures !t.locked && t.visible && t.zone == UnknownZone
    ensures WellFormed(t)
  {
    var v := VolumeOr(volume);
    Tile(index, color, v, false, true, UnknownZone, position, BoxCells(position, v), TopCells(position, v),
         ComputeTopZ(position, v))
  }

  /** The spatial caches agree with the position and the volume. */
  ghost predicate WellFormed(t: Tile) {
    && t.coordinates == BoxCells(t.position, t.volume)
    && t.topCoordinates == TopCells(t.position, t.volume)
    && t.topZ == ComputeTopZ(t.position, t.volume)
  }

  /** Every top-face cell is a cell of the box when the box is at least one layer high. */
  lemma TopInBox(t: Tile)
    requires WellFormed(t)
    requires Z(t.volume) >= 1
    ensures forall c | c in t.topCoordinates :: c in t.coordinates
  {
    TopFaceInBox(t.position, t.volume);
  }

  lemma TopFaceInBox(position: int, volume: int)
    requires Z(volume) >= 1
    ensures forall c | c in TopCells(position, volume) :: c in BoxCells(position, volume)
  {
    TopCellsMembers(position, volume);
    forall c | c in TopCells(position, volume) ensures c in BoxCells(position, volume) {
      var i, j :| 0 <= i < X(volume) && 0 <= j < Y(volume) && c == TopCell(position, volume, i, j);
      TopCellInBox(position, volume, i, j);
    }
  }

  /** The top cell above a footprint cell is the box's cell on its top layer. */
  lemma TopCellInBox(position: int, volume: int, i: int, j: int)
    requires 0 <= i < X(volume) && 0 <= j < Y(volume) && Z(volume) >= 1
    ensures TopCell(position, volume, i, j) in BoxCells(position, volume)
  {
    var k := Z(volume) - 1;
    assert ComputeTopZ(position, volume) == Z(position) + k;
    assert TopCell(position, volume, i, j) == Offset(position, i, j, k);
    BoxCellHas(position, volume, i, j, k);
  }

  /** The box holds each offset of the position within the volume. */
  lemma BoxCellHas(position: int, volume: int, i: int, j: int, k: int)
    requires 0 <= i < X(volume) && 0 <= j < Y(volume) && 0 <= k < Z(volume)
    ensures Offset(position, i, j, k) in BoxCells(position, volume)
  {
    BoxCellsMembers(position, volume);
  }

  /** The top face lies in the box, on the packed layer of `topZ`, and every top cell is
      a packed value of three bytes. */
  lemma TopFacts(t: Tile)
    requires WellFormed(t)
    requires Z(t.volume) >= 1
    ensures forall q | q in t.topCoordinates ::
      q in t.coordinates && 0 <= q < 0x100_0000 && Z(q) == Low8(t.topZ)
  {
    TopInBox(t);
    TopLayer(t.position, t.volume);
  }

  lemma TopLayer(position: int, volume: int)
    ensures forall q | q in TopCells(position, volume) ::
      0 <= q < 0x100_0000 && Z(q) == Low8(ComputeTopZ(position, volume))
  {
    TopCellsMembers(position, volume);
    forall q | q in TopCells(position, volume) ensures 0 <= q < 0x100_0000 && Z(q) == Low8(ComputeTopZ(position, volume)) {
      var i, j :| 0 <= i < X(volume) && 0 <= j < Y(volume) && q == TopCell(position, volume, i, j);
      TopCellPacked(position, volume, i, j);
    }
  }

  lemma TopCellPacked(position: int, volume: int, i: int, j: int)
    ensures var q := TopCell(position, volume, i, j); 0 <= q < 0x100_0000 && Z(q) == Low8(ComputeTopZ(position, volume))
  {
    var z := ComputeTopZ(position, volume);
    assert TopCell(position, volume, i, j) == Pack(X(position) + i, Y(position) + j, z);
    PackAxes(X(position) + i, Y(position) + j, z);
  }

  /** A default tile is a 2x2 footprint of four cells whose top face lies on its own layer. */
  lemma DefaultTile(index: int, position: int, color: int)
    ensures |NewTile(index, position, color).coordinates| == 4
    ensures |NewTile(index, position, color).topCoordinates| == 4
    ensures NewTile(index, position, color).topZ == Z(position)
  {
    DefaultDims();
  }

  function SetLocked(t: Tile, locked: bool): (r: Tile)
    ensures r.locked == locked && r.(locked := t.locked) == t
  {
    t.(locked := locked)
  }

  function SetVisible(t: Tile, visible: bool): (r: Tile)
    ensures r.visible == visible && r.(visible := t.visible) == t
  {
    t.(visible := visible)
  }

  function SetZone(t: Tile, zone: Zone): (r: Tile)
    ensures r.zone == zone && r.(zone := t.zone) == t
  {
    t.(zone := zone)
  }

  function SetColor(t: Tile, color: int): (r: Tile)
    ensures r.color == color && r.(color := t.color) == t
  {
    t.(color := color)
  }

  /** `Equals`: tiles are the same tile iff their indices agree. */
  predicate SameTile(a: Tile, b: Tile) {
    a.index == b.index
  }

  /** `GetHashCode` is the index. */
  function HashCode(t: Tile): int {
    t.index
  }

  /** Equal tiles hash equally, and equality is an equivalence. */
  lemma EqualityContract(a: Tile, b: Tile, c: Tile)
    ensures SameTile(a, a)
    ensures SameTile(a, b) ==> SameTile(b, a) && HashCode(a) == HashCode(b)
    ensures SameTile(a, b) && SameTile(b, c) ==> SameTile(a, c)
  {
  }

  /** `Clone` as written: it calls `new Tile(Index, Color, Volume)`, which binds the colour to
      the position parameter and the volume to the colour parameter, then restores the
      position and the caches. The copy's colour is the original's packed volume and its
      volume is the default. */
  function CloneAsWritten(t: Tile): (c: Tile)
    ensures c.color == t.volume && c.volume == DefaultVolume
    ensures SameTile(c, t)
  {
    NewTile(t.index, t.color, t.volume, None).(
      locked := t.locked,
      visible := t.visible,
      zone := t.zone,
      position := t.position,
      coordinates := t.coordinates,
      topCoordinates := t.topCoordinates,
      topZ := t.topZ)
  }

  /** A default tile of colour 5 comes back from `CloneAsWritten` with colour 66050. */
  lemma CloneAsWrittenLosesColor()
    ensures var t := NewTile(0, 0, 5); CloneAsWritten(t).color == 66050 && CloneAsWritten(t) != t
  {
  }

  /** `Clone` with the arguments in their declared order and the volume carried over:
      the copy equals the original in every field. */
  function Clone(t: Tile): (c: Tile)
    ensures c == t
  {
    NewTile(t.index, t.position, t.color, Some(t.volume)).(
      locked := t.locked,
      visible := t.visible,
      zone := t.zone,
      position := t.position,
      coordinates := t.coordinates,
      topCoordinates := t.topCoordinates,
      topZ := t.topZ)
  }

  /** Every tile of the list moved to `zone` (`SetTileZone` on each). */
  function InZone(ts: seq<Tile>, zone: Zone): (r: seq<Tile>)
    ensures |r| == |ts| && forall i | 0 <= i < |ts| :: r[i] == SetZone(ts[i], zone)
  {
    seq(|ts|, i requires 0 <= i < |ts| => SetZone(ts[i], zone))
  }

  /** No two tiles of the list share an index. */
  predicate DistinctIndices(ts: seq<Tile>) {
    forall i, j | 0 <= i < |ts| && 0 <= j < |ts| && i != j :: ts[i].index != ts[j].index
  }

  /** No tile of the list carries the index. */
  predicate Fresh(ts: seq<Tile>, index: int) {
    forall i | 0 <= i < |ts| :: ts[i].index != index
  }

  /** The position of the first tile with the index, or -1 (`List.Remove` uses `Equals`,
      which compares indices). */
  function Find(ts: seq<Tile>, index: int): (k: int)
    ensures -1 <= k < |ts|
    ensures k == -1 <==> Fresh(ts, index)
    ensures k >= 0 ==> ts[k].index == index && Fresh(ts[..k], index)
  {
    if ts == [] then -1
    else if ts[0].index == index then 0
    else
      var k := Find(ts[1..], index);
      assert forall i | 1 <= i < |ts| :: ts[i] == ts[1..][i - 1];
      if k == -1 then -1
      else
        assert ts[..k + 1] == [ts[0]] + ts[1..][..k];
        k + 1
  }

  /** The colour of each tile, position by position. */
  function ColorSeq(ts: seq<Tile>): (r: seq<int>)
    ensures |r| == |ts| && forall i | 0 <= i < |ts| :: r[i] == ts[i].color
  {
    seq(|ts|, i requires 0 <= i < |ts| => ts[i].color)
  }

  /** The colours of the tiles, with multiplicity. */
  function ColorsOf(ts: seq<Tile>): (r: multiset<int>)
    ensures |r| == |ts|
  {
    multiset(ColorSeq(ts))
  }

  /** Colours add up over concatenation. */
  lemma ColorsOfAppend(a: seq<Tile>, b: seq<Tile>)
    ensures ColorsOf(a + b) == ColorsOf(a) + ColorsOf(b)
  {
    assert ColorSeq(a + b) == ColorSeq(a) + ColorSeq(b);
  }

  /** The colour bag is the image of the tile bag. */
  lemma {:induction false} ColorsOfMultiset(a: seq<Tile>, b: seq<Tile>)
    requires multiset(a) == multiset(b)
    ensures ColorsOf(a) == ColorsOf(b)
    decreases |a|
  {
    if a == [] {
      assert b == [] by { assert |multiset(b)| == |b|; }
    } else {
      var t := a[|a| - 1];
      var a' := a[..|a| - 1];
      var b' := Peel(a, b);
      ColorsOfMultiset(a', b');
      assert ColorsOf(a) == ColorsOf(a') + multiset{t.color} by {
        assert a == a' + [t];
        ColorsOfAppend(a', [t]);
      }
    }
  }

  /** Takes the last tile of `a` out of `b`. */
  lemma Peel(a: seq<Tile>, b: seq<Tile>) returns (b': seq<Tile>)
    requires multiset(a) == multiset(b) && a != []
    ensures multiset(a[..|a| - 1]) == multiset(b')
    ensures ColorsOf(b) == ColorsOf(b') + multiset{a[|a| - 1].color}
  {
    var t := a[|a| - 1];
    var a' := a[..|a| - 1];
    assert a == a' + [t];
    assert t in b by {
      assert t in multiset(b);
    }
    var j :| 0 <= j < |b| && b[j] == t;
    b' := b[..j] + b[j + 1..];
    assert multiset(a') == multiset(b') by {
      DropAt(b, j);
      assert multiset(a) == multiset(a') + multiset{t};
      Cancel(multiset(a'), multiset(b'), t);
    }
    assert ColorsOf(b) == ColorsOf(b') + multiset{t.color} by {
      ColorsOfDrop(b, j);
    }
  }

  /** Dropping the tile at `j` drops one copy of its colour. */
  lemma ColorsOfDrop(b: seq<Tile>, j: int)
    requires 0 <= j < |b|
    ensures ColorsOf(b) == ColorsOf(b[..j] + b[j + 1..]) + multiset{b[j].color}
  {
    var cs := ColorSeq(b);
    DropAt(cs, j);
    assert ColorSeq(b[..j] + b[j + 1..]) == cs[..j] + cs[j + 1..];
  }

  /** One common element cancels from both sides of a bag equation. */
  lemma Cancel<T>(x: multiset<T>, y: multiset<T>, t: T)
    requires x + multiset{t} == y + multiset{t}
    ensures x == y
  {
    forall o ensures x[o] == y[o] {
      assert (x + multiset{t})[o] == x[o] + multiset{t}[o];
    }
  }

  /** Dropping position `j` removes exactly one copy of `b[j]`. */
  lemma DropAt<T>(b: seq<T>, j: int)
    requires 0 <= j < |b|
    ensures multiset(b) == multiset(b[..j] + b[j + 1..]) + multiset{b[j]}
  {
    assert b == b[..j] + [b[j]] + b[j + 1..];
  }

  /** The tiles of one colour, in list order: a filter of the list. */
  function ByColor(ts: seq<Tile>, color: int): (r: seq<Tile>)
    ensures forall t :: multiset(r)[t] == if t.color == color then multiset(ts)[t] else 0
    ensures |r| == ColorsOf(ts)[color]
    decreases |ts|
  {
    if ts == [] then []
    else
      var rest := ByColor(ts[1..], color);
      ByColorStep(ts, color, rest);
      (if ts[0].color == color then [ts[0]] else []) + rest
  }

  /** One step of the filter: the first tile is kept exactly when it has the colour. */
  lemma ByColorStep(ts: seq<Tile>, color: int, rest: seq<Tile>)
    requires ts != []
    requires forall t :: multiset(rest)[t] == if t.color == color then multiset(ts[1..])[t] else 0
    requires |rest| == ColorsOf(ts[1..])[color]
    ensures var r := (if ts[0].color == color then [ts[0]] else []) + rest;
      (forall t :: multiset(r)[t] == if t.color == color then multiset(ts)[t] else 0) &&
      |r| == ColorsOf(ts)[color]
  {
    var head := if ts[0].color == color then [ts[0]] else [];
    ColorsOfCons(ts);
    assert multiset(ts) == multiset{ts[0]} + multiset(ts[1..]) by {
      assert ts == [ts[0]] + ts[1..];
    }
    assert multiset(head + rest) == multiset(head) + multiset(rest);
  }

  /** The colours of a non-empty list: its first tile's and the rest's. */
  lemma ColorsOfCons(ts: seq<Tile>)
    requires ts != []
    ensures ColorsOf(ts) == multiset{ts[0].color} + ColorsOf(ts[1..])
  {
    assert ts == [ts[0]] + ts[1..];
    ColorsOfAppend([ts[0]], ts[1..]);
    assert ColorSeq([ts[0]]) == [ts[0].color];
  }

  /** Filtering a list with one more tile at the end. */
  lemma {:induction false} ByColorAppend(ts: seq<Tile>, u: Tile, color: int)
    ensures ByColor(ts + [u], color) == ByColor(ts, color) + (if u.color == color then [u] else [])
    decreases |ts|
  {
    if ts == [] {
      assert ts + [u] == [u] && [u][1..] == [];
      assert ByColor([u], color) == (if u.color == color then [u] else []) + ByColor([], color);
    } else {
      var head := if ts[0].color == color then [ts[0]] else [];
      var tail := if u.color == color then [u] else [];
      assert (ts + [u])[0] == ts[0] && (ts + [u])[1..] == ts[1..] + [u];
      assert ByColor(ts + [u], color) == head + ByColor(ts[1..] + [u], color);
      ByColorAppend(ts[1..], u, color);
      assert ByColor(ts, color) == head + ByColor(ts[1..], color);
      Associative(head, ByColor(ts[1..], color), tail);
    }
  }

  lemma Associative<T>(a: seq<T>, b: seq<T>, c: seq<T>)
    ensures a + (b + c) == (a + b) + c
  {
  }

  /** Dropping from the front of a concatenation, within its first part. */
  lemma DropAppend<T>(a: seq<T>, b: seq<T>, k: int)
    requires 0 <= k <= |a|
    ensures (a + b)[k..] == a[k..] + b
  {
  }

  /** A filtered list lies inside the list it came from. */
  lemma ByColorWithin(ts: seq<Tile>, color: int)
    ensures multiset(ByColor(ts, color)) <= multiset(ts)
    ensures forall t | t in ByColor(ts, color) :: t.color == color && t in ts
  {
    var r := ByColor(ts, color);
    forall t | t in r ensures t.color == color && t in ts {
      assert multiset(r)[t] > 0;
    }
  }

  /** Appending a tile adds one to its colour. */
  lemma AppendTallies(counter: map<int, int>, ts: seq<Tile>, u: Tile)
    requires Tallies(counter, ColorsOf(ts))
    ensures Tallies(Inc(counter, u.color), ColorsOf(ts + [u]))
  {
    assert ColorsOf(ts + [u]) == ColorsOf(ts) + multiset{u.color} by {
      ColorsOfAppend(ts, [u]);
      assert ColorSeq([u]) == [u.color];
    }
    IncTallies(counter, ColorsOf(ts), u.color);
  }

  /** Dropping a tile takes one off its colour, which is counted. */
  lemma DropTallies(counter: map<int, int>, ts: seq<Tile>, k: int)
    requires Tallies(counter, ColorsOf(ts)) && 0 <= k < |ts|
    ensures ts[k].color in counter
    ensures Tallies(Dec(counter, ts[k].color), ColorsOf(ts[..k] + ts[k + 1..]))
  {
    var c := ts[k].color;
    var rest := ColorsOf(ts[..k] + ts[k + 1..]);
    assert ColorsOf(ts) == rest + multiset{c} by {
      ColorsOfDrop(ts, k);
    }
    assert c in ColorsOf(ts);
    DecTallies(counter, ColorsOf(ts), c);
    assert ColorsOf(ts) - multiset{c} == rest;
  }
}
