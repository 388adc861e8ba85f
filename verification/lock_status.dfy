/** The six face neighbourhoods of a box: for a box at packed origin `p` with packed
    volume (dx, dy, dz), the cells just outside each face, in the loop order of the source. */
module LockStatus {
  import opened Outcomes
  import opened Packed
  import opened Grid

  /** Volume (2, 2, 1): a standard tile covers a 2x2 footprint one layer high. */
  const DefaultVolume: int := PackBytes(2, 2, 1)

  /** A missing volume means the default one. */
  function VolumeOr(volume: Option<int>): int {
    if volume.Some? then volume.value else DefaultVolume
  }

  function Dx(volume: Option<int>): Byte { X(VolumeOr(volume)) }
  function Dy(volume: Option<int>): Byte { Y(VolumeOr(volume)) }
  function Dz(volume: Option<int>): Byte { Z(VolumeOr(volume)) }

  /** The cell at offset (i, j, k) from the origin of `p`, every component wrapped to a byte. */
  function Offset(p: int, i: int, j: int, k: int): int {
    Pack(X(p) + i, Y(p) + j, Z(p) + k)
  }

  lemma DefaultDims()
    ensures Dx(None) == 2 && Dy(None) == 2 && Dz(None) == 1
  {
    UnpackPack(2, 2, 1);
  }

  /** Cells left of the box: x - 1, every row and layer it spans (layers outer, rows inner). */
  function Left(p: int, volume: Option<int> := None): (r: seq<int>)
    ensures |r| == Dz(volume) * Dy(volume)
    ensures forall k, j | 0 <= k < Dz(volume) && 0 <= j < Dy(volume) :: Offset(p, -1, j, k) in r
    ensures forall c | c in r :: exists k, j | 0 <= k < Dz(volume) && 0 <= j < Dy(volume) :: c == Offset(p, -1, j, k)
  {
    var f := (k, j) => Offset(p, -1, j, k);
    Grid2Facts(Dz(volume), Dy(volume), f);
    assert forall k, j :: f(k, j) == Offset(p, -1, j, k);
    Grid2(Dz(volume), Dy(volume), f)
  }

  /** Cells right of the box: x + dx. */
  function Right(p: int, volume: Option<int> := None): (r: seq<int>)
    ensures |r| == Dz(volume) * Dy(volume)
    ensures forall k, j | 0 <= k < Dz(volume) && 0 <= j < Dy(volume) :: Offset(p, Dx(volume), j, k) in r
    ensures forall c | c in r ::
      exists k, j | 0 <= k < Dz(volume) && 0 <= j < Dy(volume) :: c == Offset(p, Dx(volume), j, k)
  {
    var f := (k, j) => Offset(p, Dx(volume), j, k);
    Grid2Facts(Dz(volume), Dy(volume), f);
    assert forall k, j :: f(k, j) == Offset(p, Dx(volume), j, k);
    Grid2(Dz(volume), Dy(volume), f)
  }

  /** Cells in front of the box: y + dy (layers outer, columns inner). */
  function Front(p: int, volume: Option<int> := None): (r: seq<int>)
    ensures |r| == Dz(volume) * Dx(volume)
    ensures forall k, i | 0 <= k < Dz(volume) && 0 <= i < Dx(volume) :: Offset(p, i, Dy(volume), k) in r
    ensures forall c | c in r ::
      exists k, i | 0 <= k < Dz(volume) && 0 <= i < Dx(volume) :: c == Offset(p, i, Dy(volume), k)
  {
    var f := (k, i) => Offset(p, i, Dy(volume), k);
    Grid2Facts(Dz(volume), Dx(volume), f);
    assert forall k, i :: f(k, i) == Offset(p, i, Dy(volume), k);
    Grid2(Dz(volume), Dx(volume), f)
  }

  /** Cells behind the box: y - 1. */
  function Behind(p: int, volume: Option<int> := None): (r: seq<int>)
    ensures |r| == Dz(volume) * Dx(volume)
    ensures forall k, i | 0 <= k < Dz(volume) && 0 <= i < Dx(volume) :: Offset(p, i, -1, k) in r
    ensures forall c | c in r :: exists k, i | 0 <= k < Dz(volume) && 0 <= i < Dx(volume) :: c == Offset(p, i, -1, k)
  {
    var f := (k, i) => Offset(p, i, -1, k);
    Grid2Facts(Dz(volume), Dx(volume), f);
    assert forall k, i :: f(k, i) == Offset(p, i, -1, k);
    Grid2(Dz(volume), Dx(volume), f)
  }

  /** Cells above the box: z + dz over the whole footprint (columns outer, rows inner). */
  function Up(p: int, volume: Option<int> := None): (r: seq<int>)
    ensures |r| == Dx(volume) * Dy(volume)
    ensures forall i, j | 0 <= i < Dx(volume) && 0 <= j < Dy(volume) :: Offset(p, i, j, Dz(volume)) in r
    ensures forall c | c in r ::
      exists i, j | 0 <= i < Dx(volume) && 0 <= j < Dy(volume) :: c == Offset(p, i, j, Dz(volume))
  {
    var f := (i, j) => Offset(p, i, j, Dz(volume));
    Grid2Facts(Dx(volume), Dy(volume), f);
    assert forall i, j :: f(i, j) == Offset(p, i, j, Dz(volume));
    Grid2(Dx(volume), Dy(volume), f)
  }

  /** Cells below the box: z - 1 over the whole footprint. */
  function Down(p: int, volume: Option<int> := None): (r: seq<int>)
    ensures |r| == Dx(volume) * Dy(volume)
    ensures forall i, j | 0 <= i < Dx(volume) && 0 <= j < Dy(volume) :: Offset(p, i, j, -1) in r
    ensures forall c | c in r :: exists i, j | 0 <= i < Dx(volume) && 0 <= j < Dy(volume) :: c == Offset(p, i, j, -1)
  {
    var f := (i, j) => Offset(p, i, j, -1);
    Grid2Facts(Dx(volume), Dy(volume), f);
    assert forall i, j :: f(i, j) == Offset(p, i, j, -1);
    Grid2(Dx(volume), Dy(volume), f)
  }

  /** Each component of a neighbour cell is the position's, shifted and wrapped to a byte. */
  lemma OffsetComponents(p: int, i: int, j: int, k: int)
    ensures X(Offset(p, i, j, k)) == Low8(X(p) + i)
    ensures Y(Offset(p, i, j, k)) == Low8(Y(p) + j)
    ensures Z(Offset(p, i, j, k)) == Low8(Z(p) + k)
  {
    PackAxes(X(p) + i, Y(p) + j, Z(p) + k);
  }

  /** Offsets compose: the origin moved by (a, b, c) and then by (i, j, k) is the origin moved by the sums. */
  lemma OffsetCompose(p: int, a: int, b: int, c: int, i: int, j: int, k: int)
    ensures Offset(Offset(p, a, b, c), i, j, k) == Offset(p, a + i, b + j, c + k)
  {
    var q := Offset(p, a, b, c);
    PackComponents(X(p) + a, Y(p) + b, Z(p) + c);
    assert X(q) == Low8(X(p) + a) && Y(q) == Low8(Y(p) + b) && Z(q) == Low8(Z(p) + c);
    Low8Add(X(p) + a, i);
    Low8Add(Y(p) + b, j);
    Low8Add(Z(p) + c, k);
    PackCongruent(X(q) + i, Y(q) + j, Z(q) + k, X(p) + (a + i), Y(p) + (b + j), Z(p) + (c + k));
  }

  /** The cells above a box are the cells below the same footprint lifted `dz + 1` layers. */
  lemma {:induction false} UpIsDownOfLifted(p: int, volume: Option<int>)
    ensures Up(p, volume) == Down(Offset(p, 0, 0, Dz(volume) + 1), volume)
  {
    var q := Offset(p, 0, 0, Dz(volume) + 1);
    forall i, j | 0 <= i < Dx(volume) && 0 <= j < Dy(volume)
      ensures Offset(p, i, j, Dz(volume)) == Offset(q, i, j, -1)
    {
      OffsetCompose(p, 0, 0, Dz(volume) + 1, i, j, -1);
    }
    Grid2Congruent(Dx(volume), Dy(volume), (i, j) => Offset(p, i, j, Dz(volume)), (i, j) => Offset(q, i, j, -1));
  }

  /** The cells right of a box are the cells left of the same box moved `dx + 1` columns right. */
  lemma {:induction false} RightIsLeftOfShifted(p: int, volume: Option<int>)
    ensures Right(p, volume) == Left(Offset(p, Dx(volume) + 1, 0, 0), volume)
  {
    var q := Offset(p, Dx(volume) + 1, 0, 0);
    forall k, j | 0 <= k < Dz(volume) && 0 <= j < Dy(volume)
      ensures Offset(p, Dx(volume), j, k) == Offset(q, -1, j, k)
    {
      OffsetCompose(p, Dx(volume) + 1, 0, 0, -1, j, k);
    }
    Grid2Congruent(Dz(volume), Dy(volume), (k, j) => Offset(p, Dx(volume), j, k), (k, j) => Offset(q, -1, j, k));
  }

  /** The cells in front of a box are the cells behind the same box moved `dy + 1` rows forward. */
  lemma {:induction false} FrontIsBehindOfShifted(p: int, volume: Option<int>)
    ensures Front(p, volume) == Behind(Offset(p, 0, Dy(volume) + 1, 0), volume)
  {
    var q := Offset(p, 0, Dy(volume) + 1, 0);
    forall k, i | 0 <= k < Dz(volume) && 0 <= i < Dx(volume)
      ensures Offset(p, i, Dy(volume), k) == Offset(q, i, -1, k)
    {
      OffsetCompose(p, 0, Dy(volume) + 1, 0, i, -1, k);
    }
    Grid2Congruent(Dz(volume), Dx(volume), (k, i) => Offset(p, i, Dy(volume), k), (k, i) => Offset(q, i, -1, k));
  }
}
