/** The select move. A tile leaves the pasture for a slot of the staging area; when that
    completes its colour, the colour's tiles go on to the corral. The undo takes the match
    back from the corral, unstages the tile and returns it to the pasture. The three zones
    of a level are threaded through as one value. */
module Moves {
  import opened Outcomes
  import opened Packed
  import opened Tiles
  import opened Counters
  import opened Pastures
  import opened PastureEdits
  import opened StagingAreas
  import opened Corrals
  import opened Spreads

  /** The zones of a level: the board, the slots, the archive of matches. */
  datatype Zones = Zones(pasture: Pasture, staging: Staging, corral: Corral)

  /** A `SelectMove` of a tile index, with what its last `Do` recorded: whether a match
      entered the corral, and the indices of the match's other tiles. */
  datatype SelectMove = SelectMove(tileIndex: int, enteredCorral: bool, partners: seq<int>)

  function AllTiles(z: Zones): seq<Tile> {
    z.pasture.tiles + z.staging.tiles + z.corral.tiles
  }

  /** Every staged colour is still short of a match. */
  ghost predicate Pending(s: Staging) {
    forall c | c in s.counter :: s.counter[c] < s.required
  }

  /** What every move keeps: each zone's own invariant, tiles that fit the board, one
      index per tile across the three zones, and no complete colour left in the slots. */
  ghost predicate Sound(z: Zones) {
    && Refreshed(z.pasture) && StagingAreas.Valid(z.staging) && Corrals.Valid(z.corral)
    && Spread(z.pasture, AllTiles(z))
    && Pending(z.staging)
  }

  /** Tiles that `AddTile` accepts back onto the board. */
  ghost predicate Returnable(p: Pasture, ts: seq<Tile>) {
    forall i | 0 <= i < |ts| :: Fitting(p, ts[i]) && Fresh(p.tiles, ts[i].index)
  }

  /** What an undo relies on: the zones' invariants, and staged and collected tiles that
      fit back on the board. */
  ghost predicate Undoable(z: Zones) {
    && Coherent(z.pasture) && StagingAreas.Valid(z.staging) && Corrals.Valid(z.corral)
    && Returnable(z.pasture, z.staging.tiles) && Returnable(z.pasture, z.corral.tiles)
  }

  /** Moving a tile to another zone keeps its fit. */
  lemma FittingZone(p: Pasture, t: Tile, zone: Zone)
    ensures Fitting(p, SetZone(t, zone)) == Fitting(p, t)
  {
  }

  // ---------------------------------------------------------------- doing

  /** `CanDo`: the tile is selectable and a slot is free. */
  predicate CanDo(z: Zones, index: int) {
    CanSelect(z.pasture, index) && CanAccept(z.staging)
  }

  /** On a sound level a move can be done exactly when the board holds an unlocked tile
      with the index and fewer tiles are staged than there are slots. */
  lemma CanDoMeans(z: Zones, index: int)
    requires Sound(z)
    ensures CanDo(z, index) <==>
      (exists i | 0 <= i < |z.pasture.tiles| :: z.pasture.tiles[i].index == index && !z.pasture.tiles[i].locked)
      && |z.staging.tiles| < z.staging.capacity
  {
    CanSelectMeans(z.pasture, index);
  }

  /** The indices of a match's tiles other than the selected one, in match order. */
  function Partners(group: seq<Tile>, index: int): (r: seq<int>)
    ensures |r| <= |group|
    ensures forall j | 0 <= j < |r| :: r[j] != index
    decreases |group|
  {
    if group == [] then []
    else
      var last := group[|group| - 1];
      Partners(group[..|group| - 1], index) + (if last.index != index then [last.index] else [])
  }

  /** The indices of the tiles, in list order. */
  function Indices(ts: seq<Tile>): (r: seq<int>)
    ensures |r| == |ts| && forall i | 0 <= i < |ts| :: r[i] == ts[i].index
  {
    seq(|ts|, i requires 0 <= i < |ts| => ts[i].index)
  }

  /** A match none of whose tiles is the selected one has every index as a partner. */
  lemma {:induction false} PartnersOfOthers(group: seq<Tile>, index: int)
    requires Fresh(group, index)
    ensures Partners(group, index) == Indices(group)
    decreases |group|
  {
    if group != [] {
      var front := group[..|group| - 1];
      PartnersOfOthers(front, index);
      assert Indices(group) == Indices(front) + [group[|group| - 1].index];
    }
  }

  /** `Do`: the tile is extracted from the pasture (an unknown index fails as the dictionary
      does) and settled in the other zones. */
  function Do(z: Zones, index: int): (r: Result<(Zones, SelectMove)>)
    requires Coherent(z.pasture)
    ensures Fresh(z.pasture.tiles, index) ==> r == Fail(KeyNotFound)
    ensures r.Ok? ==> r.value.1.tileIndex == index
  {
    var e :- Extract(z.pasture, index);
    var (tile, p) := e;
    Settle(Zones(p, z.staging, z.corral), tile, index)
  }

  /** The rest of `Do`, once the tile is off the board: it is staged. If that completes
      its colour, every staged tile of the colour is removed and accepted by the corral, and
      the move records the other tiles' indices; otherwise it records no match. */
  function Settle(z: Zones, tile: Tile, index: int): (r: Result<(Zones, SelectMove)>)
    ensures r.Ok? ==> r.value.0.pasture == z.pasture && r.value.1.tileIndex == index
    ensures r.Ok? && !r.value.1.enteredCorral ==> r.value.0.corral == z.corral && r.value.1.partners == []
  {
    var (_, s) := Stage(z.staging, tile);
    match TryResolve(s, tile.color)
    case None => Ok((Zones(z.pasture, s, z.corral), SelectMove(index, false, [])))
    case Some(group) =>
      var s' :- Remove(s, group);
      Ok((Zones(z.pasture, s', Accept(z.corral, group)), SelectMove(index, true, Partners(group, index))))
  }

  /** The tiles of a level after a move, with the counts the move promises: a completed
      match is exactly `required` tiles, the selected one and `required - 1` partners. */
  ghost predicate Moved(z: Zones, z1: Zones, m: SelectMove, index: int) {
    && m.tileIndex == index
    && (m.enteredCorral ==>
          && |m.partners| + 1 == z.staging.required
          && |z1.staging.tiles| + z.staging.required == |z.staging.tiles| + 1
          && |z1.corral.tiles| == |z.corral.tiles| + z.staging.required)
    && (!m.enteredCorral ==>
          && m.partners == []
          && |z1.staging.tiles| == |z.staging.tiles| + 1
          && z1.corral == z.corral)
  }

  /** A sound level stays sound under a move that can be done. */
  lemma DoSound(z: Zones, index: int) returns (z1: Zones, m: SelectMove)
    requires Sound(z) && CanDo(z, index)
    ensures Do(z, index) == Ok((z1, m)) && Sound(z1) && Moved(z, z1, m, index)
  {
    var t, p1 := Selected(z.pasture, z.staging.tiles, z.corral.tiles, index);
    z1, m := SettleSound(z, p1, t);
  }

  /** Settling a tile taken from a spread board keeps the zones' invariants and the bag of
      shapes. */
  lemma SettleSound(z: Zones, p1: Pasture, t: Tile) returns (z1: Zones, m: SelectMove)
    requires StagingAreas.Valid(z.staging) && Corrals.Valid(z.corral) && Pending(z.staging) && CanAccept(z.staging)
    requires Spread(z.pasture, AllTiles(z)) && SameSize(z.pasture, p1)
    requires ShapeBag(z.pasture.tiles) == ShapeBag(p1.tiles) + multiset{Shape(t)}
    requires DistinctIndices(z.staging.tiles) && Fresh(z.staging.tiles, t.index)
    ensures Settle(Zones(p1, z.staging, z.corral), t, t.index) == Ok((z1, m))
    ensures z1.pasture == p1 && StagingAreas.Valid(z1.staging) && Corrals.Valid(z1.corral)
    ensures Spread(p1, AllTiles(z1)) && Pending(z1.staging) && Moved(z, z1, m, t.index)
  {
    var s1 := StageFresh(z.staging, t);
    ShapesShift(z.pasture.tiles, z.staging.tiles, z.corral.tiles, p1.tiles, s1.tiles, Shape(t));
    if HasMatchCompleted(s1, t.color) {
      z1, m := SettleMatch(z, p1, t, s1);
    } else {
      z1, m := SettleQuiet(z, p1, t, s1);
    }
  }

  /** The bag of shapes of three zones together. */
  lemma ShapesJoin(a: seq<Tile>, b: seq<Tile>, c: seq<Tile>)
    ensures ShapeBag(a + b + c) == ShapeBag(a) + ShapeBag(b) + ShapeBag(c)
  {
    ShapesAppend(a, b);
    ShapesAppend(a + b, c);
  }

  /** A shape moved from the first zone to the second keeps the bag of all three. */
  lemma ShapesShift(a: seq<Tile>, b: seq<Tile>, c: seq<Tile>, a1: seq<Tile>, b1: seq<Tile>, x: Tile)
    requires ShapeBag(a) == ShapeBag(a1) + multiset{x} && ShapeBag(b1) == ShapeBag(b) + multiset{x}
    ensures ShapeBag(a + b + c) == ShapeBag(a1) + ShapeBag(b1) + ShapeBag(c)
  {
    ShapesJoin(a, b, c);
  }

  /** ... when the staged tile leaves its colour short of a match. */
  lemma SettleQuiet(z: Zones, p1: Pasture, t: Tile, s1: Staging) returns (z1: Zones, m: SelectMove)
    requires StagingAreas.Valid(z.staging) && Corrals.Valid(z.corral) && Pending(z.staging)
    requires Spread(z.pasture, AllTiles(z)) && SameSize(z.pasture, p1)
    requires ShapeBag(AllTiles(z)) == ShapeBag(p1.tiles) + ShapeBag(s1.tiles) + ShapeBag(z.corral.tiles)
    requires Stage(z.staging, t).1 == s1
    requires s1.tiles == z.staging.tiles + [SetZone(t, StagingZone)] && s1.counter == Inc(z.staging.counter, t.color)
    requires StagingAreas.Valid(s1) && !HasMatchCompleted(s1, t.color)
    ensures Settle(Zones(p1, z.staging, z.corral), t, t.index) == Ok((z1, m))
    ensures z1.pasture == p1 && StagingAreas.Valid(z1.staging) && Corrals.Valid(z1.corral)
    ensures Spread(p1, AllTiles(z1)) && Pending(z1.staging) && Moved(z, z1, m, t.index)
  {
    z1 := Zones(p1, s1, z.corral);
    m := SelectMove(t.index, false, []);
    assert TryResolve(s1, t.color).None?;
    ShapesJoin(p1.tiles, s1.tiles, z.corral.tiles);
    SpreadTransfer(z.pasture, p1, AllTiles(z), AllTiles(z1));
  }

  /** ... when the staged tile completes its colour. */
  lemma SettleMatch(z: Zones, p1: Pasture, t: Tile, s1: Staging) returns (z1: Zones, m: SelectMove)
    requires StagingAreas.Valid(z.staging) && Corrals.Valid(z.corral) && Pending(z.staging)
    requires Spread(z.pasture, AllTiles(z)) && SameSize(z.pasture, p1)
    requires ShapeBag(AllTiles(z)) == ShapeBag(p1.tiles) + ShapeBag(s1.tiles) + ShapeBag(z.corral.tiles)
    requires Fresh(z.staging.tiles, t.index) && Stage(z.staging, t).1 == s1
    requires s1.tiles == z.staging.tiles + [SetZone(t, StagingZone)] && s1.counter == Inc(z.staging.counter, t.color)
    requires s1.capacity == z.staging.capacity && s1.required == z.staging.required
    requires StagingAreas.Valid(s1) && DistinctIndices(s1.tiles) && HasMatchCompleted(s1, t.color)
    ensures Settle(Zones(p1, z.staging, z.corral), t, t.index) == Ok((z1, m))
    ensures z1.pasture == p1 && StagingAreas.Valid(z1.staging) && Corrals.Valid(z1.corral)
    ensures Spread(p1, AllTiles(z1)) && Pending(z1.staging) && Moved(z, z1, m, t.index)
  {
    var u := SetZone(t, StagingZone);
    assert u.color == t.color && u.index == t.index;
    var g := Resolved(z.staging, s1, u);
    PendingInc(z.staging, s1, t.color);
    var s2 := RemovePending(s1, t.color);
    SettleMatchValue(Zones(p1, z.staging, z.corral), t, s1, g, s2);
    var c1 := Accept(z.corral, g);
    AcceptValid(z.corral, g);
    z1 := Zones(p1, s2, c1);
    m := SelectMove(t.index, true, Partners(g, t.index));
    assert |s2.tiles| + |g| == |s1.tiles| by {
      assert |multiset(s2.tiles) + multiset(g)| == |multiset(s1.tiles)|;
    }
    MatchMoved(z, z1, t.index, g);
    MatchSpread(z, p1, s1, s2, g);
  }

  /** The counts a match promises: the group is `required` tiles, all gone from the slots
      to the corral. */
  lemma MatchMoved(z: Zones, z1: Zones, index: int, g: seq<Tile>)
    requires |g| == z.staging.required && |Partners(g, index)| + 1 == |g|
    requires |z1.staging.tiles| + |g| == |z.staging.tiles| + 1
    requires z1.corral.tiles == z.corral.tiles + InZone(g, CorralZone)
    ensures Moved(z, z1, SelectMove(index, true, Partners(g, index)), index)
  {
  }

  /** The board, the slots and the corral after a match are still a spread. */
  lemma MatchSpread(z: Zones, p1: Pasture, s1: Staging, s2: Staging, g: seq<Tile>)
    requires Spread(z.pasture, AllTiles(z)) && SameSize(z.pasture, p1)
    requires ShapeBag(AllTiles(z)) == ShapeBag(p1.tiles) + ShapeBag(s1.tiles) + ShapeBag(z.corral.tiles)
    requires multiset(s2.tiles) + multiset(g) == multiset(s1.tiles)
    ensures Spread(p1, AllTiles(Zones(p1, s2, Accept(z.corral, g))))
  {
    MatchBag(p1.tiles, s1.tiles, s2.tiles, z.corral.tiles, g);
    SpreadTransfer(z.pasture, p1, AllTiles(z), AllTiles(Zones(p1, s2, Accept(z.corral, g))));
  }

  lemma SettleMatchValue(z: Zones, t: Tile, s1: Staging, g: seq<Tile>, s2: Staging)
    requires Stage(z.staging, t).1 == s1 && TryResolve(s1, t.color) == Some(g) && Remove(s1, g) == Ok(s2)
    ensures Settle(z, t, t.index) == Ok((Zones(z.pasture, s2, Accept(z.corral, g)), SelectMove(t.index, true, Partners(g, t.index))))
  {
  }

  /** A match moving from the slots to the corral keeps the bag of shapes. */
  lemma MatchBag(board: seq<Tile>, staged: seq<Tile>, rest: seq<Tile>, kept: seq<Tile>, g: seq<Tile>)
    requires multiset(rest) + multiset(g) == multiset(staged)
    ensures ShapeBag(board + rest + (kept + InZone(g, CorralZone)))
         == ShapeBag(board) + ShapeBag(staged) + ShapeBag(kept)
  {
    ShapesMultiset(rest + g, staged);
    ShapesAppend(rest, g);
    ShapesInZone(g, CorralZone);
    ShapesAppend(kept, InZone(g, CorralZone));
    ShapesAppend(board, rest);
    ShapesAppend(board + rest, kept + InZone(g, CorralZone));
  }

  /** Extracting a selectable tile of a spread board. */
  lemma Selected(p: Pasture, staged: seq<Tile>, kept: seq<Tile>, index: int) returns (t: Tile, p1: Pasture)
    requires Refreshed(p) && Spread(p, p.tiles + staged + kept) && CanSelect(p, index)
    ensures Extract(p, index) == Ok((t, p1))
    ensures !Fresh(p.tiles, index) && t == p.tiles[Find(p.tiles, index)]
    ensures t.index == index && WellFormed(t) && Z(t.volume) >= 1
    ensures Refreshed(p1) && SameSize(p, p1)
    ensures ShapeBag(p.tiles) == ShapeBag(p1.tiles) + multiset{Shape(t)}
    ensures Fresh(staged, index) && DistinctIndices(staged)
  {
    assert !Fresh(p.tiles, index) by {
      CanSelectMeans(p, index);
    }
    var k := Find(p.tiles, index);
    t := p.tiles[k];
    p1 := Extract(p, index).value.1;
    SpreadParts(p, staged, kept, k);
    ShapesRemoveAt(p.tiles, k);
    ShapesReflags(RemoveAt(p.tiles, k), p1.tiles);
  }

  /** Staging a tile whose index is new to the slots. */
  lemma StageFresh(s: Staging, t: Tile) returns (s1: Staging)
    requires StagingAreas.Valid(s) && CanAccept(s) && DistinctIndices(s.tiles) && Fresh(s.tiles, t.index)
    ensures Stage(s, t).1 == s1
    ensures s1.tiles == s.tiles + [SetZone(t, StagingZone)] && s1.counter == Inc(s.counter, t.color)
    ensures s1.capacity == s.capacity && s1.required == s.required
    ensures StagingAreas.Valid(s1) && DistinctIndices(s1.tiles)
    ensures ShapeBag(s1.tiles) == ShapeBag(s.tiles) + multiset{Shape(t)}
  {
    s1 := Stage(s, t).1;
    var u := SetZone(t, StagingZone);
    DistinctAppend(s.tiles, u);
    AppendShape(s.tiles, t, u);
  }

  lemma AppendShape(ts: seq<Tile>, t: Tile, u: Tile)
    requires u == SetZone(t, StagingZone)
    ensures ShapeBag(ts + [u]) == ShapeBag(ts) + multiset{Shape(t)}
  {
    ShapesAppend(ts, [u]);
    assert Shapes([u]) == [Shape(t)];
  }

  /** The selected tile of a spread fits, and its index is new to the slots, whose
      indices are distinct. */
  lemma SpreadParts(p: Pasture, staged: seq<Tile>, kept: seq<Tile>, k: int)
    requires Spread(p, p.tiles + staged + kept) && 0 <= k < |p.tiles|
    ensures Fitting(p, p.tiles[k]) && Fresh(staged, p.tiles[k].index) && DistinctIndices(staged)
  {
    var all := p.tiles + staged + kept;
    assert all[k] == p.tiles[k];
    DistinctParts(p.tiles, staged, kept, k);
  }

  /** Among distinct indices, a tile of the first part has an index the second part does
      not use, and the second part's indices are distinct. */
  lemma DistinctParts(a: seq<Tile>, b: seq<Tile>, c: seq<Tile>, k: int)
    requires DistinctIndices(a + b + c) && 0 <= k < |a|
    ensures Fresh(b, a[k].index) && DistinctIndices(b)
  {
    var all := a + b + c;
    var n := |a|;
    assert all[k] == a[k];
    forall i | 0 <= i < |b| ensures b[i].index != a[k].index {
      assert all[n + i] == b[i];
    }
    forall i, j | 0 <= i < |b| && 0 <= j < |b| && i != j ensures b[i].index != b[j].index {
      assert all[n + i] == b[i] && all[n + j] == b[j];
    }
  }

  lemma DistinctAppend(ts: seq<Tile>, u: Tile)
    requires DistinctIndices(ts) && Fresh(ts, u.index)
    ensures DistinctIndices(ts + [u])
  {
    assert forall i | 0 <= i < |ts| :: (ts + [u])[i] == ts[i];
  }

  /** When the staged tile completes its colour, the group is the earlier staged tiles of
      the colour and the new one, `required` in all. */
  lemma Resolved(s: Staging, s1: Staging, u: Tile) returns (g: seq<Tile>)
    requires StagingAreas.Valid(s) && Pending(s) && Fresh(s.tiles, u.index)
    requires StagingAreas.Valid(s1) && s1.tiles == s.tiles + [u]
    requires s1.counter == Inc(s.counter, u.color) && s1.required == s.required
    requires HasMatchCompleted(s1, u.color)
    ensures TryResolve(s1, u.color) == Some(g) && g == ByColor(s1.tiles, u.color)
    ensures g == ByColor(s.tiles, u.color) + [u] && |g| == s.required
    ensures |Partners(g, u.index)| + 1 == |g|
  {
    g := ByColor(s1.tiles, u.color);
    assert g == ByColor(s.tiles, u.color) + [u] by {
      ByColorAppend(s.tiles, u, u.color);
    }
    ExactGroup(s, s1, u.color);
    MatchPartners(s.tiles, u);
  }

  /** Staging one tile changes the count of its colour alone. */
  lemma PendingInc(s: Staging, s1: Staging, color: int)
    requires Pending(s) && s1.counter == Inc(s.counter, color) && s1.required == s.required
    ensures forall c | c in s1.counter && c != color :: s1.counter[c] < s1.required
  {
  }

  /** The partners of a match completed by `u` are the other tiles of its colour. */
  lemma MatchPartners(ts: seq<Tile>, u: Tile)
    requires Fresh(ts, u.index)
    ensures |Partners(ByColor(ts, u.color) + [u], u.index)| == |ByColor(ts, u.color)|
  {
    var front := ByColor(ts, u.color);
    var g := front + [u];
    assert g[..|g| - 1] == front;
    assert Fresh(front, u.index) by {
      ByColorWithin(ts, u.color);
      assert forall i | 0 <= i < |front| :: front[i] in ts;
    }
    PartnersOfOthers(front, u.index);
  }

  /** Removing the group of a completed colour leaves the other colours as they were. */
  lemma RemovePending(s1: Staging, color: int) returns (s2: Staging)
    requires StagingAreas.Valid(s1) && DistinctIndices(s1.tiles) && HasMatchCompleted(s1, color)
    requires forall c | c in s1.counter && c != color :: s1.counter[c] < s1.required
    ensures Remove(s1, ByColor(s1.tiles, color)) == Ok(s2)
    ensures StagingAreas.Valid(s2) && Pending(s2) && DistinctIndices(s2.tiles)
    ensures multiset(s2.tiles) + multiset(ByColor(s1.tiles, color)) == multiset(s1.tiles)
    ensures s2.capacity == s1.capacity && s2.required == s1.required
  {
    var _, r := ResolveThenRemove(s1, color);
    s2 := r;
  }

  /** A colour short of a match before one more tile of it is staged, and complete after,
      is complete with exactly `required` tiles. */
  lemma ExactGroup(s: Staging, s1: Staging, color: int)
    requires StagingAreas.Valid(s) && Pending(s) && StagingAreas.Valid(s1)
    requires s1.counter == Inc(s.counter, color) && s1.required == s.required
    requires HasMatchCompleted(s1, color)
    ensures TryResolve(s1, color) == Some(ByColor(s1.tiles, color))
    ensures |ByColor(s1.tiles, color)| == s.required
  {
    TryResolveMeans(s1, color);
    assert |ByColor(s1.tiles, color)| == s1.counter[color];
    assert s1.counter[color] == if color in s.counter then s.counter[color] + 1 else 1;
  }

  // ---------------------------------------------------------------- undoing

  /** The first step of undoing a match: the last `n` corral tiles, most recent first, are
      retrieved and restored to the staging area. */
  function TakeBack(s: Staging, c: Corral, n: int): (r: Result<(Staging, Corral)>)
    requires StagingAreas.Valid(s) && Corrals.Valid(c)
    ensures n > |c.tiles| ==> r == Fail(ArgumentOutOfRange)
    ensures 0 < n <= |c.tiles| && |s.tiles| + n > s.capacity ==> r == Fail(InvalidOperation)
    ensures r.Ok? ==> StagingAreas.Valid(r.value.0) && Corrals.Valid(r.value.1)
    ensures r.Ok? ==> r.value.0.capacity == s.capacity && r.value.0.required == s.required
    ensures r.Ok? ==> 0 <= Taken(n) <= |c.tiles| && r.value.1.tiles == c.tiles[..|c.tiles| - Taken(n)]
    ensures r.Ok? ==> r.value.0.tiles == s.tiles + InZone(Reverse(c.tiles[|c.tiles| - Taken(n)..]), StagingZone)
  {
    var e :- Retrieve(c, n);
    var (group, c') := e;
    assert n <= 0 ==> c.tiles[|c.tiles| - Taken(n)..] == [];
    assert group == Reverse(c.tiles[|c.tiles| - Taken(n)..]);
    var s' :- Restore(s, group);
    Ok((s', c'))
  }

  /** How many corral tiles a retrieval of `n` takes: none when `n` is not positive. */
  function Taken(n: int): nat {
    if n <= 0 then 0 else n
  }

  /** What `TakeBack` leaves in both zones still fits back. */
  lemma TakeBackReturnable(p: Pasture, s: Staging, c: Corral, n: int, s': Staging, c': Corral)
    requires StagingAreas.Valid(s) && Corrals.Valid(c) && TakeBack(s, c, n) == Ok((s', c'))
    requires Returnable(p, s.tiles) && Returnable(p, c.tiles)
    ensures Returnable(p, s'.tiles) && Returnable(p, c'.tiles)
  {
    TakenBack(p, s.tiles, c.tiles, n, s'.tiles, c'.tiles);
  }

  /** Staging the last `Taken(n)` corral tiles, most recent first, and keeping the rest. */
  lemma TakenBack(p: Pasture, staged: seq<Tile>, kept: seq<Tile>, n: int, ts: seq<Tile>, rest: seq<Tile>)
    requires Returnable(p, staged) && Returnable(p, kept) && 0 <= Taken(n) <= |kept|
    requires ts == staged + InZone(Reverse(kept[|kept| - Taken(n)..]), StagingZone)
    requires rest == kept[..|kept| - Taken(n)]
    ensures Returnable(p, ts) && Returnable(p, rest)
  {
    var k := |kept| - Taken(n);
    ReturnablePrefix(p, kept, k);
    TakenFromCorral(p, staged, kept, k, ts);
  }

  lemma TakenFromCorral(p: Pasture, staged: seq<Tile>, kept: seq<Tile>, k: int, ts: seq<Tile>)
    requires Returnable(p, staged) && Returnable(p, kept) && 0 <= k <= |kept|
    requires ts == staged + InZone(Reverse(kept[k..]), StagingZone)
    ensures Returnable(p, ts)
  {
    var group := Reverse(kept[k..]);
    forall i | 0 <= i < |ts| ensures Fitting(p, ts[i]) && Fresh(p.tiles, ts[i].index) {
      if i < |staged| {
        assert ts[i] == staged[i];
      } else {
        var j := i - |staged|;
        assert ts[i] == SetZone(group[j], StagingZone);
        assert group[j] == kept[|kept| - 1 - j];
        FittingZone(p, group[j], StagingZone);
      }
    }
  }

  /** A sound level can be undone. */
  lemma SoundUndoable(z: Zones)
    requires Sound(z)
    ensures Undoable(z)
  {
    SpreadReturnable(z.pasture, z.staging.tiles, z.corral.tiles);
  }

  /** Tiles listed after the board's, spread over it, fit back. */
  lemma SpreadReturnable(p: Pasture, staged: seq<Tile>, kept: seq<Tile>)
    requires Spread(p, p.tiles + staged + kept)
    ensures Returnable(p, staged) && Returnable(p, kept)
  {
    var rest := staged + kept;
    Associative(p.tiles, staged, kept);
    assert rest[..|staged|] == staged && rest[|staged|..] == kept;
    PartReturnable(p, rest, 0, |staged|);
    PartReturnable(p, rest, |staged|, |rest|);
  }

  lemma PartReturnable(p: Pasture, rest: seq<Tile>, lo: int, hi: int)
    requires Spread(p, p.tiles + rest) && 0 <= lo <= hi <= |rest|
    ensures Returnable(p, rest[lo..hi])
  {
    var whole := p.tiles + rest;
    var n := |p.tiles|;
    forall i | 0 <= i < hi - lo ensures Fitting(p, rest[lo..hi][i]) && Fresh(p.tiles, rest[lo..hi][i].index) {
      assert whole[n + lo + i] == rest[lo..hi][i];
      FreshFromDistinct(p.tiles, rest, n + lo + i);
    }
  }

  /** In a list of distinct indices, a tile past the first part has an index the first
      part does not use. */
  lemma FreshFromDistinct(a: seq<Tile>, b: seq<Tile>, k: int)
    requires DistinctIndices(a + b) && |a| <= k < |a| + |b|
    ensures Fresh(a, (a + b)[k].index)
  {
    forall i | 0 <= i < |a| ensures a[i].index != (a + b)[k].index {
      assert (a + b)[i] == a[i];
    }
  }

  /** What the corral keeps after a retrieval still fits back. */
  lemma RetrieveReturnable(p: Pasture, c: Corral, n: int)
    requires Corrals.Valid(c) && Returnable(p, c.tiles) && Retrieve(c, n).Ok?
    ensures Returnable(p, Retrieve(c, n).value.1.tiles)
  {
    var rest := Retrieve(c, n).value.1;
    if n > 0 {
      assert rest.tiles == c.tiles[..|c.tiles| - n];
      ReturnablePrefix(p, c.tiles, |c.tiles| - n);
    } else {
      assert rest == c;
    }
  }

  /** A prefix of returnable tiles is returnable. */
  lemma ReturnablePrefix(p: Pasture, ts: seq<Tile>, k: int)
    requires Returnable(p, ts) && 0 <= k <= |ts|
    ensures Returnable(p, ts[..k])
  {
    assert forall i | 0 <= i < k :: ts[..k][i] == ts[i];
  }

  lemma ReturnableMember(p: Pasture, ts: seq<Tile>, t: Tile)
    requires Returnable(p, ts) && t in ts
    ensures Fitting(p, t) && Fresh(p.tiles, t.index)
  {
  }

  /** The last step of an undo: the tile is unstaged and added back to the pasture. A tile
      missing from the slots reaches `AddTile` as null. */
  function Return(p: Pasture, s: Staging, index: int): (r: Result<(Pasture, Staging)>)
    requires Coherent(p) && StagingAreas.Valid(s) && Returnable(p, s.tiles)
    ensures r.Ok? <==> !Fresh(s.tiles, index)
    ensures r.Fail? ==> r.fault == NullReference
  {
    var (x, s') := Unstage(s, index);
    match x
    case None => Fail(NullReference)
    case Some(t) =>
      assert Fitting(p, t) && Fresh(p.tiles, t.index) by {
        ReturnableMember(p, s.tiles, t);
      }
      Ok((Put(p, t).value, s'))
  }

  /** `AddTile` of a returned tile: a fitting tile with a fresh index always goes back. */
  function Put(p: Pasture, t: Tile): (r: Result<Pasture>)
    requires Coherent(p) && Fitting(p, t) && Fresh(p.tiles, t.index)
    ensures r.Ok?
  {
    AddTile(p, t)
  }

  /** `Undo`: a recorded match is taken back from the corral (|partners| + 1 tiles) and
      restored to the staging area; then the selected tile is unstaged and added back to
      the pasture. The move's record is cleared. */
  function Undo(z: Zones, m: SelectMove): (r: Result<(Zones, SelectMove)>)
    requires Undoable(z)
    ensures m.enteredCorral && |m.partners| + 1 > |z.corral.tiles| ==> r == Fail(ArgumentOutOfRange)
    ensures !m.enteredCorral ==> (r.Ok? <==> !Fresh(z.staging.tiles, m.tileIndex))
    ensures r.Ok? ==> r.value.1 == SelectMove(m.tileIndex, false, [])
  {
    var back :- Reopen(z.staging, z.corral, m);
    var (s, c) := back;
    assert Returnable(z.pasture, s.tiles) by {
      if m.enteredCorral {
        TakeBackReturnable(z.pasture, z.staging, z.corral, |m.partners| + 1, s, c);
      }
    }
    var e :- Return(z.pasture, s, m.tileIndex);
    Ok((Zones(e.0, e.1, c), SelectMove(m.tileIndex, false, [])))
  }

  /** The zones an undo unstages from: after `TakeBack` when the move made a match. */
  function Reopen(s: Staging, c: Corral, m: SelectMove): (r: Result<(Staging, Corral)>)
    requires StagingAreas.Valid(s) && Corrals.Valid(c)
    ensures !m.enteredCorral ==> r == Ok((s, c))
    ensures m.enteredCorral ==> r == TakeBack(s, c, |m.partners| + 1)
  {
    if m.enteredCorral then TakeBack(s, c, |m.partners| + 1) else Ok((s, c))
  }

  // ---------------------------------------------------------------- undoing a move

  /** What an undo gives back: the selected tile returns to the board, last in its list and
      with recomputed flags; the slots hold the same tiles with the same counts, possibly
      in another order; the corral is as it was. */
  ghost predicate Restores(z: Zones, index: int, z2: Zones) {
    && !Fresh(z.pasture.tiles, index) && SameSize(z.pasture, z2.pasture)
    && (var k := Find(z.pasture.tiles, index);
        Reflags(RemoveAt(z.pasture.tiles, k) + [z.pasture.tiles[k]], z2.pasture.tiles))
    && multiset(z2.staging.tiles) == multiset(z.staging.tiles)
    && z2.staging.counter == z.staging.counter
    && z2.staging.capacity == z.staging.capacity && z2.staging.required == z.staging.required
    && z2.corral == z.corral
  }

  /** `Undo` after `Do`: a selection, undone, restores the level, which is sound again. */
  lemma DoThenUndo(z: Zones, index: int) returns (z1: Zones, m: SelectMove, z2: Zones)
    requires Sound(z) && CanDo(z, index)
    ensures Do(z, index) == Ok((z1, m)) && Undoable(z1)
    ensures Undo(z1, m) == Ok((z2, SelectMove(index, false, [])))
    ensures Restores(z, index, z2) && Sound(z2)
  {
    var t, p1 := Selected(z.pasture, z.staging.tiles, z.corral.tiles, index);
    z1, m := SettleSound(z, p1, t);
    var z0 := Zones(p1, z.staging, z.corral);
    DoValue(z, index, t, p1, z1, m);
    var s3 := SettleReopen(z0, t, z1, m);
    var u := SetZone(t, StagingZone);
    DistinctAppend(z.staging.tiles, u);
    var s4 := UnstageBack(z.staging, s3, u);
    var t', q, r := ExtractThenAdd(z.pasture, index, StagingZone);
    z2 := Zones(r, s4, z.corral);
    SpreadReturnable(z1.pasture, z1.staging.tiles, z1.corral.tiles);
    UndoValue(z1, m, s3, z.corral, u, s4, r);
    Restoring(z, index, t, r, s4);
    RestoredSound(z, index, z2);
  }

  lemma Restoring(z: Zones, index: int, t: Tile, r: Pasture, s: Staging)
    requires !Fresh(z.pasture.tiles, index) && t == z.pasture.tiles[Find(z.pasture.tiles, index)]
    requires SameSize(z.pasture, r) && Reflags(RemoveAt(z.pasture.tiles, Find(z.pasture.tiles, index)) + [t], r.tiles)
    requires multiset(s.tiles) == multiset(z.staging.tiles) && s.counter == z.staging.counter
    requires s.capacity == z.staging.capacity && s.required == z.staging.required
    ensures Restores(z, index, Zones(r, s, z.corral))
  {
  }

  lemma DoValue(z: Zones, index: int, t: Tile, p1: Pasture, z1: Zones, m: SelectMove)
    requires Coherent(z.pasture) && Extract(z.pasture, index) == Ok((t, p1))
    requires Settle(Zones(p1, z.staging, z.corral), t, index) == Ok((z1, m))
    ensures Do(z, index) == Ok((z1, m))
  {
  }

  lemma UndoValue(z: Zones, m: SelectMove, s: Staging, c: Corral, u: Tile, s': Staging, r: Pasture)
    requires Undoable(z) && Reopen(z.staging, z.corral, m) == Ok((s, c))
    requires Unstage(s, m.tileIndex) == (Some(u), s')
    requires Addable(z.pasture, u) && AddTile(z.pasture, u) == Ok(r)
    ensures Undo(z, m) == Ok((Zones(r, s', c), SelectMove(m.tileIndex, false, [])))
  {
  }

  /** The slots and corral an undo reopens after a selection: the corral as before the
      selection, the slots with the tiles they had then and the selected tile. */
  lemma SettleReopen(z: Zones, t: Tile, z1: Zones, m: SelectMove) returns (s3: Staging)
    requires StagingAreas.Valid(z.staging) && Corrals.Valid(z.corral) && Pending(z.staging)
    requires CanAccept(z.staging) && DistinctIndices(z.staging.tiles) && Fresh(z.staging.tiles, t.index)
    requires Settle(z, t, t.index) == Ok((z1, m))
    requires StagingAreas.Valid(z1.staging) && Corrals.Valid(z1.corral)
    ensures Reopen(z1.staging, z1.corral, m) == Ok((s3, z.corral))
    ensures StagingAreas.Valid(s3) && multiset(s3.tiles) == multiset(z.staging.tiles + [SetZone(t, StagingZone)])
    ensures s3.capacity == z.staging.capacity && s3.required == z.staging.required
  {
    var s1 := StageFresh(z.staging, t);
    if HasMatchCompleted(s1, t.color) {
      var u := SetZone(t, StagingZone);
      assert u.color == t.color && u.index == t.index;
      var g := Resolved(z.staging, s1, u);
      PendingInc(z.staging, s1, t.color);
      var s2 := RemovePending(s1, t.color);
      SettleMatchValue(z, t, s1, g, s2);
      assert z1 == Zones(z.pasture, s2, Accept(z.corral, g)) && m == SelectMove(t.index, true, Partners(g, t.index));
      s3 := UnsettleMatch(s1, s2, z.corral, g);
      ReopenMatch(s2, z.corral, g, t.index, s3);
    } else {
      assert TryResolve(s1, t.color).None?;
      assert z1.staging == s1 && z1.corral == z.corral && !m.enteredCorral;
      s3 := s1;
    }
  }

  lemma ReopenMatch(s2: Staging, c: Corral, g: seq<Tile>, index: int, s3: Staging)
    requires StagingAreas.Valid(s2) && Corrals.Valid(Accept(c, g)) && |Partners(g, index)| + 1 == |g|
    requires TakeBack(s2, Accept(c, g), |g|) == Ok((s3, c))
    ensures Reopen(s2, Accept(c, g), SelectMove(index, true, Partners(g, index))) == Ok((s3, c))
  {
  }

  /** Taking back a match just collected restores its tiles to the slots they left. */
  lemma UnsettleMatch(s1: Staging, s2: Staging, c: Corral, g: seq<Tile>) returns (s3: Staging)
    requires StagingAreas.Valid(s1) && StagingAreas.Valid(s2) && Corrals.Valid(c)
    requires s2.capacity == s1.capacity && s2.required == s1.required
    requires multiset(s2.tiles) + multiset(g) == multiset(s1.tiles)
    ensures Corrals.Valid(Accept(c, g))
    ensures TakeBack(s2, Accept(c, g), |g|) == Ok((s3, c))
    ensures StagingAreas.Valid(s3) && multiset(s3.tiles) == multiset(s1.tiles)
    ensures s3.capacity == s1.capacity && s3.required == s1.required
  {
    AcceptThenRetrieve(c, g);
    var back := Reverse(InZone(g, CorralZone));
    Refilled(s2.tiles, g, s1.tiles);
    ReturnedGroup(g, s1.tiles);
    assert |s2.tiles| + |back| <= s2.capacity;
    s3 := Restore(s2, back).value;
    assert s3.tiles == s2.tiles + Reverse(g);
    TakeBackOf(s2, Accept(c, g), |g|, back, c);
  }

  /** Slots `a` refilled with the group `g` they lost hold as many tiles as before, and the
      same ones when the group comes back reversed. */
  lemma Refilled(a: seq<Tile>, g: seq<Tile>, b: seq<Tile>)
    requires multiset(a) + multiset(g) == multiset(b)
    ensures |a| + |g| == |b| && multiset(a + Reverse(g)) == multiset(b)
  {
    assert |multiset(a) + multiset(g)| == |multiset(b)|;
    ReverseMultiset(g);
  }

  /** `TakeBack` is the retrieval followed by the restore. */
  lemma TakeBackOf(s: Staging, c: Corral, n: int, group: seq<Tile>, c': Corral)
    requires StagingAreas.Valid(s) && Corrals.Valid(c)
    requires Retrieve(c, n) == Ok((group, c')) && Restore(s, group).Ok?
    ensures TakeBack(s, c, n) == Ok((Restore(s, group).value, c'))
  {
  }

  /** A staged group sent to the corral and handed back comes back reversed. */
  lemma ReturnedGroup(g: seq<Tile>, staged: seq<Tile>)
    requires Staged(staged) && multiset(g) <= multiset(staged)
    ensures InZone(Reverse(InZone(g, CorralZone)), StagingZone) == Reverse(g)
    ensures multiset(Reverse(g)) == multiset(g)
  {
    var back := Reverse(InZone(g, CorralZone));
    StagedWithin(g, staged);
    forall i | 0 <= i < |g| ensures InZone(back, StagingZone)[i] == Reverse(g)[i] {
      assert InZone(g, StagingZone)[|g| - 1 - i] == g[|g| - 1 - i];
    }
    ReverseMultiset(g);
  }

  /** Unstaging the last-staged tile from a reordering of the slots gives back the slots'
      earlier tiles and counter. */
  lemma UnstageBack(s: Staging, s3: Staging, u: Tile) returns (s4: Staging)
    requires StagingAreas.Valid(s) && StagingAreas.Valid(s3)
    requires DistinctIndices(s.tiles + [u]) && multiset(s3.tiles) == multiset(s.tiles + [u])
    requires s3.capacity == s.capacity && s3.required == s.required
    ensures Unstage(s3, u.index) == (Some(u), s4)
    ensures multiset(s4.tiles) == multiset(s.tiles) && s4.counter == s.counter
    ensures s4.capacity == s.capacity && s4.required == s.required
  {
    var ts := s.tiles + [u];
    assert u in s3.tiles by {
      assert u in multiset(ts);
    }
    var (x, r) := Unstage(s3, u.index);
    var v := x.value;
    assert v in ts by {
      assert v in multiset(s3.tiles);
    }
    var j :| 0 <= j < |ts| && ts[j] == v;
    FindDistinct(ts, j);
    FindDistinct(ts, |s.tiles|);
    assert v == u;
    Cancel(multiset(r.tiles), multiset(s.tiles), u);
    ColorsOfMultiset(r.tiles, s.tiles);
    TallyOfUnique(r.counter, s.counter, ColorsOf(s.tiles));
    s4 := r;
  }

  /** A restored level is sound. */
  lemma RestoredSound(z: Zones, index: int, z2: Zones)
    requires Sound(z) && Restores(z, index, z2)
    requires Refreshed(z2.pasture) && StagingAreas.Valid(z2.staging)
    ensures Sound(z2)
  {
    RestoredBag(z, index, z2);
    SpreadTransfer(z.pasture, z2.pasture, AllTiles(z), AllTiles(z2));
  }

  lemma RestoredBag(z: Zones, index: int, z2: Zones)
    requires Restores(z, index, z2)
    ensures ShapeBag(AllTiles(z2)) == ShapeBag(AllTiles(z))
  {
    var ps := z.pasture.tiles;
    var k := Find(ps, index);
    ShapesReflags(RemoveAt(ps, k) + [ps[k]], z2.pasture.tiles);
    ShapesAppend(RemoveAt(ps, k), [ps[k]]);
    assert Shapes([ps[k]]) == [Shape(ps[k])];
    ShapesRemoveAt(ps, k);
    ShapesMultiset(z2.staging.tiles, z.staging.tiles);
    ShapesAppend(ps, z.staging.tiles);
    ShapesAppend(ps + z.staging.tiles, z.corral.tiles);
    ShapesAppend(z2.pasture.tiles, z2.staging.tiles);
    ShapesAppend(z2.pasture.tiles + z2.staging.tiles, z.corral.tiles);
  }
}
