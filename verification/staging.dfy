/** The staging area, the row of slots a picked tile moves into. Tiles wait there, counted by
    colour, until `RequiredMatchingElementsCount` tiles of one colour are present; that group
    is then taken out, and an undo puts it back. */
module StagingAreas {
  import opened Outcomes
  import opened Tiles
  import opened Counters

  /** `required` is `RequiredMatchingElementsCount`. `counter` maps a colour to the number of
      staged tiles of that colour and has no zero entries. */
  datatype Staging = Staging(capacity: int, required: int, tiles: seq<Tile>, counter: map<int, int>)

  /** Every tile of the list is in the staging zone. */
  predicate Staged(ts: seq<Tile>) {
    forall i | 0 <= i < |ts| :: ts[i].zone == StagingZone
  }

  /** What the constructor establishes and every operation keeps: the bounds the constructor
      checks, no more tiles than slots, a counter that tallies the colours, staged tiles. */
  ghost predicate Valid(s: Staging) {
    && 0 < s.required <= s.capacity
    && |s.tiles| <= s.capacity
    && Tallies(s.counter, ColorsOf(s.tiles))
    && Staged(s.tiles)
  }

  /** The constructor: a positive capacity, a positive group size no larger than it. */
  function NewStaging(capacity: int, required: int): (r: Result<Staging>)
    ensures r.Ok? <==> 0 < required <= capacity
    ensures capacity <= 0 ==> r == Fail(ArgumentOutOfRange)
    ensures 0 < capacity && required <= 0 ==> r == Fail(ArgumentOutOfRange)
    ensures 0 < capacity && 0 < required && capacity < required ==> r == Fail(Argument)
    ensures r.Ok? ==> Valid(r.value) && r.value.tiles == []
    ensures r.Ok? ==> r.value.capacity == capacity && r.value.required == required
  {
    EmptyTallies<int>();
    if capacity <= 0 then Fail(ArgumentOutOfRange)
    else if required <= 0 then Fail(ArgumentOutOfRange)
    else if required > capacity then Fail(Argument)
    else Ok(Staging(capacity, required, [], map[]))
  }

  function Used(s: Staging): int {
    |s.tiles|
  }

  function Available(s: Staging): int {
    s.capacity - |s.tiles|
  }

  predicate IsFull(s: Staging) {
    Used(s) >= s.capacity
  }

  predicate IsEmpty(s: Staging) {
    Used(s) == 0
  }

  predicate CanAccept(s: Staging) {
    !IsFull(s)
  }

  /** The derived capacity views agree with each other and with the counter. */
  lemma CapacityFacts(s: Staging)
    requires Valid(s)
    ensures Used(s) + Available(s) == s.capacity && 0 <= Available(s)
    ensures IsFull(s) <==> Available(s) == 0
    ensures CanAccept(s) <==> Available(s) > 0
    ensures IsEmpty(s) <==> s.counter == map[]
  {
    if s.counter == map[] {
      assert ColorsOf(s.tiles) == multiset{} by {
        forall c ensures ColorsOf(s.tiles)[c] == 0 {
          assert c !in s.counter;
        }
      }
    }
    if IsEmpty(s) {
      assert ColorsOf(s.tiles) == multiset{};
    }
  }

  /** `HasMatchCompleted`: the colour is counted at least `required` times. */
  predicate HasMatchCompleted(s: Staging, color: int) {
    color in s.counter && s.counter[color] >= s.required
  }

  /** `GetTilesByColor`: empty for an uncounted colour, else the filter. */
  function GetTilesByColor(s: Staging, color: int): seq<Tile> {
    if color !in s.counter then [] else ByColor(s.tiles, color)
  }

  /** The counter short cut never changes the answer: the result is always the filter. */
  lemma GetTilesByColorMeans(s: Staging, color: int)
    requires Valid(s)
    ensures GetTilesByColor(s, color) == ByColor(s.tiles, color)
  {
    if color !in s.counter {
      assert |ByColor(s.tiles, color)| == 0;
    }
  }

  /** A match is complete iff at least `required` staged tiles have the colour. */
  lemma HasMatchMeans(s: Staging, color: int)
    requires Valid(s)
    ensures HasMatchCompleted(s, color) <==> |ByColor(s.tiles, color)| >= s.required
  {
  }

  /** `TryResolve`: the group of a completed colour, or nothing; the area is not changed. */
  function TryResolve(s: Staging, color: int): Option<seq<Tile>> {
    if !HasMatchCompleted(s, color) then None else Some(GetTilesByColor(s, color))
  }

  /** A group is returned exactly for a completed colour, and it is every staged tile of it. */
  lemma TryResolveMeans(s: Staging, color: int)
    requires Valid(s)
    ensures TryResolve(s, color).Some? <==> |ByColor(s.tiles, color)| >= s.required
    ensures TryResolve(s, color).Some? ==> TryResolve(s, color).value == ByColor(s.tiles, color)
  {
    HasMatchMeans(s, color);
    GetTilesByColorMeans(s, color);
  }

  /** `TryAdd`: refused when full, leaving the area as it is; otherwise the tile moves to
      the staging zone and takes the next slot, and its colour is counted. */
  function TryAdd(s: Staging, t: Tile): (r: (bool, Staging))
    ensures r.0 <==> CanAccept(s)
    ensures !r.0 ==> r.1 == s
    ensures r.0 ==> r.1.tiles == s.tiles + [SetZone(t, StagingZone)]
    ensures r.1.capacity == s.capacity && r.1.required == s.required
    ensures Valid(s) ==> Valid(r.1)
  {
    if IsFull(s) then (false, s)
    else
      var u := SetZone(t, StagingZone);
      var s' := s.(tiles := s.tiles + [u], counter := Inc(s.counter, t.color));
      assert Valid(s) ==> Valid(s') by {
        if Valid(s) {
          AppendTallies(s.counter, s.tiles, u);
          AppendStaged(s.tiles, u);
        }
      }
      (true, s')
  }

  lemma AppendStaged(ts: seq<Tile>, u: Tile)
    requires Staged(ts) && u.zone == StagingZone
    ensures Staged(ts + [u])
  {
    assert forall i | 0 <= i < |ts| :: (ts + [u])[i] == ts[i];
  }

  /** `Stage`: the slot the tile was meant for, which is the old tile count even when the
      area was full and nothing was added. */
  function Stage(s: Staging, t: Tile): (r: (int, Staging))
    ensures r.1 == TryAdd(s, t).1
    ensures r.0 == Used(s)
    ensures CanAccept(s) ==> r.0 < |r.1.tiles| && r.1.tiles[r.0] == SetZone(t, StagingZone)
    ensures CanAccept(s) ==> r.1.tiles[..r.0] == s.tiles
  {
    var slot := |s.tiles|;
    var (_, s') := TryAdd(s, t);
    (slot, s')
  }

  /** The slot `k` emptied and the colour of its tile uncounted. */
  function Lift(s: Staging, k: int): (r: Staging)
    requires Valid(s) && 0 <= k < |s.tiles|
    ensures Valid(r)
    ensures multiset(r.tiles) + multiset{s.tiles[k]} == multiset(s.tiles)
    ensures r.capacity == s.capacity && r.required == s.required
  {
    var ts := s.tiles[..k] + s.tiles[k + 1..];
    var counter := Dec(s.counter, s.tiles[k].color);
    assert Tallies(counter, ColorsOf(ts)) by {
      DropTallies(s.counter, s.tiles, k);
    }
    assert Staged(ts) by {
      DropStaged(s.tiles, k);
    }
    assert multiset(ts) + multiset{s.tiles[k]} == multiset(s.tiles) by {
      DropAt(s.tiles, k);
    }
    s.(tiles := ts, counter := counter)
  }

  lemma DropStaged(ts: seq<Tile>, k: int)
    requires Staged(ts) && 0 <= k < |ts|
    ensures Staged(ts[..k] + ts[k + 1..])
  {
    var us := ts[..k] + ts[k + 1..];
    forall i | 0 <= i < |us| ensures us[i].zone == StagingZone {
      assert us[i] == ts[if i < k then i else i + 1];
    }
  }

  /** One step of `Remove`: `List.Remove` takes out the first tile equal to the argument
      (equal index); a missing tile throws in a debug build; then the ARGUMENT's colour is
      decremented, which throws when that colour is not counted. */
  function RemoveOne(s: Staging, t: Tile): (r: Result<Staging>)
    ensures r.Ok? <==> !Fresh(s.tiles, t.index) && t.color in s.counter
    ensures Fresh(s.tiles, t.index) ==> r == Fail(InvalidOperation)
    ensures !Fresh(s.tiles, t.index) && t.color !in s.counter ==> r == Fail(KeyNotFound)
  {
    var k := Find(s.tiles, t.index);
    if k == -1 then Fail(InvalidOperation)
    else if t.color !in s.counter then Fail(KeyNotFound)
    else Ok(s.(tiles := s.tiles[..k] + s.tiles[k + 1..], counter := Dec(s.counter, t.color)))
  }

  /** Removing a staged tile from an area whose indices are distinct takes out that very
      tile and keeps the invariant. */
  lemma RemoveOneMeans(s: Staging, t: Tile) returns (r: Staging)
    requires Valid(s) && DistinctIndices(s.tiles) && t in s.tiles
    ensures RemoveOne(s, t) == Ok(r)
    ensures Valid(r) && DistinctIndices(r.tiles)
    ensures multiset(r.tiles) + multiset{t} == multiset(s.tiles)
    ensures r.capacity == s.capacity && r.required == s.required
  {
    var k :| 0 <= k < |s.tiles| && s.tiles[k] == t;
    r := Lift(s, k);
    RemoveOneAt(s, k);
    DropDistinct(s.tiles, k);
  }

  /** Removing the tile of slot `k` lifts that slot. */
  lemma RemoveOneAt(s: Staging, k: int)
    requires Valid(s) && DistinctIndices(s.tiles) && 0 <= k < |s.tiles|
    ensures RemoveOne(s, s.tiles[k]) == Ok(Lift(s, k))
    ensures Lift(s, k).tiles == s.tiles[..k] + s.tiles[k + 1..]
  {
    FindDistinct(s.tiles, k);
    DropTallies(s.counter, s.tiles, k);
  }

  /** With distinct indices, a tile's index finds that tile. */
  lemma FindDistinct(ts: seq<Tile>, k: int)
    requires DistinctIndices(ts) && 0 <= k < |ts|
    ensures Find(ts, ts[k].index) == k
  {
  }

  /** Dropping a tile keeps indices distinct. */
  lemma DropDistinct(ts: seq<Tile>, k: int)
    requires DistinctIndices(ts) && 0 <= k < |ts|
    ensures DistinctIndices(ts[..k] + ts[k + 1..])
  {
    var us := ts[..k] + ts[k + 1..];
    forall i | 0 <= i < |us| ensures us[i] == ts[if i < k then i else i + 1] {
    }
  }

  /** `Remove`: each tile of the group in turn; the first fault ends it. */
  function Remove(s: Staging, ts: seq<Tile>): Result<Staging>
    decreases |ts|
  {
    if ts == [] then Ok(s)
    else
      var s' :- RemoveOne(s, ts[0]);
      Remove(s', ts[1..])
  }

  /** Removing a group of staged tiles succeeds, keeps the invariant and takes out exactly
      the group. */
  lemma {:induction false} RemoveMeans(s: Staging, ts: seq<Tile>) returns (r: Staging)
    requires Valid(s) && DistinctIndices(s.tiles) && multiset(ts) <= multiset(s.tiles)
    ensures Remove(s, ts) == Ok(r)
    ensures Valid(r) && DistinctIndices(r.tiles)
    ensures multiset(r.tiles) + multiset(ts) == multiset(s.tiles)
    ensures r.capacity == s.capacity && r.required == s.required
    decreases |ts|
  {
    if ts == [] {
      r := s;
    } else {
      var t := ts[0];
      var rest := ts[1..];
      assert multiset(ts) == multiset(rest) + multiset{t} by {
        assert ts == [t] + rest;
      }
      assert t in s.tiles by {
        assert t in multiset(s.tiles);
      }
      var s' := RemoveOneMeans(s, t);
      assert multiset(rest) <= multiset(s'.tiles) by {
        CancelWithin(multiset(rest), multiset(s'.tiles), t);
      }
      r := RemoveMeans(s', rest);
      assert Remove(s, ts) == Remove(s', rest);
    }
  }

  /** One common element cancels from both sides of a bag inclusion. */
  lemma CancelWithin<T>(x: multiset<T>, y: multiset<T>, t: T)
    requires x + multiset{t} <= y + multiset{t}
    ensures x <= y
  {
    forall o ensures x[o] <= y[o] {
      assert (x + multiset{t})[o] == x[o] + multiset{t}[o];
      assert (y + multiset{t})[o] == y[o] + multiset{t}[o];
    }
  }

  /** `Restore`: each tile in turn moves to the staging zone and is appended and counted;
      a debug build throws when the area is already full. */
  function Restore(s: Staging, ts: seq<Tile>): (r: Result<Staging>)
    ensures r.Ok? <==> ts == [] || |s.tiles| + |ts| <= s.capacity
    ensures r.Fail? ==> r.fault == InvalidOperation
    ensures r.Ok? ==> r.value.tiles == s.tiles + InZone(ts, StagingZone)
    ensures r.Ok? ==> r.value.capacity == s.capacity && r.value.required == s.required
    ensures r.Ok? && Valid(s) ==> Valid(r.value)
    decreases |ts|
  {
    if ts == [] then
      assert s.tiles + InZone(ts, StagingZone) == s.tiles;
      Ok(s)
    else if IsFull(s) then Fail(InvalidOperation)
    else
      var s' := TryAdd(s, ts[0]).1;
      var r := Restore(s', ts[1..]);
      RestoreStep(s, ts, s', r);
      r
  }

  /** One tile staged ahead of the rest of a restore. */
  lemma RestoreStep(s: Staging, ts: seq<Tile>, s': Staging, r: Result<Staging>)
    requires ts != [] && |s.tiles| < s.capacity
    requires s'.tiles == s.tiles + [SetZone(ts[0], StagingZone)]
    requires s'.capacity == s.capacity && s'.required == s.required && (Valid(s) ==> Valid(s'))
    requires r.Ok? <==> ts[1..] == [] || |s'.tiles| + |ts[1..]| <= s'.capacity
    requires r.Fail? ==> r.fault == InvalidOperation
    requires r.Ok? ==> r.value.tiles == s'.tiles + InZone(ts[1..], StagingZone)
    requires r.Ok? ==> r.value.capacity == s'.capacity && r.value.required == s'.required
    requires r.Ok? && Valid(s') ==> Valid(r.value)
    ensures r.Ok? <==> ts == [] || |s.tiles| + |ts| <= s.capacity
    ensures r.Ok? ==> r.value.tiles == s.tiles + InZone(ts, StagingZone)
    ensures r.Ok? ==> r.value.capacity == s.capacity && r.value.required == s.required
    ensures r.Ok? && Valid(s) ==> Valid(r.value)
  {
    var u, rest := SetZone(ts[0], StagingZone), InZone(ts[1..], StagingZone);
    assert InZone(ts, StagingZone) == [u] + rest;
    Associative(s.tiles, [u], rest);
  }

  /** `Unstage`: the first staged tile with the index leaves its slot and its colour is
      uncounted; no such tile, nothing changes. */
  function Unstage(s: Staging, index: int): (r: (Option<Tile>, Staging))
    requires Valid(s)
    ensures r.0.None? <==> Fresh(s.tiles, index)
    ensures r.0.None? ==> r.1 == s
    ensures r.0.Some? ==> r.0.value.index == index && r.0.value in s.tiles
    ensures r.0.Some? ==> multiset(r.1.tiles) + multiset{r.0.value} == multiset(s.tiles)
    ensures Valid(r.1) && r.1.capacity == s.capacity && r.1.required == s.required
  {
    var k := Find(s.tiles, index);
    if k == -1 then (None, s) else (Some(s.tiles[k]), Lift(s, k))
  }

  /** Undoing a stage: `TryAdd` of a tile with a new index, then `Unstage` of that index,
      gives back the staged tile and the area exactly as it was. */
  lemma TryAddThenUnstage(s: Staging, t: Tile)
    requires Valid(s) && CanAccept(s) && Fresh(s.tiles, t.index)
    ensures Unstage(TryAdd(s, t).1, t.index) == (Some(SetZone(t, StagingZone)), s)
  {
    var s' := TryAdd(s, t).1;
    var u := SetZone(t, StagingZone);
    assert Find(s'.tiles, t.index) == |s.tiles| by {
      FindLast(s.tiles, u);
    }
    assert s'.tiles[..|s.tiles|] + s'.tiles[|s.tiles| + 1..] == s.tiles;
    assert t.color in s.counter ==> s.counter[t.color] != 0;
    DecInc(s.counter, t.color);
  }

  /** A tile appended after tiles with other indices is found last. */
  lemma FindLast(ts: seq<Tile>, u: Tile)
    requires Fresh(ts, u.index)
    ensures Find(ts + [u], u.index) == |ts|
  {
    assert (ts + [u])[|ts|] == u;
    assert forall i | 0 <= i < |ts| :: (ts + [u])[i] == ts[i];
  }

  /** The undo of a move: removing a group of staged tiles and restoring it gives back the
      same tiles (the group now in the last slots) and exactly the same counter. */
  lemma RemoveThenRestore(s: Staging, ts: seq<Tile>)
    requires Valid(s) && DistinctIndices(s.tiles) && multiset(ts) <= multiset(s.tiles)
    ensures Remove(s, ts).Ok? && Restore(Remove(s, ts).value, ts).Ok?
    ensures var r := Restore(Remove(s, ts).value, ts).value;
      && Valid(r)
      && r.tiles == Remove(s, ts).value.tiles + ts
      && multiset(r.tiles) == multiset(s.tiles)
      && r.counter == s.counter
      && r.capacity == s.capacity && r.required == s.required
  {
    var s1 := RemoveMeans(s, ts);
    assert |s1.tiles| + |ts| == |s.tiles| by {
      assert |multiset(s1.tiles) + multiset(ts)| == |multiset(s.tiles)|;
    }
    assert InZone(ts, StagingZone) == ts by {
      StagedWithin(ts, s.tiles);
    }
    var r := Restore(s1, ts).value;
    assert multiset(r.tiles) == multiset(s.tiles) by {
      assert r.tiles == s1.tiles + ts;
    }
    assert ColorsOf(r.tiles) == ColorsOf(s.tiles) by {
      ColorsOfMultiset(r.tiles, s.tiles);
    }
    TallyOfUnique(r.counter, s.counter, ColorsOf(s.tiles));
  }

  /** Tiles taken from a staged list are staged, so moving them to the staging zone is
      no change. */
  lemma StagedWithin(ts: seq<Tile>, us: seq<Tile>)
    requires Staged(us) && multiset(ts) <= multiset(us)
    ensures InZone(ts, StagingZone) == ts
  {
    forall i | 0 <= i < |ts| ensures ts[i].zone == StagingZone {
      assert ts[i] in multiset(us) by {
        assert ts[i] in multiset(ts);
      }
    }
  }

  /** Resolving a completed colour and removing its group clears that colour from the
      counter and leaves every other colour's count as it was. */
  lemma ResolveThenRemove(s: Staging, color: int) returns (g: seq<Tile>, r: Staging)
    requires Valid(s) && DistinctIndices(s.tiles) && HasMatchCompleted(s, color)
    ensures TryResolve(s, color) == Some(g) && g == ByColor(s.tiles, color)
    ensures |g| >= s.required && Remove(s, g) == Ok(r)
    ensures Valid(r) && DistinctIndices(r.tiles)
    ensures multiset(r.tiles) + multiset(g) == multiset(s.tiles)
    ensures r.capacity == s.capacity && r.required == s.required
    ensures color !in r.counter
    ensures forall d | d != color ::
      && (d in r.counter <==> d in s.counter)
      && (d in s.counter ==> r.counter[d] == s.counter[d])
  {
    g := ByColor(s.tiles, color);
    assert TryResolve(s, color) == Some(g) && |g| >= s.required by {
      TryResolveMeans(s, color);
      HasMatchMeans(s, color);
    }
    assert multiset(g) <= multiset(s.tiles) && forall t | t in g :: t.color == color by {
      ByColorWithin(s.tiles, color);
    }
    r := RemoveMeans(s, g);
    var rest := ColorsOf(r.tiles);
    assert ColorsOf(s.tiles) == rest + multiset{}[color := |g|] by {
      ColorsOfMultiset(s.tiles, r.tiles + g);
      ColorsOfAppend(r.tiles, g);
      SameColor(g, color);
    }
    assert rest[color] == 0;
    TalliesRemoveAll(s.counter, r.counter, rest, color, |g|);
  }

  /** The colours of a list of tiles of one colour. */
  lemma SameColor(g: seq<Tile>, color: int)
    requires forall t | t in g :: t.color == color
    ensures ColorsOf(g) == multiset{}[color := |g|]
  {
    var cs := ColorSeq(g);
    forall i | 0 <= i < |cs| ensures cs[i] == color {
      assert g[i] in g;
    }
    Constant(cs, color);
  }

  /** A list with one value throughout holds it `|cs|` times. */
  lemma {:induction false} Constant(cs: seq<int>, c: int)
    requires forall i | 0 <= i < |cs| :: cs[i] == c
    ensures multiset(cs) == multiset{}[c := |cs|]
    decreases |cs|
  {
    if cs != [] {
      var init := cs[..|cs| - 1];
      assert cs == init + [c];
      Constant(init, c);
    }
  }
}
