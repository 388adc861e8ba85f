/** The corral: the tiles of completed matches, kept in collection order so that an undo
    can hand back the most recent ones, with a counter per colour. */
module Corrals {
  import opened Outcomes
  import opened Tiles
  import opened Counters

  datatype Corral = Corral(tiles: seq<Tile>, counter: map<int, int>)

  predicate Collected(ts: seq<Tile>) {
    forall i | 0 <= i < |ts| :: ts[i].zone == CorralZone
  }

  /** The counter tallies the colours and every tile is in the corral zone. */
  ghost predicate Valid(c: Corral) {
    Tallies(c.counter, ColorsOf(c.tiles)) && Collected(c.tiles)
  }

  function NewCorral(): (r: Corral)
    ensures Valid(r) && r.tiles == []
  {
    EmptyTallies<int>();
    Corral([], map[])
  }

  function TotalCount(c: Corral): int {
    |c.tiles|
  }

  /** `Add`: the tile moves to the corral zone, goes last and its colour is counted. */
  function Add(c: Corral, t: Tile): (r: Corral)
    ensures r.tiles == c.tiles + [SetZone(t, CorralZone)]
  {
    Corral(c.tiles + [SetZone(t, CorralZone)], Inc(c.counter, t.color))
  }

  lemma AddValid(c: Corral, t: Tile)
    requires Valid(c)
    ensures Valid(Add(c, t))
  {
    var u := SetZone(t, CorralZone);
    AppendTallies(c.counter, c.tiles, u);
    assert forall i | 0 <= i < |c.tiles| :: (c.tiles + [u])[i] == c.tiles[i];
  }

  /** `Accept`: `Add` for each tile in turn. */
  function Accept(c: Corral, ts: seq<Tile>): (r: Corral)
    ensures r.tiles == c.tiles + InZone(ts, CorralZone)
    decreases |ts|
  {
    if ts == [] then
      assert c.tiles + InZone(ts, CorralZone) == c.tiles;
      c
    else
      assert InZone(ts, CorralZone) == [SetZone(ts[0], CorralZone)] + InZone(ts[1..], CorralZone);
      Accept(Add(c, ts[0]), ts[1..])
  }

  /** Accepting keeps the counter a tally of the collected colours. */
  lemma {:induction false} AcceptValid(c: Corral, ts: seq<Tile>)
    requires Valid(c)
    ensures Valid(Accept(c, ts))
    decreases |ts|
  {
    if ts != [] {
      AddValid(c, ts[0]);
      AcceptValid(Add(c, ts[0]), ts[1..]);
    }
  }

  /** The list back to front. */
  function Reverse<T>(s: seq<T>): (r: seq<T>)
    ensures |r| == |s| && forall i | 0 <= i < |s| :: r[i] == s[|s| - 1 - i]
  {
    seq(|s|, i requires 0 <= i < |s| => s[|s| - 1 - i])
  }

  /** The last element comes first. */
  lemma ReverseLast<T>(s: seq<T>)
    requires s != []
    ensures Reverse(s) == [s[|s| - 1]] + Reverse(s[..|s| - 1])
  {
  }

  /** The corral with its last tile popped and uncounted. */
  function Pop(c: Corral): (r: Corral)
    requires Valid(c) && c.tiles != []
    ensures Valid(r) && r.tiles == c.tiles[..|c.tiles| - 1]
  {
    var last := |c.tiles| - 1;
    assert c.tiles[last].color in c.counter && Tallies(Dec(c.counter, c.tiles[last].color), ColorsOf(c.tiles[..last])) by {
      DropTallies(c.counter, c.tiles, last);
      assert c.tiles[..last] + c.tiles[last + 1..] == c.tiles[..last];
    }
    assert Collected(c.tiles[..last]) by {
      assert forall j | 0 <= j < last :: c.tiles[..last][j] == c.tiles[j];
    }
    Corral(c.tiles[..last], Dec(c.counter, c.tiles[last].color))
  }

  /** The loop of `Retrieve`, `n` turns: the last tile is popped, uncounted and added to
      the result, so the result lists the tiles most recent first. */
  function Take(c: Corral, n: nat): (r: (seq<Tile>, Corral))
    requires Valid(c) && n <= |c.tiles|
    ensures r.0 == Reverse(c.tiles[|c.tiles| - n..])
    ensures r.1.tiles == c.tiles[..|c.tiles| - n] && Valid(r.1)
    decreases n
  {
    var len := |c.tiles|;
    if n == 0 then
      assert c.tiles[..len] == c.tiles && c.tiles[len..] == [];
      ([], c)
    else
      var t := c.tiles[len - 1];
      var p := Pop(c);
      var (rest, c') := Take(p, n - 1);
      assert p.tiles[..|p.tiles| - (n - 1)] == c.tiles[..len - n];
      assert [t] + rest == Reverse(c.tiles[len - n..]) by {
        var back := c.tiles[len - n..];
        ReverseLast(back);
        assert p.tiles[|p.tiles| - (n - 1)..] == back[..|back| - 1];
      }
      ([t] + rest, c')
  }

  /** `Retrieve`: nothing for a count of zero or less; a count above the total throws
      (`ArgumentOutOfRangeException`, from the debug check or from the list indexer);
      otherwise the last `count` tiles, most recent first, and the corral without them. */
  function Retrieve(c: Corral, count: int): (r: Result<(seq<Tile>, Corral)>)
    requires Valid(c)
    ensures count <= 0 ==> r == Ok(([], c))
    ensures count > |c.tiles| ==> r == Fail(ArgumentOutOfRange)
    ensures 0 < count <= |c.tiles| ==> r.Ok? && r.value.0 == Reverse(c.tiles[|c.tiles| - count..])
    ensures 0 < count <= |c.tiles| ==> r.Ok? && r.value.1.tiles == c.tiles[..|c.tiles| - count] && Valid(r.value.1)
  {
    if count <= 0 then Ok(([], c))
    else if count > |c.tiles| then Fail(ArgumentOutOfRange)
    else Ok(Take(c, count))
  }

  /** `HasCompletedColor`: the colour is collected, at least `required` times. */
  predicate HasCompletedColor(c: Corral, color: int, required: int) {
    color in c.counter && c.counter[color] >= required
  }

  lemma HasCompletedColorMeans(c: Corral, color: int, required: int)
    requires Valid(c)
    ensures HasCompletedColor(c, color, required) <==>
      ColorsOf(c.tiles)[color] > 0 && ColorsOf(c.tiles)[color] >= required
  {
  }

  /** `IsAllCollected`: the corral holds at least the given number of tiles. */
  predicate IsAllCollected(c: Corral, totalTileCount: int) {
    |c.tiles| >= totalTileCount
  }

  /** The tile count is the size of the colour bag the counter tallies, and accepting a group
      counts every one of its tiles towards `IsAllCollected`. */
  lemma IsAllCollectedMeans(c: Corral, ts: seq<Tile>, totalTileCount: int)
    ensures TotalCount(c) == |ColorsOf(c.tiles)|
    ensures IsAllCollected(c, totalTileCount) <==> |ColorsOf(c.tiles)| >= totalTileCount
    ensures IsAllCollected(Accept(c, ts), totalTileCount) <==> |c.tiles| + |ts| >= totalTileCount
  {
  }

  /** `GetTilesByColorSnapshot`: each collected colour with its tiles in collection order. */
  function Snapshot(c: Corral): map<int, seq<Tile>> {
    map color | color in ColorSeq(c.tiles) :: ByColor(c.tiles, color)
  }

  /** The snapshot has exactly the counted colours, each with as many tiles as counted,
      all of that colour and all in the corral. */
  lemma SnapshotMeans(c: Corral)
    requires Valid(c)
    ensures Snapshot(c).Keys == c.counter.Keys
    ensures forall color | color in Snapshot(c) :: |Snapshot(c)[color]| == c.counter[color]
    ensures forall color, t | color in Snapshot(c) && t in Snapshot(c)[color] :: t.color == color && t in c.tiles
  {
    forall color ensures color in ColorSeq(c.tiles) <==> color in c.counter {
      assert color in ColorSeq(c.tiles) <==> color in ColorsOf(c.tiles);
    }
    forall color | color in Snapshot(c) ensures forall t | t in Snapshot(c)[color] :: t.color == color && t in c.tiles {
      ByColorWithin(c.tiles, color);
    }
  }

  /** Undoing a collection: accepting a group and retrieving as many tiles hands the group
      back in reverse order, moved to the corral zone, and leaves the corral as it was. */
  lemma AcceptThenRetrieve(c: Corral, ts: seq<Tile>)
    requires Valid(c)
    ensures Valid(Accept(c, ts))
    ensures Retrieve(Accept(c, ts), |ts|) == Ok((Reverse(InZone(ts, CorralZone)), c))
  {
    AcceptValid(c, ts);
    if ts != [] {
      var a := Accept(c, ts);
      var (out, rest) := Retrieve(a, |ts|).value;
      assert a.tiles[|a.tiles| - |ts|..] == InZone(ts, CorralZone);
      assert rest.tiles == c.tiles;
      AcceptValid(c, ts);
      TallyOfUnique(rest.counter, c.counter, ColorsOf(c.tiles));
    }
  }

  /** ... and the other way round: accepting the retrieved tiles, oldest first, rebuilds
      the corral exactly. */
  lemma RetrieveThenAccept(c: Corral, n: int)
    requires Valid(c) && 0 <= n <= |c.tiles|
    ensures Retrieve(c, n).Ok?
    ensures Accept(Retrieve(c, n).value.1, Reverse(Retrieve(c, n).value.0)) == c
  {
    var (out, rest) := Retrieve(c, n).value;
    var back := c.tiles[|c.tiles| - n..];
    assert Reverse(out) == back by {
      if n > 0 {
        ReverseTwice(back);
      }
    }
    assert Accept(rest, back) == c by {
      assert rest.tiles + back == c.tiles && Valid(rest);
      CollectedSuffix(c.tiles, |c.tiles| - n);
      AcceptRebuilds(rest, back, c);
    }
  }

  lemma CollectedSuffix(ts: seq<Tile>, k: int)
    requires Collected(ts) && 0 <= k <= |ts|
    ensures Collected(ts[k..])
  {
    assert forall i | 0 <= i < |ts| - k :: ts[k..][i] == ts[k + i];
  }

  /** Accepting tiles already in the corral zone onto a valid prefix of a valid corral
      gives that corral. */
  lemma AcceptRebuilds(rest: Corral, back: seq<Tile>, c: Corral)
    requires Valid(rest) && Valid(c) && Collected(back) && rest.tiles + back == c.tiles
    ensures Accept(rest, back) == c
  {
    assert InZone(back, CorralZone) == back;
    var a := Accept(rest, back);
    AcceptValid(rest, back);
    TallyOfUnique(a.counter, c.counter, ColorsOf(c.tiles));
  }

  /** Reversing keeps the elements. */
  lemma {:induction false} ReverseMultiset<T>(s: seq<T>)
    ensures multiset(Reverse(s)) == multiset(s)
    decreases |s|
  {
    if s != [] {
      ReverseLast(s);
      ReverseMultiset(s[..|s| - 1]);
      assert s == s[..|s| - 1] + [s[|s| - 1]];
    }
  }

  lemma ReverseTwice<T>(s: seq<T>)
    ensures Reverse(Reverse(s)) == s
  {
    assert forall i | 0 <= i < |s| :: Reverse(Reverse(s))[i] == Reverse(s)[|s| - 1 - i];
  }
}
