/** `Level.GetLogicBehaviours3`: for every colour, the clears that the unlocked tiles allow
    (EASY_CLEAR), and the clears that first uncover tiles of the colour lying under an unlocked
    one (HARD_CLEAR), found by advancing a Fixed / Selectable / Expanded context. */
module Enumeration {
  import opened Bits
  import opened Masks
  import opened Gosper
  import opened Sparse
  import opened Clears
  import opened Outcomes
  import opened Tiles
  import opened Pastures
  import opened PastureReveal
  import opened StagingAreas
  import opened Behaviours

  /** `FullMask(n)`: the `n` low bits, all 64 from `n = 64` on. Below zero, C# reduces the
      shift count modulo 64. */
  function FullMask(n: int): (r: nat)
    ensures r < WordLimit
    ensures n >= 0 ==> Pop(r) == Min(n, Width)
    ensures n >= 0 ==> forall i: nat :: Bit(r, i) <==> i < n && i < Width
  {
    var w := if n >= Width then Width else n % Width;
    OnesMeaning(w);
    Pow2Monotone(w, Width);
    Ones(w)
  }

  /** The indices of the tiles `ts` whose bit is set in `mask`, bit `i + j` standing for
      `ts[j]`, in list order; a shift by 64 or more is reduced modulo 64 as in C#. */
  function Selected(ts: seq<Tile>, mask: nat, i: nat): (r: seq<int>)
    ensures |r| <= |ts|
  {
    if ts == [] then []
    else (if Bit(mask, i % Width) then [ts[0].index] else []) + Selected(ts[1..], mask, i + 1)
  }

  /** Tile `ts[j]` has its bit, `i + j`, set. */
  ghost predicate Chosen(ts: seq<Tile>, mask: nat, i: nat, x: int) {
    exists j {:trigger ts[j]} | 0 <= j < |ts| :: ts[j].index == x && Bit(mask, i + j)
  }

  /** Within one word, the tiles selected are those whose bit is set. */
  lemma {:induction false} SelectedMembers(ts: seq<Tile>, mask: nat, i: nat, x: int)
    requires i + |ts| <= Width
    ensures x in Selected(ts, mask, i) <==> Chosen(ts, mask, i, x)
    decreases |ts|
  {
    if ts != [] {
      var rest := ts[1..];
      SelectedMembers(rest, mask, i + 1, x);
      assert i % Width == i;
      var head := if Bit(mask, i) then [ts[0].index] else [];
      assert Selected(ts, mask, i) == head + Selected(rest, mask, i + 1);
      ChosenSplit(ts, mask, i, x);
    }
  }

  /** The first tile is chosen by bit `i`, the others as the rest from bit `i + 1`. */
  lemma ChosenSplit(ts: seq<Tile>, mask: nat, i: nat, x: int)
    requires ts != [] && i + |ts| <= Width
    ensures Chosen(ts, mask, i, x) <==> (ts[0].index == x && Bit(mask, i)) || Chosen(ts[1..], mask, i + 1, x)
  {
    if Chosen(ts[1..], mask, i + 1, x) {
      ChosenLater(ts, mask, i, x);
    }
    if ts[0].index == x && Bit(mask, i) {
      ChosenAt(ts, mask, i, x, 0);
    }
    if Chosen(ts, mask, i, x) {
      ChosenCases(ts, mask, i, x);
    }
  }

  /** A tile of the rest chosen from bit `i + 1` is chosen from bit `i`. */
  lemma ChosenLater(ts: seq<Tile>, mask: nat, i: nat, x: int)
    requires ts != [] && i + |ts| <= Width && Chosen(ts[1..], mask, i + 1, x)
    ensures Chosen(ts, mask, i, x)
  {
    var rest := ts[1..];
    var j :| 0 <= j < |rest| && rest[j].index == x && Bit(mask, i + 1 + j);
    var k := j + 1;
    assert i + k == i + 1 + j && ts[k] == rest[j];
    ChosenAt(ts, mask, i, x, k);
  }

  /** A chosen tile is the first one or one of the rest. */
  lemma ChosenCases(ts: seq<Tile>, mask: nat, i: nat, x: int)
    requires ts != [] && i + |ts| <= Width && Chosen(ts, mask, i, x)
    ensures (ts[0].index == x && Bit(mask, i)) || Chosen(ts[1..], mask, i + 1, x)
  {
    var j := ChosenWitness(ts, mask, i, x);
    if j > 0 {
      ChosenShift(ts, mask, i, x, j);
    }
  }

  /** A chosen tile past the first is chosen among the rest from bit `i + 1`. */
  lemma ChosenShift(ts: seq<Tile>, mask: nat, i: nat, x: int, j: nat)
    requires 0 < j < |ts| && ts[j].index == x && Bit(mask, i + j)
    ensures Chosen(ts[1..], mask, i + 1, x)
  {
    var k := j - 1;
    assert i + 1 + k == i + j && ts[1..][k] == ts[j];
    ChosenAt(ts[1..], mask, i + 1, x, k);
  }

  /** The position of a chosen tile. */
  lemma ChosenWitness(ts: seq<Tile>, mask: nat, i: nat, x: int) returns (j: nat)
    requires Chosen(ts, mask, i, x)
    ensures j < |ts| && ts[j].index == x && Bit(mask, i + j)
  {
    j :| 0 <= j < |ts| && ts[j].index == x && Bit(mask, i + j);
  }

  lemma ChosenAt(ts: seq<Tile>, mask: nat, i: nat, x: int, j: int)
    requires 0 <= j < |ts| && ts[j].index == x && Bit(mask, i + j)
    ensures Chosen(ts, mask, i, x)
  {
  }

  /** Within one word, one tile is selected per set bit. */
  lemma {:induction false} SelectedCount(ts: seq<Tile>, mask: nat, i: nat)
    requires i + |ts| <= Width && mask < Pow2(i + |ts|)
    ensures |Selected(ts, mask, i)| == Pop(Shr(mask, i))
    decreases |ts|
  {
    if ts == [] {
      ShrBelow(mask, i);
    } else {
      SelectedCount(ts[1..], mask, i + 1);
      assert i % Width == i;
      PopShr(mask, i);
    }
  }

  /** `n` zeros: the unwritten tail of an `int[]`. */
  function Zeros(n: nat): (r: seq<int>)
    ensures |r| == n && forall i | 0 <= i < n :: r[i] == 0
  {
    seq(n, _ => 0)
  }

  /** `ResolveTileIndexes(tiles, mask)`: an array of `PopCount(mask)` entries filled with the
      selected indices; one entry too many overruns it. */
  function ResolveTileIndexes(ts: seq<Tile>, mask: nat): Result<seq<int>> {
    var sel := Selected(ts, mask, 0);
    if |sel| > Pop(mask) then Fail(IndexOutOfRange)
    else Ok(sel + Zeros(Pop(mask) - |sel|))
  }

  /** For a pick among at most 64 tiles the array is filled exactly, with one index per
      picked tile. */
  lemma ResolveExact(ts: seq<Tile>, mask: nat)
    requires |ts| <= Width && Within(mask, FullMask(|ts|))
    ensures ResolveTileIndexes(ts, mask) == Ok(Selected(ts, mask, 0))
    ensures |Selected(ts, mask, 0)| == Pop(mask)
  {
    assert FullMask(|ts|) < Pow2(|ts|) by {
      OnesMeaning(|ts|);
      BelowPow2(FullMask(|ts|), |ts|);
    }
    WithinBelow(mask, FullMask(|ts|), |ts|);
    SelectedCount(ts, mask, 0);
    assert Selected(ts, mask, 0) + Zeros(0) == Selected(ts, mask, 0);
  }

  /** `AddByMask(src, mask, dst)`: the indices it appends. */
  function AddByMask(src: seq<Tile>, mask: nat): (r: seq<int>)
    ensures |r| <= |src|
  {
    if mask == 0 then [] else Selected(src, mask, 0)
  }

  /** The indices of a list of tiles. */
  function IndicesOf(ts: seq<Tile>): (r: seq<int>)
    ensures |r| == |ts| && forall i | 0 <= i < |ts| :: r[i] == ts[i].index
  {
    seq(|ts|, i requires 0 <= i < |ts| => ts[i].index)
  }

  /** Every bit of the full mask selects every tile, in order. */
  lemma {:induction false} SelectedAll(ts: seq<Tile>, mask: nat, i: nat)
    requires i + |ts| <= Width
    requires forall j: nat | i <= j < i + |ts| :: Bit(mask, j)
    ensures Selected(ts, mask, i) == IndicesOf(ts)
    decreases |ts|
  {
    if ts != [] {
      var rest := ts[1..];
      SelectedAll(rest, mask, i + 1);
      assert i % Width == i;
      assert Selected(ts, mask, i) == [ts[0].index] + Selected(rest, mask, i + 1);
      assert IndicesOf(ts) == [ts[0].index] + IndicesOf(rest);
    }
  }

  /** `HardClearContext`: the tiles fixed so far, those left selectable, and those just
      uncovered. */
  datatype Context = Context(fixed: seq<Tile>, selectable: seq<Tile>, expanded: seq<Tile>)

  /** `EmitHardClearPicks(ctx, need, emit)`: the picks, on masks over the three groups. */
  function HardPicks(ctx: Context, need: int): (r: seq<HardClearPick>)
    ensures forall p :: p in r <==>
      && need - |ctx.fixed| > 0
      && HardPick(FullMask(|ctx.fixed|), FullMask(|ctx.selectable|), FullMask(|ctx.expanded|), need - |ctx.fixed|, p)
  {
    var rest := need - |ctx.fixed|;
    if rest <= 0 then []
    else
      var e := FullMask(|ctx.expanded|);
      var s := FullMask(|ctx.selectable|);
      var f := FullMask(|ctx.fixed|);
      assert forall p | HardPick(f, s, e, rest, p) :: Pop(p.expand) <= |ctx.expanded| && Pop(p.expand) <= rest by {
        forall p | HardPick(f, s, e, rest, p) ensures Pop(p.expand) <= |ctx.expanded| && Pop(p.expand) <= rest {
          PopWithin(p.expand, e);
        }
      }
      if |ctx.expanded| == 0 then []
      else Rounds(f, s, e, rest, |ctx.selectable|, 1, Min(|ctx.expanded|, rest))
  }

  /** `EmitHardClearPicks(ctx, need, emit)` with `ChooseBits` as written. */
  function HardPicksAsWritten(ctx: Context, need: int): Result<seq<HardClearPick>> {
    var rest := need - |ctx.fixed|;
    if rest <= 0 || |ctx.expanded| == 0 then Ok([])
    else
      var e := FullMask(|ctx.expanded|);
      var s := FullMask(|ctx.selectable|);
      RoundsAsWritten(FullMask(|ctx.fixed|), s, e, rest, |ctx.selectable|, 1, Min(|ctx.expanded|, rest))
  }

  /** Below 64 expanded and 64 selectable tiles the source's hard picks are the intended
      ones. */
  lemma HardPicksAgree(ctx: Context, need: int)
    requires |ctx.expanded| < Width && |ctx.selectable| < Width
    ensures HardPicksAsWritten(ctx, need) == Ok(HardPicks(ctx, need))
  {
    var rest := need - |ctx.fixed|;
    if rest > 0 && |ctx.expanded| != 0 {
      var e := FullMask(|ctx.expanded|);
      var s := FullMask(|ctx.selectable|);
      RoundsAgree(FullMask(|ctx.fixed|), s, e, rest, |ctx.selectable|, 1, Min(|ctx.expanded|, rest));
    }
  }

  /** No fixed or selectable tiles, at least 64 expanded, one needed: the source finds no
      hard pick, though expanding the first tile alone is one. */
  lemma HardPicksMissFullWord(ctx: Context)
    requires ctx.fixed == [] && ctx.selectable == [] && |ctx.expanded| >= Width
    ensures HardPicksAsWritten(ctx, 1) == Ok([])
    ensures HardClearPick(0, Ones(1), 0) in HardPicks(ctx, 1)
  {
    var full := FullMask(|ctx.expanded|);
    FullMaskFull(|ctx.expanded|);
    HardPicksWrittenNone(ctx, full, 1);
    HardPicksFirst(ctx, full);
  }

  /** ... the source's side. */
  lemma HardPicksWrittenNone(ctx: Context, full: nat, need: int)
    requires ctx.fixed == [] && ctx.selectable == [] && |ctx.expanded| >= Width
    requires full == FullMask(|ctx.expanded|) && full == Ones(Width) && need == 1
    ensures HardPicksAsWritten(ctx, need) == Ok([])
  {
    var f, s := FullMask(|ctx.fixed|), FullMask(|ctx.selectable|);
    assert f == 0 && s == 0;
    HardPicksWrittenIs(ctx, need, f, s, full);
    RoundsMissFullWord(f, s, full, need - |ctx.fixed|, |ctx.selectable|, 1, Min(|ctx.expanded|, need - |ctx.fixed|));
  }

  /** The source's hard picks are its rounds over the three full masks. */
  lemma HardPicksWrittenIs(ctx: Context, need: int, f: nat, s: nat, e: nat)
    requires need - |ctx.fixed| > 0 && |ctx.expanded| > 0
    requires f == FullMask(|ctx.fixed|) && s == FullMask(|ctx.selectable|) && e == FullMask(|ctx.expanded|)
    ensures var rest := need - |ctx.fixed|;
      HardPicksAsWritten(ctx, need) == RoundsAsWritten(f, s, e, rest, |ctx.selectable|, 1, Min(|ctx.expanded|, rest))
  {
  }

  /** ... the intended side. */
  lemma HardPicksFirst(ctx: Context, full: nat)
    requires ctx.fixed == [] && ctx.selectable == [] && |ctx.expanded| >= Width
    requires full == FullMask(|ctx.expanded|) && full == Ones(Width)
    ensures HardClearPick(0, Ones(1), 0) in HardPicks(ctx, 1)
  {
    var f, s := FullMask(|ctx.fixed|), FullMask(|ctx.selectable|);
    assert f == 0 && s == 0;
    OnesBit(1, 0);
    forall j: nat | Bit(Ones(1), j) ensures Bit(full, j) {
      OnesBit(1, j);
      OnesBit(Width, j);
    }
    PopOnes(1);
    assert Within(0, 0);
    assert HardPick(f, s, full, 1, HardClearPick(0, Ones(1), 0));
  }

  /** `ResolveHardPickIndices(ctx, pick)`: fixed, then selectable, then expanded tiles. */
  function HardIndices(ctx: Context, pick: HardClearPick): seq<int> {
    AddByMask(ctx.fixed, pick.fixed) + AddByMask(ctx.selectable, pick.select) + AddByMask(ctx.expanded, pick.expand)
  }

  /** Within one word, the indices of a mask's tiles are one per set bit. */
  lemma AddByMaskCount(ts: seq<Tile>, mask: nat)
    requires |ts| <= Width && Within(mask, FullMask(|ts|))
    ensures |AddByMask(ts, mask)| == Pop(mask)
  {
    ResolveExact(ts, mask);
  }

  /** A hard pick over groups of at most 64 tiles lists every fixed tile first, then
      `need` tiles in all. */
  lemma HardIndicesMeans(ctx: Context, need: int, pick: HardClearPick)
    requires |ctx.fixed| <= Width && |ctx.selectable| <= Width && |ctx.expanded| <= Width
    requires pick in HardPicks(ctx, need)
    ensures |HardIndices(ctx, pick)| == need
    ensures HardIndices(ctx, pick)[..|ctx.fixed|] == IndicesOf(ctx.fixed)
  {
    var f := ctx.fixed;
    assert HardPick(FullMask(|f|), FullMask(|ctx.selectable|), FullMask(|ctx.expanded|), need - |f|, pick);
    var a := AddByMask(f, pick.fixed);
    var b := AddByMask(ctx.selectable, pick.select);
    var c := AddByMask(ctx.expanded, pick.expand);
    FixedPart(f);
    AddByMaskCount(ctx.selectable, pick.select);
    AddByMaskCount(ctx.expanded, pick.expand);
    assert HardIndices(ctx, pick) == a + b + c;
    assert (a + b + c)[..|a|] == a;
  }

  /** The full mask over the fixed tiles resolves to all of them, in order. */
  lemma FixedPart(f: seq<Tile>)
    requires |f| <= Width
    ensures AddByMask(f, FullMask(|f|)) == IndicesOf(f)
  {
    if f != [] {
      OnesMeaning(|f|);
      assert FullMask(|f|) != 0;
      SelectedAll(f, FullMask(|f|), 0);
    }
  }

  // ---------------------------------------------------------------- advancing

  /** The indices of the fixed tiles with `e` added: what the transitive lockers of a newly
      uncovered tile must be. */
  function Targets(fixed: seq<Tile>, e: Tile): set<int> {
    (set t | t in fixed :: t.index) + {e.index}
  }

  /** The board tiles named by `ks`, in order, of the colour `color` and whose transitive
      lockers are exactly `targets`. */
  function Sift(p: Pasture, color: int, targets: set<int>, ks: seq<int>): (r: seq<Tile>)
    ensures forall u :: u in r <==>
      u.index in ks && Lookup(p, u.index) == Some(u) && u.color == color && LockersOf(p, u, {}, true) == targets
  {
    if ks == [] then []
    else
      var rest := Sift(p, color, targets, ks[1..]);
      assert forall k | k in ks :: k == ks[0] || k in ks[1..];
      match Lookup(p, ks[0])
      case None => rest
      case Some(u) =>
        if u.color == color && LockersOf(p, u, {}, true) == targets then [u] + rest else rest
  }

  /** `GetExpandedSameColorSelectableTiles(e, ...)` with the predicate `AdvanceFSE` passes:
      the tiles just below `e`, in the order `Expand` finds them, of `e`'s colour and held
      down by exactly the fixed tiles and `e`. */
  function Expanded(p: Pasture, e: Tile, fixed: seq<Tile>): seq<Tile> {
    Sift(p, e.color, Targets(fixed, e), Hits(p.posTile, BelowCells(e, DefaultFootprint)))
  }

  /** The tiles `e` uncovers: on a cell below it, of its colour, and locked by the fixed
      tiles and `e` and nothing else. */
  lemma ExpandedMeans(p: Pasture, e: Tile, fixed: seq<Tile>, u: Tile)
    ensures u in Expanded(p, e, fixed) <==>
      && (exists c | c in BelowCells(e, DefaultFootprint) :: c in p.posTile && p.posTile[c] == u.index)
      && Lookup(p, u.index) == Some(u) && u.color == e.color && LockersOf(p, u, {}, true) == Targets(fixed, e)
  {
  }

  /** `AppendRange`'s skip: the tiles other than `e`. */
  function Without(ts: seq<Tile>, e: Tile): (r: seq<Tile>)
    ensures forall t :: t in r <==> t in ts && t.index != e.index
  {
    if ts == [] then []
    else
      var rest := Without(ts[1..], e);
      assert forall t | t in ts :: t == ts[0] || t in ts[1..];
      (if ts[0].index == e.index then [] else [ts[0]]) + rest
  }

  /** The context that expanding `e` leads to: `e` fixed, the other expanded tiles selectable. */
  function Next(ctx: Context, e: Tile, p: Pasture): Context {
    Context(ctx.fixed + [e], ctx.selectable + Without(ctx.expanded, e), Expanded(p, e, ctx.fixed))
  }

  /** The loop of `AdvanceFSE` over the expanded tiles `es`: each context it keeps fixes one
      more tile, one of `es`. */
  function Branches(ctx: Context, p: Pasture, es: seq<Tile>): (r: seq<Context>)
    ensures forall c | c in r ::
      |c.fixed| == |ctx.fixed| + 1 && c.fixed[..|ctx.fixed|] == ctx.fixed && c.fixed[|ctx.fixed|] in es
  {
    if es == [] then []
    else
      var rest := Branches(ctx, p, es[1..]);
      var c := Next(ctx, es[0], p);
      assert c.fixed[..|ctx.fixed|] == ctx.fixed;
      (if c.expanded == [] then [] else [c]) + rest
  }

  /** The contexts the loop keeps: one per tile of `es` that uncovers some tile. */
  lemma {:induction false} BranchesMeans(ctx: Context, p: Pasture, es: seq<Tile>, c: Context)
    ensures c in Branches(ctx, p, es) <==> exists e | e in es :: c == Next(ctx, e, p) && c.expanded != []
  {
    if es != [] {
      BranchesMeans(ctx, p, es[1..], c);
      assert forall e | e in es :: e == es[0] || e in es[1..];
    }
  }

  /** `AdvanceFSE(ctx, need, pasture)`: one context per expanded tile that uncovers tiles,
      none once the fixed tiles and one more would reach `need`. Each context fixes one more
      tile, one of the expanded ones. */
  function Advance(ctx: Context, need: int, p: Pasture): (r: seq<Context>)
    ensures |ctx.fixed| + 1 >= need || ctx.expanded == [] ==> r == []
    ensures forall c | c in r ::
      |c.fixed| == |ctx.fixed| + 1 && c.fixed[..|ctx.fixed|] == ctx.fixed && c.fixed[|ctx.fixed|] in ctx.expanded
  {
    if |ctx.fixed| + 1 >= need then []
    else if ctx.expanded == [] then []
    else Branches(ctx, p, ctx.expanded)
  }

  /** The contexts `AdvanceFSE` yields: for each expanded tile `e` that uncovers some tile,
      `e` joins the fixed tiles, the other expanded tiles join the selectable ones, and the
      tiles `e` uncovers are the new expanded ones. */
  lemma AdvanceMeans(ctx: Context, need: int, p: Pasture, c: Context)
    ensures c in Advance(ctx, need, p) <==>
      |ctx.fixed| + 1 < need && exists e | e in ctx.expanded :: c == Next(ctx, e, p) && c.expanded != []
  {
    BranchesMeans(ctx, p, ctx.expanded, c);
  }

  // ---------------------------------------------------------------- emitting

  /** The behaviour emitted for one hard pick of a context. */
  function HardBehaviour(color: int, c: Context, pick: HardClearPick): BehaviourMove {
    BehaviourMove(HardClear, color, HardIndices(c, pick))
  }

  /** The behaviours of one context's hard picks, in order. */
  function HardOf(color: int, c: Context, need: int): (r: seq<BehaviourMove>)
    ensures forall b :: b in r <==> exists pick | pick in HardPicks(c, need) :: b == HardBehaviour(color, c, pick)
  {
    var picks := HardPicks(c, need);
    var r := seq(|picks|, i requires 0 <= i < |picks| => HardBehaviour(color, c, picks[i]));
    assert forall pick | pick in picks :: HardBehaviour(color, c, pick) in r by {
      forall pick | pick in picks ensures HardBehaviour(color, c, pick) in r {
        var i :| 0 <= i < |picks| && picks[i] == pick;
        assert r[i] == HardBehaviour(color, c, pick);
      }
    }
    r
  }

  /** `b` is emitted for some context of `cs`. */
  ghost predicate FromSome(color: int, cs: set<Context>, need: int, b: BehaviourMove) {
    exists c | c in cs :: b in HardOf(color, c, need)
  }

  /** `EmitHardClearForColor(color, ctx, need, pasture, null)` over the contexts `cs`. */
  function Inner(color: int, cs: seq<Context>, need: int): (r: seq<BehaviourMove>)
    ensures forall b :: b in r <==> FromSome(color, (set c | c in cs), need, b)
  {
    if cs == [] then []
    else
      var here := HardOf(color, cs[0], need);
      var rest := Inner(color, cs[1..], need);
      assert (set c | c in cs) == {cs[0]} + (set c | c in cs[1..]);
      here + rest
  }

  /** `b` is emitted for a context of `cs` or for a context one of them advances to. */
  ghost predicate FromDeep(color: int, cs: seq<Context>, need: int, p: Pasture, b: BehaviourMove) {
    exists d | d in cs :: b in HardOf(color, d, need) || b in Inner(color, Advance(d, need, p), need)
  }

  /** The outer `EmitHardClearForColor` over the contexts `cs`: each context's picks, then,
      while a fixed tile can still be added, those of the contexts it advances to. */
  function Outer(color: int, cs: seq<Context>, need: int, p: Pasture): (r: seq<BehaviourMove>)
    ensures forall b :: b in r <==> FromDeep(color, cs, need, p, b)
  {
    if cs == [] then []
    else
      var here := HardOf(color, cs[0], need);
      var deeper := if |cs[0].fixed| + 1 < need then Inner(color, Advance(cs[0], need, p), need) else [];
      assert deeper == Inner(color, Advance(cs[0], need, p), need);
      var rest := Outer(color, cs[1..], need, p);
      OuterStep(color, cs, need, p, here + deeper, rest);
      here + deeper + rest
  }

  /** The first context's behaviours ahead of the rest's. */
  lemma OuterStep(color: int, cs: seq<Context>, need: int, p: Pasture, first: seq<BehaviourMove>, rest: seq<BehaviourMove>)
    requires cs != []
    requires first == HardOf(color, cs[0], need) + Inner(color, Advance(cs[0], need, p), need)
    requires forall b :: b in rest <==> FromDeep(color, cs[1..], need, p, b)
    ensures forall b :: b in first + rest <==> FromDeep(color, cs, need, p, b)
  {
    forall b ensures b in first + rest <==> FromDeep(color, cs, need, p, b) {
      if b in first {
        assert cs[0] in cs;
      } else if b in rest {
        var d :| d in cs[1..] && (b in HardOf(color, d, need) || b in Inner(color, Advance(d, need, p), need));
        assert d in cs;
      } else if FromDeep(color, cs, need, p, b) {
        var d :| d in cs && (b in HardOf(color, d, need) || b in Inner(color, Advance(d, need, p), need));
        assert false;
      }
    }
  }

  /** The hard clears of one colour: from the context with its unlocked tiles as expanded. */
  function HardClearsOf(color: int, tiles: seq<Tile>, need: int, p: Pasture): seq<BehaviourMove> {
    Outer(color, Advance(Context([], [], tiles), need, p), need, p)
  }

  /** A context reached from the unlocked tiles: advanced once, or twice. */
  ghost predicate Reached(tiles: seq<Tile>, need: int, p: Pasture, c: Context) {
    var first := Advance(Context([], [], tiles), need, p);
    c in first || exists d | d in first :: c in Advance(d, need, p)
  }

  /** The hard clears of a colour are exactly the hard picks of the contexts reached. */
  lemma HardClearsExact(color: int, tiles: seq<Tile>, need: int, p: Pasture, b: BehaviourMove)
    ensures b in HardClearsOf(color, tiles, need, p) <==>
      exists c | Reached(tiles, need, p, c) :: b in HardOf(color, c, need)
  {
    var first := Advance(Context([], [], tiles), need, p);
    if b in HardClearsOf(color, tiles, need, p) {
      var d :| d in first && (b in HardOf(color, d, need) || b in Inner(color, Advance(d, need, p), need));
      if b in HardOf(color, d, need) {
        assert Reached(tiles, need, p, d);
      } else {
        var c :| c in Advance(d, need, p) && b in HardOf(color, c, need);
        assert Reached(tiles, need, p, c);
      }
    }
    if c :| Reached(tiles, need, p, c) && b in HardOf(color, c, need) {
      if c in first {
        assert FromDeep(color, first, need, p, b);
      } else {
        var d :| d in first && c in Advance(d, need, p);
        assert b in Inner(color, Advance(d, need, p), need);
        assert FromDeep(color, first, need, p, b);
      }
    }
  }

  /** One advance fixes one more tile, keeps the first one, and stays below `need`. */
  lemma AdvanceStep(ctx: Context, need: int, p: Pasture, c: Context)
    requires c in Advance(ctx, need, p)
    ensures |c.fixed| == |ctx.fixed| + 1 && |c.fixed| < need
    ensures ctx.fixed != [] ==> c.fixed[0] == ctx.fixed[0]
    ensures ctx.fixed == [] ==> c.fixed[0] in ctx.expanded
  {
    if ctx.fixed != [] {
      assert c.fixed[0] == c.fixed[..|ctx.fixed|][0];
    }
  }

  /** The search stops at two fixed tiles: every context reached has one or two, the first
      one of the colour's unlocked tiles, and fewer than `need`. */
  lemma ReachedDepth(tiles: seq<Tile>, need: int, p: Pasture, c: Context)
    requires Reached(tiles, need, p, c)
    ensures |c.fixed| == 1 || |c.fixed| == 2
    ensures |c.fixed| < need && c.fixed[0] in tiles
  {
    var c0 := Context([], [], tiles);
    var first := Advance(c0, need, p);
    if c in first {
      AdvanceStep(c0, need, p, c);
    } else {
      var d :| d in first && c in Advance(d, need, p);
      AdvanceStep(c0, need, p, d);
      AdvanceStep(d, need, p, c);
    }
  }

  /** Every hard clear is a HARD_CLEAR behaviour of the colour. */
  lemma HardClearsKind(color: int, tiles: seq<Tile>, need: int, p: Pasture, b: BehaviourMove)
    requires b in HardClearsOf(color, tiles, need, p)
    ensures b.kind == HardClear && b.color == color
  {
    HardClearsExact(color, tiles, need, p, b);
    var c :| Reached(tiles, need, p, c) && b in HardOf(color, c, need);
  }

  // ---------------------------------------------------------------- per colour

  /** `Level.MaxColorIndex`: the colours the per-colour tables hold. */
  const MaxColorIndex := 61

  /** `slotMap[color]`: the staged tiles of a colour, zero when none. */
  function Slot(counter: map<int, int>, color: int): int {
    if color in counter then counter[color] else 0
  }

  /** `clearNeedCount`: how many more tiles of the colour complete a match. */
  function NeedOf(s: Staging, color: int): int {
    s.required - Slot(s.counter, color)
  }

  /** A colour is searched when some unlocked tile has it and between one and `cap` more
      tiles complete its match. */
  predicate Eligible(p: Pasture, s: Staging, cap: int, color: int) {
    ByColor(p.unlocking, color) != [] && 0 < NeedOf(s, color) <= cap
  }

  /** `EmitSimpleClearForColor`: one EASY_CLEAR per pick, in order, with the picked tiles'
      indices; the first pick that overruns its index array ends the search. */
  function EasyOf(color: int, tiles: seq<Tile>, picks: seq<nat>): (r: Result<seq<BehaviourMove>>)
    ensures r.Ok? <==> forall y | y in picks :: ResolveTileIndexes(tiles, y).Ok?
    ensures r.Fail? ==> r.fault == IndexOutOfRange
    ensures r.Ok? ==> forall b :: b in r.value <==>
      exists y | y in picks && ResolveTileIndexes(tiles, y).Ok? ::
        b == BehaviourMove(EasyClear, color, ResolveTileIndexes(tiles, y).value)
  {
    if picks == [] then Ok([])
    else
      assert forall y | y in picks :: y == picks[0] || y in picks[1..];
      var ix :- ResolveTileIndexes(tiles, picks[0]);
      var rest :- EasyOf(color, tiles, picks[1..]);
      Ok([BehaviourMove(EasyClear, color, ix)] + rest)
  }

  /** `b` lists, in order, the indices of `need` of the tiles. */
  ghost predicate EasyClearOf(color: int, tiles: seq<Tile>, need: int, b: BehaviourMove) {
    exists y: nat | Within(y, FullMask(|tiles|)) && Pop(y) == need ::
      b == BehaviourMove(EasyClear, color, Selected(tiles, y, 0))
  }

  /** `EmitSimpleClearForColor(color, tiles, need)`. */
  function EasyClearsOf(color: int, tiles: seq<Tile>, need: int): Result<seq<BehaviourMove>> {
    EasyOf(color, tiles, SimpleClears(FullMask(|tiles|), need))
  }

  /** Among at most 64 tiles the easy clears are exactly the sets of `need` of them, each as
      its tiles' indices in list order. */
  lemma EasyExact(color: int, tiles: seq<Tile>, need: int, b: BehaviourMove)
    requires |tiles| <= Width
    ensures EasyClearsOf(color, tiles, need).Ok?
    ensures b in EasyClearsOf(color, tiles, need).value <==> EasyClearOf(color, tiles, need, b)
    ensures b in EasyClearsOf(color, tiles, need).value ==> |b.tileIndexes| == need
  {
    var picks := SimpleClears(FullMask(|tiles|), need);
    forall y | y in picks ensures ResolveTileIndexes(tiles, y) == Ok(Selected(tiles, y, 0)) && |Selected(tiles, y, 0)| == need {
      ResolveExact(tiles, y);
    }
    if EasyClearOf(color, tiles, need, b) {
      var y: nat :| Within(y, FullMask(|tiles|)) && Pop(y) == need && b == BehaviourMove(EasyClear, color, Selected(tiles, y, 0));
      assert y in picks;
    }
  }

  /** `EmitSimpleClearForColor(color, tiles, need)` with `ChooseBits` as written. */
  function EasyClearsAsWritten(color: int, tiles: seq<Tile>, need: int): Result<seq<BehaviourMove>> {
    var picks :- SimpleClearsAsWritten(FullMask(|tiles|), need);
    EasyOf(color, tiles, picks)
  }

  /** From 64 tiles on, the mask of all tiles is the full word. */
  lemma FullMaskFull(n: int)
    requires n >= Width
    ensures FullMask(n) == Ones(Width)
  {
  }

  /** Below 64 tiles the source's easy clears are the intended ones. */
  lemma EasyAgree(color: int, tiles: seq<Tile>, need: int)
    requires |tiles| < Width
    ensures EasyClearsAsWritten(color, tiles, need) == EasyClearsOf(color, tiles, need)
  {
    SimpleClearsAgree(FullMask(|tiles|), need);
  }

  /** From 64 tiles of a colour on, with fewer than 64 needed, the source emits no easy clear;
      at exactly 64 tiles the first `need` of them are one. */
  lemma EasyMissFullWord(color: int, tiles: seq<Tile>, need: int)
    requires |tiles| >= Width && 1 <= need < Width
    ensures EasyClearsAsWritten(color, tiles, need) == Ok([])
    ensures |tiles| == Width ==>
      && EasyClearsOf(color, tiles, need).Ok?
      && BehaviourMove(EasyClear, color, Selected(tiles, Ones(need), 0)) in EasyClearsOf(color, tiles, need).value
  {
    FullMaskFull(|tiles|);
    SimpleClearsMissFullWord(need);
    assert EasyOf(color, tiles, []) == Ok([]);
    if |tiles| == Width {
      var b := BehaviourMove(EasyClear, color, Selected(tiles, Ones(need), 0));
      assert Ones(need) in SimpleClears(FullMask(|tiles|), need);
      EasyExact(color, tiles, need, b);
    }
  }

  /** Exactly 64 tiles of a colour, all 64 needed: the source divides by zero, where the one
      clear of all of them is meant. */
  lemma EasyFaultOnFullWord(color: int, tiles: seq<Tile>)
    requires |tiles| == Width
    ensures EasyClearsAsWritten(color, tiles, Width) == Fail(DivideByZero)
    ensures EasyClearsOf(color, tiles, Width).Ok? &&
      BehaviourMove(EasyClear, color, Selected(tiles, Ones(Width), 0)) in EasyClearsOf(color, tiles, Width).value
  {
    FullMaskFull(|tiles|);
    SimpleClearsFaultOnFullWord();
    var b := BehaviourMove(EasyClear, color, Selected(tiles, Ones(Width), 0));
    assert Ones(Width) in SimpleClears(FullMask(|tiles|), Width);
    EasyExact(color, tiles, Width, b);
  }

  /** One pass of the per-colour loop: nothing for a colour that is not searched, else its
      easy clears and, from two tiles needed on, its hard clears. */
  function ForColor(p: Pasture, s: Staging, cap: int, color: int): (r: Result<seq<BehaviourMove>>)
    ensures !Eligible(p, s, cap, color) ==> r == Ok([])
    ensures r.Fail? ==> r.fault == IndexOutOfRange
    ensures r.Ok? ==> forall b | b in r.value ::
      && b.color == color && Eligible(p, s, cap, color)
      && (b.kind == EasyClear || (b.kind == HardClear && NeedOf(s, color) >= 2))
  {
    var tiles := ByColor(p.unlocking, color);
    if tiles == [] then Ok([])
    else
      var need := NeedOf(s, color);
      if need <= 0 || need > cap then Ok([])
      else
        var easy :- EasyClearsOf(color, tiles, need);
        var hard := if need < 2 then [] else HardClearsOf(color, tiles, need, p);
        assert forall b | b in hard :: b.kind == HardClear && b.color == color by {
          forall b | b in hard ensures b.kind == HardClear && b.color == color {
            HardClearsKind(color, tiles, need, p, b);
          }
        }
        Ok(easy + hard)
  }

  /** A searched colour with at most 64 unlocked tiles yields its easy clears, every set of
      `need` of its tiles, and, from two tiles needed on, its hard clears. */
  lemma ForColorExact(p: Pasture, s: Staging, cap: int, color: int, b: BehaviourMove)
    requires |ByColor(p.unlocking, color)| <= Width
    ensures ForColor(p, s, cap, color).Ok?
    ensures b in ForColor(p, s, cap, color).value <==>
      && Eligible(p, s, cap, color)
      && (|| EasyClearOf(color, ByColor(p.unlocking, color), NeedOf(s, color), b)
          || (NeedOf(s, color) >= 2 && b in HardClearsOf(color, ByColor(p.unlocking, color), NeedOf(s, color), p)))
  {
    if Eligible(p, s, cap, color) {
      var tiles := ByColor(p.unlocking, color);
      EasyExact(color, tiles, NeedOf(s, color), b);
      ForColorParts(p, s, cap, color);
    }
  }

  /** A searched colour's pass, once its easy clears succeed. */
  lemma ForColorParts(p: Pasture, s: Staging, cap: int, color: int)
    requires Eligible(p, s, cap, color)
    requires EasyClearsOf(color, ByColor(p.unlocking, color), NeedOf(s, color)).Ok?
    ensures ForColor(p, s, cap, color) == Ok(
      EasyClearsOf(color, ByColor(p.unlocking, color), NeedOf(s, color)).value
      + if NeedOf(s, color) < 2 then [] else HardClearsOf(color, ByColor(p.unlocking, color), NeedOf(s, color), p))
  {
  }

  /** The per-colour loop over the passes `rs`: their behaviours in order, or the first
      pass's fault. */
  function Collect(rs: seq<Result<seq<BehaviourMove>>>): (r: Result<seq<BehaviourMove>>)
    ensures r.Ok? <==> forall i | 0 <= i < |rs| :: rs[i].Ok?
    ensures r.Fail? ==> exists i | 0 <= i < |rs| :: rs[i] == r
    ensures r.Ok? ==> forall b :: b in r.value <==> exists i | 0 <= i < |rs| :: b in rs[i].value
  {
    if rs == [] then Ok([])
    else
      var rest := Collect(rs[1..]);
      assert forall i | 1 <= i < |rs| :: rs[i] == rs[1..][i - 1];
      var here :- rs[0];
      var tail :- rest;
      assert forall b | b in here :: b in rs[0].value;
      Ok(here + tail)
  }

  /** The passes for colours `0` to `MaxColorIndex`. */
  function Passes(p: Pasture, s: Staging, cap: int): (r: seq<Result<seq<BehaviourMove>>>)
    ensures |r| == MaxColorIndex + 1
  {
    seq(MaxColorIndex + 1, k => ForColor(p, s, cap, k))
  }

  /** `availableCapacity ?? StagingArea.AvailableCapacity`. */
  function Capacity(s: Staging, availableCapacity: Option<int>): int {
    if availableCapacity.Some? then availableCapacity.value else Available(s)
  }

  /** A colour the per-colour tables can hold. */
  predicate InTable(color: int) {
    0 <= color <= MaxColorIndex
  }

  /** `Level.GetLogicBehaviours3(availableCapacity)`: the behaviours found, or the fault that
      a staged or unlocked colour outside the tables raises. */
  function LogicBehaviours3(p: Pasture, s: Staging, availableCapacity: Option<int>): (r: Result<seq<BehaviourMove>>)
    ensures Capacity(s, availableCapacity) <= 0 ==> r == Ok([])
    ensures r.Fail? ==> r.fault == IndexOutOfRange
    ensures Capacity(s, availableCapacity) > 0 && (exists c | c in s.counter :: !InTable(c)) ==> r.Fail?
    ensures Capacity(s, availableCapacity) > 0 && (exists t | t in p.unlocking :: !InTable(t.color)) ==> r.Fail?
    ensures r.Ok? ==> forall b | b in r.value ::
      && InTable(b.color) && Eligible(p, s, Capacity(s, availableCapacity), b.color)
      && (b.kind == EasyClear || (b.kind == HardClear && NeedOf(s, b.color) >= 2))
  {
    var cap := Capacity(s, availableCapacity);
    if cap <= 0 then Ok([])
    else if exists c | c in s.counter :: !InTable(c) then Fail(IndexOutOfRange)
    else if exists t | t in p.unlocking :: !InTable(t.color) then Fail(IndexOutOfRange)
    else
      var r := Collect(Passes(p, s, cap));
      assert forall k | 0 <= k < |Passes(p, s, cap)| :: Passes(p, s, cap)[k] == ForColor(p, s, cap, k);
      r
  }

  /** With room left, every staged and unlocked colour in the tables, and at most 64 unlocked
      tiles of each colour, the search succeeds and finds, over all colours, exactly the
      clears of each searched colour. */
  lemma LogicBehavioursExact(p: Pasture, s: Staging, availableCapacity: Option<int>, b: BehaviourMove)
    requires Capacity(s, availableCapacity) > 0
    requires forall c | c in s.counter :: InTable(c)
    requires forall t | t in p.unlocking :: InTable(t.color)
    requires forall color | InTable(color) :: |ByColor(p.unlocking, color)| <= Width
    ensures LogicBehaviours3(p, s, availableCapacity).Ok?
    ensures b in LogicBehaviours3(p, s, availableCapacity).value <==>
      exists color | InTable(color) && ForColor(p, s, Capacity(s, availableCapacity), color).Ok? ::
        b in ForColor(p, s, Capacity(s, availableCapacity), color).value
  {
    var cap := Capacity(s, availableCapacity);
    PassesOk(p, s, cap, b);
    PassesMembers(p, s, cap, b);
    assert LogicBehaviours3(p, s, availableCapacity) == Collect(Passes(p, s, cap));
  }

  /** No pass faults while every colour has at most 64 unlocked tiles. */
  lemma PassesOk(p: Pasture, s: Staging, cap: int, b: BehaviourMove)
    requires forall color | InTable(color) :: |ByColor(p.unlocking, color)| <= Width
    ensures forall k | 0 <= k < |Passes(p, s, cap)| :: Passes(p, s, cap)[k].Ok?
  {
    forall k | 0 <= k < |Passes(p, s, cap)| ensures Passes(p, s, cap)[k].Ok? {
      ForColorExact(p, s, cap, k, b);
    }
  }

  /** When no pass faults, the collected behaviours are those of the colours' passes. */
  lemma PassesMembers(p: Pasture, s: Staging, cap: int, b: BehaviourMove)
    requires forall k | 0 <= k < |Passes(p, s, cap)| :: Passes(p, s, cap)[k].Ok?
    ensures Collect(Passes(p, s, cap)).Ok?
    ensures b in Collect(Passes(p, s, cap)).value <==>
      exists color | InTable(color) && ForColor(p, s, cap, color).Ok? :: b in ForColor(p, s, cap, color).value
  {
    var rs := Passes(p, s, cap);
    if b in Collect(rs).value {
      var k :| 0 <= k < |rs| && b in rs[k].value;
      assert InTable(k) && ForColor(p, s, cap, k).Ok? && b in ForColor(p, s, cap, k).value;
    }
    if color :| InTable(color) && ForColor(p, s, cap, color).Ok? && b in ForColor(p, s, cap, color).value {
      assert b in rs[color].value;
    }
  }
}
