/** The clear emitters of `Level`: a simple clear picks `need` of the selectable tiles; a hard
    clear keeps the fixed tiles and adds at least one expanded tile and some selectable ones,
    `need` in all. Groups of tiles are masks, bit `i` standing for the `i`-th tile of a group. */
module Clears {
  import opened Bits
  import opened Masks
  import opened Gosper
  import opened Sparse
  import opened Outcomes

  /** `HardClearPick`: the fixed, expanded and selected parts of a hard clear. */
  datatype HardClearPick = HardClearPick(fixed: nat, expand: nat, select: nat)

  /** `EmitSimpleClears(selectable, need, emit)`: what is emitted, in order. */
  function SimpleClears(selectable: nat, need: int): (r: seq<nat>)
    requires selectable < WordLimit
    ensures forall y: nat :: y in r <==> Within(y, selectable) && Pop(y) == need
    ensures forall i, j | 0 <= i < j < |r| :: r[i] != r[j]
  {
    if Pop(selectable) < need then
      assert forall y: nat | Within(y, selectable) :: Pop(y) <= Pop(selectable) by {
        forall y: nat | Within(y, selectable) ensures Pop(y) <= Pop(selectable) {
          PopWithin(y, selectable);
        }
      }
      []
    else Picks(selectable, need)
  }

  /** The picks with expanded part `e` and each of `ss` as the selected part, in order. */
  function Pairs(f: nat, e: nat, ss: seq<nat>): (r: seq<HardClearPick>)
    ensures |r| == |ss| && forall i | 0 <= i < |ss| :: r[i] == HardClearPick(f, e, ss[i])
  {
    seq(|ss|, i requires 0 <= i < |ss| => HardClearPick(f, e, ss[i]))
  }

  /** The nested `foreach` over expanded picks, then selected picks. */
  function Product(f: nat, es: seq<nat>, ss: seq<nat>): (r: seq<HardClearPick>)
    ensures forall p :: p in r <==> p.fixed == f && p.expand in es && p.select in ss
  {
    if es == [] then []
    else
      var rest := Product(f, es[1..], ss);
      assert forall x | x in es :: x == es[0] || x in es[1..];
      assert forall p | p in Pairs(f, es[0], ss) :: p.fixed == f && p.expand == es[0] && p.select in ss;
      assert forall x | x in ss :: HardClearPick(f, es[0], x) in Pairs(f, es[0], ss);
      Pairs(f, es[0], ss) + rest
  }

  /** A hard clear of `rest` tiles beside the fixed ones: at least one expanded tile, and
      selected tiles making up the rest. */
  ghost predicate HardPick(f: nat, s: nat, e: nat, rest: int, p: HardClearPick) {
    && p.fixed == f
    && Within(p.expand, e) && Within(p.select, s)
    && Pop(p.expand) >= 1 && Pop(p.expand) + Pop(p.select) == rest
  }

  /** The rounds `i .. top` of the loop over the number `i` of expanded tiles; a round whose
      selected part would need more than `sCount` tiles is skipped. */
  function Rounds(f: nat, s: nat, e: nat, rest: int, sCount: int, i: int, top: int): (r: seq<HardClearPick>)
    requires s < WordLimit && e < WordLimit && i >= 1 && sCount >= Pop(s)
    ensures forall p :: p in r <==> HardPick(f, s, e, rest, p) && i <= Pop(p.expand) <= top
    decreases top - i + 1
  {
    if i > top then []
    else
      var j := rest - i;
      var here := if j > sCount then [] else Product(f, Picks(e, i), Picks(s, j));
      assert forall p | p in here :: HardPick(f, s, e, rest, p) && Pop(p.expand) == i;
      assert forall p | HardPick(f, s, e, rest, p) && Pop(p.expand) == i :: p in here by {
        forall p | HardPick(f, s, e, rest, p) && Pop(p.expand) == i ensures p in here {
          PopWithin(p.select, s);
        }
      }
      here + Rounds(f, s, e, rest, sCount, i + 1, top)
  }

  /** `EmitHardClears(f, s, e, need, emit)`: what is emitted, in order. */
  function HardClears(f: nat, s: nat, e: nat, need: int): (r: seq<HardClearPick>)
    requires s < WordLimit && e < WordLimit
    ensures forall p :: p in r <==> need - Pop(f) > 0 && HardPick(f, s, e, need - Pop(f), p)
  {
    var rest := need - Pop(f);
    if rest <= 0 then []
    else
      assert forall p | HardPick(f, s, e, rest, p) :: Pop(p.expand) <= Pop(e) && Pop(p.expand) <= rest by {
        forall p | HardPick(f, s, e, rest, p) ensures Pop(p.expand) <= Pop(e) && Pop(p.expand) <= rest {
          PopWithin(p.expand, e);
        }
      }
      if Pop(e) == 0 then []
      else Rounds(f, s, e, rest, Pop(s), 1, Min(Pop(e), rest))
  }

  /** `Math.Min`. */
  function Min(a: int, b: int): int {
    if a <= b then a else b
  }

  // ---------------------------------------------------------------- as written

  /** `EmitSimpleClears` with `ChooseBits` as written: the choice is computed in full before
      anything is emitted, so its fault leaves nothing emitted. */
  function SimpleClearsAsWritten(selectable: nat, need: int): Result<seq<nat>>
    requires selectable < WordLimit
  {
    if Pop(selectable) < need then Ok([]) else PicksAsWritten(selectable, need)
  }

  /** Below 64 selectable tiles the source's simple clears are the intended ones. */
  lemma SimpleClearsAgree(selectable: nat, need: int)
    requires selectable < WordLimit && Pop(selectable) < Width
    ensures SimpleClearsAsWritten(selectable, need) == Ok(SimpleClears(selectable, need))
  {
    if Pop(selectable) >= need {
      PicksAgree(selectable, need);
    }
  }

  /** All 64 bits selectable, fewer needed: the source emits no simple clear, though the `need`
      low bits are one. */
  lemma SimpleClearsMissFullWord(need: int)
    requires 1 <= need < Width
    ensures Ones(Width) < WordLimit
    ensures SimpleClearsAsWritten(Ones(Width), need) == Ok([])
    ensures Ones(need) in SimpleClears(Ones(Width), need)
  {
    PicksMissFullWord(need);
    PopOnes(Width);
  }

  /** All 64 bits selectable and all 64 needed: the source divides by zero. */
  lemma SimpleClearsFaultOnFullWord()
    ensures Ones(Width) < WordLimit
    ensures SimpleClearsAsWritten(Ones(Width), Width) == Fail(DivideByZero)
    ensures Ones(Width) in SimpleClears(Ones(Width), Width)
  {
    PicksFaultOnFullWord();
    PopOnes(Width);
  }

  /** One round of the loop as written: the expanded picks are chosen first, and the selected
      picks are chosen only for an expanded pick, so with none there is nothing to fault. */
  function RoundAsWritten(f: nat, s: nat, e: nat, i: int, j: int): Result<seq<HardClearPick>>
    requires s < WordLimit && e < WordLimit
  {
    var es :- PicksAsWritten(e, i);
    if es == [] then Ok([])
    else
      var ss :- PicksAsWritten(s, j);
      Ok(Product(f, es, ss))
  }

  /** The rounds `i .. top` as written: the first faulting round ends the loop. */
  function RoundsAsWritten(f: nat, s: nat, e: nat, rest: int, sCount: int, i: int, top: int): Result<seq<HardClearPick>>
    requires s < WordLimit && e < WordLimit
    decreases top - i + 1
  {
    if i > top then Ok([])
    else
      var here :- if rest - i > sCount then Ok([]) else RoundAsWritten(f, s, e, i, rest - i);
      var later :- RoundsAsWritten(f, s, e, rest, sCount, i + 1, top);
      Ok(here + later)
  }

  /** `EmitHardClears` with `ChooseBits` as written. */
  function HardClearsAsWritten(f: nat, s: nat, e: nat, need: int): Result<seq<HardClearPick>>
    requires s < WordLimit && e < WordLimit
  {
    var rest := need - Pop(f);
    if rest <= 0 || Pop(e) == 0 then Ok([])
    else RoundsAsWritten(f, s, e, rest, Pop(s), 1, Min(Pop(e), rest))
  }

  /** With fewer than 64 tiles in each group, one round as written is the intended one. */
  lemma RoundAgree(f: nat, s: nat, e: nat, i: int, j: int)
    requires s < WordLimit && e < WordLimit && Pop(s) < Width && Pop(e) < Width
    ensures RoundAsWritten(f, s, e, i, j) == Ok(Product(f, Picks(e, i), Picks(s, j)))
  {
    PicksAgree(e, i);
    PicksAgree(s, j);
  }

  /** With fewer than 64 tiles in each group, the rounds as written are the intended ones. */
  lemma {:induction false} RoundsAgree(f: nat, s: nat, e: nat, rest: int, sCount: int, i: int, top: int)
    requires s < WordLimit && e < WordLimit && i >= 1 && sCount >= Pop(s)
    requires Pop(s) < Width && Pop(e) < Width
    ensures RoundsAsWritten(f, s, e, rest, sCount, i, top) == Ok(Rounds(f, s, e, rest, sCount, i, top))
    decreases top - i + 1
  {
    if i <= top {
      RoundsAgree(f, s, e, rest, sCount, i + 1, top);
      RoundsTurn(f, s, e, rest, sCount, i, top);
    } else {
      RoundsNone(f, s, e, rest, sCount, i, top);
    }
  }

  /** Round `i` agrees, so the rounds from `i` agree when those after it do. */
  lemma RoundsTurn(f: nat, s: nat, e: nat, rest: int, sCount: int, i: int, top: int)
    requires s < WordLimit && e < WordLimit && i >= 1 && sCount >= Pop(s) && i <= top
    requires Pop(s) < Width && Pop(e) < Width
    requires RoundsAsWritten(f, s, e, rest, sCount, i + 1, top) == Ok(Rounds(f, s, e, rest, sCount, i + 1, top))
    ensures RoundsAsWritten(f, s, e, rest, sCount, i, top) == Ok(Rounds(f, s, e, rest, sCount, i, top))
  {
    var j := rest - i;
    var here := if j > sCount then [] else Product(f, Picks(e, i), Picks(s, j));
    if j <= sCount {
      RoundAgree(f, s, e, i, j);
    }
    RoundsGlue(f, s, e, rest, sCount, i, top, here);
  }

  /** A round that agrees ahead of later rounds that agree. */
  lemma RoundsGlue(f: nat, s: nat, e: nat, rest: int, sCount: int, i: int, top: int, here: seq<HardClearPick>)
    requires s < WordLimit && e < WordLimit && i >= 1 && sCount >= Pop(s) && i <= top
    requires here == if rest - i > sCount then [] else Product(f, Picks(e, i), Picks(s, rest - i))
    requires (if rest - i > sCount then Ok([]) else RoundAsWritten(f, s, e, i, rest - i)) == Ok(here)
    requires RoundsAsWritten(f, s, e, rest, sCount, i + 1, top) == Ok(Rounds(f, s, e, rest, sCount, i + 1, top))
    ensures RoundsAsWritten(f, s, e, rest, sCount, i, top) == Ok(Rounds(f, s, e, rest, sCount, i, top))
  {
    var later := Rounds(f, s, e, rest, sCount, i + 1, top);
    RoundsWrittenStep(f, s, e, rest, sCount, i, top, here, later);
    RoundsStep(f, s, e, rest, sCount, i, top);
  }

  /** No rounds left, as written and as intended. */
  lemma RoundsNone(f: nat, s: nat, e: nat, rest: int, sCount: int, i: int, top: int)
    requires s < WordLimit && e < WordLimit && i >= 1 && sCount >= Pop(s) && i > top
    ensures RoundsAsWritten(f, s, e, rest, sCount, i, top) == Ok(Rounds(f, s, e, rest, sCount, i, top))
  {
    assert Rounds(f, s, e, rest, sCount, i, top) == [];
  }

  /** One round of the loop as written ahead of the later ones. */
  lemma RoundsWrittenStep(f: nat, s: nat, e: nat, rest: int, sCount: int, i: int, top: int, here: seq<HardClearPick>, later: seq<HardClearPick>)
    requires s < WordLimit && e < WordLimit && i <= top
    requires (if rest - i > sCount then Ok([]) else RoundAsWritten(f, s, e, i, rest - i)) == Ok(here)
    requires RoundsAsWritten(f, s, e, rest, sCount, i + 1, top) == Ok(later)
    ensures RoundsAsWritten(f, s, e, rest, sCount, i, top) == Ok(here + later)
  {
  }

  /** One round of the intended loop ahead of the later ones. */
  lemma RoundsStep(f: nat, s: nat, e: nat, rest: int, sCount: int, i: int, top: int)
    requires s < WordLimit && e < WordLimit && i >= 1 && sCount >= Pop(s) && i <= top
    ensures Rounds(f, s, e, rest, sCount, i, top) ==
      (if rest - i > sCount then [] else Product(f, Picks(e, i), Picks(s, rest - i))) + Rounds(f, s, e, rest, sCount, i + 1, top)
  {
  }

  /** With fewer than 64 tiles in each group, the source's hard clears are the intended
      ones. */
  lemma HardClearsAgree(f: nat, s: nat, e: nat, need: int)
    requires s < WordLimit && e < WordLimit && Pop(s) < Width && Pop(e) < Width
    ensures HardClearsAsWritten(f, s, e, need) == Ok(HardClears(f, s, e, need))
  {
    var rest := need - Pop(f);
    if rest > 0 && Pop(e) != 0 {
      RoundsAgree(f, s, e, rest, Pop(s), 1, Min(Pop(e), rest));
    }
  }

  /** One tile to expand among the 64 of `full` and none selectable: the round as written
      finds no pick, though the lowest expanded tile alone is one. */
  lemma RoundsMissFullWord(f: nat, s: nat, e: nat, rest: int, sCount: int, i: int, top: int)
    requires s == 0 && sCount == 0 && e == Ones(Width) && rest == 1 && i == 1 && top == 1
    ensures e < WordLimit
    ensures RoundsAsWritten(f, s, e, rest, sCount, i, top) == Ok([])
    ensures HardClearPick(f, Ones(1), 0) in Rounds(f, s, e, rest, sCount, i, top)
  {
    PicksMissFullWord(i);
    assert Pop(s) == 0;
    assert RoundsAsWritten(f, s, e, rest, sCount, i + 1, top) == Ok([]);
    assert RoundAsWritten(f, s, e, i, rest - i) == Ok([]);
    var none: seq<HardClearPick> := [];
    assert none + none == none;
    assert Within(0, 0);
    assert HardPick(f, s, e, rest, HardClearPick(f, Ones(1), 0));
    PopOnes(1);
  }

  /** No fixed or selectable tiles, all 64 of `full` expandable, one needed: the source emits
      no hard clear, though expanding the lowest tile is one. */
  lemma HardClearsMissFullWord(full: nat)
    requires full == Ones(Width)
    ensures full < WordLimit
    ensures HardClearsAsWritten(0, 0, full, 1) == Ok([])
    ensures HardClearPick(0, Ones(1), 0) in HardClears(0, 0, full, 1)
  {
    RoundsMissFullWord(0, 0, full, 1, 0, 1, 1);
    PopOnes(Width);
    assert Pop(0) == 0;
    assert Min(Pop(full), 1) == 1;
  }
}
