/** Behaviours: what the move enumerators emit, a kind, a colour and the indices of the
    tiles to select in turn, and their expansion into selections played on a level. */
module Behaviours {
  import opened Outcomes
  import opened Moves
  import opened Levels

  /** The meaning of a behaviour: a plain clear of selectable tiles, a clear that first
      uncovers some of them, or a flip. */
  datatype BehaviourKind = EasyClear | HardClear | Flip

  datatype BehaviourMove = BehaviourMove(kind: BehaviourKind, color: int, tileIndexes: seq<int>)

  /** A move that has not been done yet: no recorded match. */
  function Selection(index: int): SelectMove {
    SelectMove(index, false, [])
  }

  function MoveIndices(ms: seq<SelectMove>): (r: seq<int>)
    ensures |r| == |ms| && forall i | 0 <= i < |ms| :: r[i] == ms[i].tileIndex
  {
    seq(|ms|, i requires 0 <= i < |ms| => ms[i].tileIndex)
  }

  /** `Build`: one fresh selection per index, in order. */
  function Build(b: BehaviourMove): (r: seq<SelectMove>)
    ensures forall i | 0 <= i < |r| :: !r[i].enteredCorral && r[i].partners == []
    ensures MoveIndices(r) == b.tileIndexes
  {
    seq(|b.tileIndexes|, i requires 0 <= i < |b.tileIndexes| => Selection(b.tileIndexes[i]))
  }

  /** `h2` continues `h` with moves of the indices of `ms`, in order. */
  ghost predicate Extends(h: seq<SelectMove>, h2: seq<SelectMove>, ms: seq<SelectMove>) {
    |h2| == |h| + |ms| && h2[..|h|] == h && MoveIndices(h2[|h|..]) == MoveIndices(ms)
  }

  /** The selections done one after another with `DoMove`, stopping at the first that
      fails; what is done is recorded, in order, after the history. */
  function Play(l: Level, ms: seq<SelectMove>): (r: Result<Level>)
    requires Valid(l)
    ensures r.Ok? ==> Valid(r.value) && Extends(l.history, r.value.history, ms)
    decreases |ms|
  {
    if ms == [] then
      assert l.history[|l.history|..] == [];
      Ok(l)
    else
      var l1 :- DoMove(l, ms[0].tileIndex);
      var r := Play(l1, ms[1..]);
      if r.Fail? then r
      else
        assert Extends(l.history, r.value.history, ms) by {
          ExtendsStep(l.history, l1.history, r.value.history, ms);
        }
        r
  }

  lemma ExtendsStep(h: seq<SelectMove>, h1: seq<SelectMove>, h2: seq<SelectMove>, ms: seq<SelectMove>)
    requires ms != [] && |h1| == |h| + 1 && h1[..|h|] == h && h1[|h|].tileIndex == ms[0].tileIndex
    requires Extends(h1, h2, ms[1..])
    ensures Extends(h, h2, ms)
  {
    assert h2[..|h|] == h by {
      assert h2[..|h|] == h1[..|h|];
    }
    var tail := MoveIndices(h2[|h|..]);
    assert tail[0] == ms[0].tileIndex by {
      assert h2[|h|] == h1[|h|];
    }
    assert tail[1..] == MoveIndices(h2[|h1|..]);
    assert MoveIndices(ms)[1..] == MoveIndices(ms[1..]);
  }
}
