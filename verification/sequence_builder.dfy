/** `Tile3SequenceBuilder.Build`: a colour sequence in which every colour occurs its given
    number of times and that never overflows a slot of `capacity` cells where `k` tiles of one
    colour clear each other. Colours enter a stack; the builder finishes the top colour when it
    is one tile short, opens a new colour while fewer than `capacity / (k - 1)` are open, and
    otherwise adds to the top colour. */
module SequenceBuilder {
  import opened Outcomes
  import opened Texts
  import opened SlotSimulator

  /** One entry of the `colorCounts` dictionary: a colour and its number of tiles. */
  type Entry = (Unit, int)

  /** The colours of the entries. */
  function Keys(es: seq<Entry>): (r: seq<Unit>)
    ensures |r| == |es| && forall i | 0 <= i < |es| :: r[i] == es[i].0
  {
    seq(|es|, i requires 0 <= i < |es| => es[i].0)
  }

  /** The counts of the entries. */
  function Values(es: seq<Entry>): (r: seq<int>)
    ensures |r| == |es| && forall i | 0 <= i < |es| :: r[i] == es[i].1
  {
    seq(|es|, i requires 0 <= i < |es| => es[i].1)
  }

  /** No colour has two entries, as in a dictionary. */
  predicate DistinctKeys(es: seq<Entry>) {
    forall i, j | 0 <= i < j < |es| :: es[i].0 != es[j].0
  }

  /** The entries with a positive count, in order: the colours the builder tracks. */
  function Positive(es: seq<Entry>): (r: seq<Entry>)
    ensures forall e :: e in r <==> e in es && e.1 > 0
    decreases |es|
  {
    if es == [] then []
    else
      assert forall e | e in es :: e == es[0] || e in es[1..];
      (if es[0].1 > 0 then [es[0]] else []) + Positive(es[1..])
  }

  /** An entry the builder accepts: a count that is a non-negative multiple of `k`. */
  predicate Valid(e: Entry, k: int)
    requires k >= 2
  {
    e.1 >= 0 && Rem(e.1, k) == 0
  }

  /** The validation loop over the entries in order: the first negative count is an argument
      fault, the first count that is not a multiple of `k` an invalid operation; otherwise the
      entries with a positive count. */
  function Admit(es: seq<Entry>, k: int): Result<seq<Entry>>
    requires k >= 2
    decreases |es|
  {
    if es == [] then Ok([])
    else
      var (c, n) := es[0];
      if n < 0 then Fail(Argument)
      else if Rem(n, k) != 0 then Fail(InvalidOperation)
      else
        var rest :- Admit(es[1..], k);
        Ok(if n == 0 then rest else [(c, n)] + rest)
  }

  /** Validation accepts exactly the entries that are all valid and keeps those with a
      positive count; otherwise the first invalid entry decides the fault. */
  lemma {:induction false} AdmitMeans(es: seq<Entry>, k: int)
    requires k >= 2
    ensures Admit(es, k).Ok? <==> forall i | 0 <= i < |es| :: Valid(es[i], k)
    ensures Admit(es, k).Ok? ==> Admit(es, k).value == Positive(es)
    ensures Admit(es, k).Fail? ==> exists i | 0 <= i < |es| ::
      (FirstInvalid(es, i, k) && Admit(es, k).fault == (if es[i].1 < 0 then Argument else InvalidOperation))
    decreases |es|
  {
    if es != [] {
      AdmitMeans(es[1..], k);
      if Valid(es[0], k) && Admit(es[1..], k).Fail? {
        var i :| 0 <= i < |es[1..]| && FirstInvalid(es[1..], i, k) &&
          Admit(es[1..], k).fault == (if es[1..][i].1 < 0 then Argument else InvalidOperation);
        assert FirstInvalid(es, i + 1, k);
      } else if !Valid(es[0], k) {
        assert FirstInvalid(es, 0, k);
      }
      assert forall i | 1 <= i < |es| :: es[i] == es[1..][i - 1];
    }
  }

  /** Entry `i` is the first invalid one. */
  predicate FirstInvalid(es: seq<Entry>, i: int, k: int)
    requires k >= 2 && 0 <= i < |es|
  {
    !Valid(es[i], k) && forall j | 0 <= j < i :: Valid(es[j], k)
  }

  // ---------------------------------------------------------------- the builder's state

  /** The builder between steps, for a fixed list of colours: the tiles each colour still has
      to place, how many of it are in the slot, the stack of open colours (as indices, top
      last), the sequence so far and the slot's load. */
  datatype Builder = Builder(remaining: seq<int>, slot: seq<int>, active: seq<int>, result: Text, used: int)

  /** One remaining and one slot count per colour, none remaining below zero, and stack entries
      that name colours. */
  predicate WellFormed(cs: seq<Unit>, b: Builder) {
    |b.remaining| == |cs| && |b.slot| == |cs| &&
    (forall j | 0 <= j < |cs| :: b.remaining[j] >= 0) &&
    (forall i | 0 <= i < |b.active| :: 0 <= b.active[i] < |cs|)
  }

  /** The sum of a sequence of counts. */
  function Total(s: seq<int>): (r: int)
    ensures (forall i | 0 <= i < |s| :: s[i] >= 0) ==> r >= 0
    decreases |s|
  {
    if s == [] then 0 else s[0] + Total(s[1..])
  }

  /** `remaining.Values.Any(v => v > 0)`. */
  predicate HasRemaining(b: Builder) {
    exists j | 0 <= j < |b.remaining| :: b.remaining[j] > 0
  }

  /** A colour that still has tiles to place and none in the slot. */
  predicate Closed(b: Builder, j: int)
    requires 0 <= j < |b.remaining| == |b.slot|
  {
    b.remaining[j] > 0 && b.slot[j] == 0
  }

  /** The first closed colour from `from` on, in the dictionary's order. */
  function Fresh(b: Builder, from: int): (r: Option<int>)
    requires |b.remaining| == |b.slot| && 0 <= from <= |b.remaining|
    ensures r.Some? ==> from <= r.value < |b.remaining| && Closed(b, r.value)
    ensures r.Some? ==> forall i | from <= i < r.value :: !Closed(b, i)
    ensures r.None? ==> forall i | from <= i < |b.remaining| :: !Closed(b, i)
    decreases |b.remaining| - from
  {
    if from == |b.remaining| then None
    else if Closed(b, from) then Some(from)
    else Fresh(b, from + 1)
  }

  /** The open colour on top of the stack. */
  function Top(b: Builder): int
    requires b.active != []
  {
    b.active[|b.active| - 1]
  }

  /** The colour the next step places, by the builder's three rules in order: finish the top
      colour when it is one short, open the first closed colour while fewer than `maxActive`
      are open, add to the top colour while it has tiles left; `None` when no rule applies. */
  function Pick(cs: seq<Unit>, b: Builder, k: int, maxActive: int): (r: Option<int>)
    requires WellFormed(cs, b)
    ensures r.Some? ==> 0 <= r.value < |cs| && b.remaining[r.value] > 0
  {
    if b.active != [] && b.slot[Top(b)] == k - 1 && b.remaining[Top(b)] > 0 then Some(Top(b))
    else if |b.active| < maxActive && Fresh(b, 0).Some? then Fresh(b, 0)
    else if b.active != [] && b.remaining[Top(b)] > 0 then Some(Top(b))
    else None
  }

  /** `Emit(c)`: place one tile of colour `j`. A colour that enters the slot is pushed; a
      colour that reaches `k` leaves the slot and must be the top, which is popped; a load
      above `capacity` afterwards is an invalid operation. */
  function Emit(cs: seq<Unit>, b: Builder, j: int, k: int, capacity: int): (r: Result<Builder>)
    requires WellFormed(cs, b) && 0 <= j < |cs| && b.remaining[j] > 0
    ensures r.Ok? ==> WellFormed(cs, r.value)
  {
    var s := b.slot[j] + 1;
    var active := if s == 1 then b.active + [j] else b.active;
    var remaining := b.remaining[j := b.remaining[j] - 1];
    var result := b.result + [cs[j]];
    if s == k then
      if active == [] || active[|active| - 1] != j then Fail(InvalidOperation)
      else if b.used + 1 - k > capacity then Fail(InvalidOperation)
      else Ok(Builder(remaining, b.slot[j := 0], active[..|active| - 1], result, b.used + 1 - k))
    else if b.used + 1 > capacity then Fail(InvalidOperation)
    else Ok(Builder(remaining, b.slot[j := s], active, result, b.used + 1))
  }

  /** Placing a tile takes one from what remains. */
  lemma {:induction false} TotalUpdate(s: seq<int>, j: int, v: int)
    requires 0 <= j < |s|
    ensures Total(s[j := v]) == Total(s) - s[j] + v
    decreases |s|
  {
    if j > 0 {
      assert s[j := v][1..] == s[1..][j - 1 := v];
      TotalUpdate(s[1..], j - 1, v);
    }
  }

  /** An emitted step leaves one tile fewer to place. */
  lemma EmitTakes(cs: seq<Unit>, b: Builder, j: int, k: int, capacity: int)
    requires WellFormed(cs, b) && 0 <= j < |cs| && b.remaining[j] > 0
    ensures Emit(cs, b, j, k, capacity).Ok? ==>
      Total(Emit(cs, b, j, k, capacity).value.remaining) == Total(b.remaining) - 1
  {
    TotalUpdate(b.remaining, j, b.remaining[j] - 1);
  }

  /** The main loop: step while a colour has tiles left or a colour is open. */
  function Run(cs: seq<Unit>, b: Builder, k: int, capacity: int, maxActive: int): Result<Text>
    requires WellFormed(cs, b)
    decreases Total(b.remaining)
  {
    if !(HasRemaining(b) || b.active != []) then Ok(b.result)
    else
      match Pick(cs, b, k, maxActive)
      case None => Fail(InvalidOperation)
      case Some(j) =>
        EmitTakes(cs, b, j, k, capacity);
        var b' :- Emit(cs, b, j, k, capacity);
        Run(cs, b', k, capacity, maxActive)
  }

  /** The state before the first step: every tracked colour with all its tiles to place. */
  function Start(ns: seq<int>): Builder {
    Builder(ns, seq(|ns|, _ => 0), [], [], 0)
  }

  /** `Build(colorCounts, capacity, k)`. */
  function Build(es: seq<Entry>, capacity: int, k: int): Result<Text> {
    if k < 2 then Fail(Argument)
    else if capacity <= 0 then Fail(Argument)
    else
      var maxActive := capacity / (k - 1);
      if maxActive <= 0 then Fail(InvalidOperation)
      else
        var tracked :- Admit(es, k);
        AdmitMeans(es, k);
        Run(Keys(tracked), Start(Values(tracked)), k, capacity, maxActive)
  }
}
