/** `ColorBuilder.BuildCore`: a colour string in which every colour occurs its given number of
    times, built one pick at a time. A structure policy offers the candidate colours and says
    how many tiles of the picked colour to emit; the slots hold the colours emitted but not yet
    matched, and a colour whose slot count reaches `k` clears. The preference policy that picks
    among the candidates is a parameter: `pick(n)` chooses the candidate when `n` tiles have been
    emitted, so every run of the source is the run of some `pick`. */
module ColorBuilder {
  import opened Outcomes
  import opened Texts
  import opened SlotSimulator
  import opened SequenceBuilder
  import opened Dictionaries

  /** The structure policies: `MaxConcurrentTypesPolicy` and `DangerCapacityPolicy`. */
  datatype SlotMode = MaxConcurrent | DangerLine

  /** The builder's locals: `remaining` and `slots` with their totals `left` and `used`, and the
      string built so far. */
  datatype State = State(remaining: seq<Entry>, slots: seq<Entry>, used: int, left: int, result: Text)

  /** `maxConcurrentTypes`: how many colours may be open at once. */
  function MaxOpen(capacity: int, k: int): int
    requires k >= 2
  {
    (capacity - 1) / (k - 1)
  }

  /** `dangerCapacityLine`: the slot use from which no new colour is opened. */
  function Danger(capacity: int, k: int): int {
    capacity - (k - 1)
  }

  /** The policy lets a new colour be opened: fewer open colours than `maxConcurrentTypes`, or
      a slot use below the danger line. */
  predicate MayOpen(mode: SlotMode, st: State, capacity: int, k: int)
    requires k >= 2
  {
    match mode
    case MaxConcurrent => |st.slots| < MaxOpen(capacity, k)
    case DangerLine => st.used < Danger(capacity, k)
  }

  /** `GetCandidates`: every remaining colour while a new one may be opened, the open ones
      otherwise, in dictionary order. */
  function Candidates(mode: SlotMode, st: State, capacity: int, k: int): seq<Unit>
    requires k >= 2
  {
    if MayOpen(mode, st, capacity, k) then Keys(st.remaining) else Keys(st.slots)
  }

  /** `GetRequireCount`: one tile, or under the danger line the tiles that complete an open
      colour. */
  function RequireCount(mode: SlotMode, c: Unit, slots: seq<Entry>, k: int): int {
    match mode
    case MaxConcurrent => 1
    case DangerLine => if Has(slots, c) then k - Value(slots, c) else 1
  }

  /** `count` copies of `c`: the appending loop, which a count below 1 does not enter. */
  function Copies(c: Unit, count: int): (r: Text)
    ensures |r| == if count > 0 then count else 0
  {
    seq(if count > 0 then count else 0, _ => c)
  }

  /** The effect of `Emit(c, count)` before its deadlock check. */
  function Emitted(st: State, c: Unit, count: int, k: int): State {
    var r := Value(st.remaining, c) - count;
    var remaining := if r == 0 then Drop(st.remaining, c) else Put(st.remaining, c, r);
    var slot := Value(st.slots, c) + count;
    var slots := Put(st.slots, c, slot);
    var used := st.used + count;
    if slot == k then
      State(remaining, Drop(slots, c), used - k, st.left - count, st.result + Copies(c, count))
    else
      State(remaining, slots, used, st.left - count, st.result + Copies(c, count))
  }

  /** `Emit(c, count)`: reading `remaining[c]` throws for a colour with no entry left, and a
      slot use that reaches the capacity is the deadlock the source reports. */
  function Emit(st: State, c: Unit, count: int, capacity: int, k: int): (r: Result<State>)
    ensures r.Fail? <==> !Has(st.remaining, c) || Emitted(st, c, count, k).used >= capacity
    ensures r.Fail? ==> r.fault == if Has(st.remaining, c) then InvalidOperation else KeyNotFound
    ensures r.Ok? ==> r.value == Emitted(st, c, count, k)
  {
    if !Has(st.remaining, c) then Fail(KeyNotFound)
    else
      var st' := Emitted(st, c, count, k);
      if st'.used >= capacity then Fail(InvalidOperation) else Ok(st')
  }

  /** The open slots: distinct colours, each short of `k`. */
  predicate Open(slots: seq<Entry>, k: int) {
    Unique(slots) && forall x | Has(slots, x) :: Value(slots, x) < k
  }

  /** The main loop: while tiles are left, pick a candidate and emit its required count; no
      candidate is the invalid operation the source reports. */
  function Run(mode: SlotMode, capacity: int, k: int, st: State, pick: nat -> nat): Result<Text>
    requires k >= 2 && Open(st.slots, k)
    decreases if st.left > 0 then st.left else 0
  {
    if st.left <= 0 then Ok(st.result)
    else
      var cands := Candidates(mode, st, capacity, k);
      if cands == [] then Fail(InvalidOperation)
      else
        var c := cands[pick(|st.result|) % |cands|];
        var count := RequireCount(mode, c, st.slots, k);
        var st' :- Emit(st, c, count, capacity, k);
        EmitOpen(mode, st, c, k, capacity);
        Run(mode, capacity, k, st', pick)
  }

  /** One emission leaves the slots open and takes at least one tile off `left`. */
  lemma EmitOpen(mode: SlotMode, st: State, c: Unit, k: int, capacity: int)
    requires k >= 2 && Open(st.slots, k)
    ensures RequireCount(mode, c, st.slots, k) >= 1
    ensures var st' := Emitted(st, c, RequireCount(mode, c, st.slots, k), k);
      Open(st'.slots, k) && st'.left <= st.left - 1
  {
    var count := RequireCount(mode, c, st.slots, k);
    var slot := Value(st.slots, c) + count;
    if !Has(st.slots, c) {
      ValueMissing(st.slots, c);
    }
    assert 1 <= count && slot <= k;
    var slots := Put(st.slots, c, slot);
    PutShape(st.slots, c, slot);
    forall x ensures Has(slots, x) ==> Value(slots, x) < k || (x == c && slot == k) {
      HasPut(st.slots, c, slot, x);
      ValuePut(st.slots, c, slot, x);
    }
    if slot == k {
      DropShape(slots, c);
      forall x ensures Has(Drop(slots, c), x) ==> Value(Drop(slots, c), x) < k {
        DropMeans(slots, c, x);
      }
    }
  }

  /** `BuildCore` as written: `k < 2` and `capacity < k` are argument faults, and so is the
      first count that is not a multiple of `k`; the counts are then taken as they are, zero
      and negative multiples included. */
  function BuildCoreAsWritten(es: seq<Entry>, capacity: int, k: int, mode: SlotMode, pick: nat -> nat): Result<Text> {
    if k < 2 || capacity < k then Fail(Argument)
    else if exists i | 0 <= i < |es| :: !Multiple(es[i].1, k) then Fail(Argument)
    else Run(mode, capacity, k, State(es, [], 0, Sum(es), []), pick)
  }

  /** `BuildCore` as intended: a negative count is an argument fault as well, and the colours
      with no tiles are left out, as `Tile3SequenceBuilder` does. */
  function BuildCore(es: seq<Entry>, capacity: int, k: int, mode: SlotMode, pick: nat -> nat): Result<Text> {
    if k < 2 || capacity < k then Fail(Argument)
    else if exists i | 0 <= i < |es| :: !SequenceBuilder.Valid(es[i], k) then Fail(Argument)
    else
      var ps := Positive(es);
      Run(mode, capacity, k, State(ps, [], 0, Sum(ps), []), pick)
  }
}
