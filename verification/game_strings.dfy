/** `GameStringTools`: the level string. Positions come first, layer by layer (`;`), row by
    row (`.`), column by column (`,`), each coordinate one base-62 letter; then `:` and one
    colour letter per tile. */
module GameStrings {
  import opened Outcomes
  import opened Packed
  import opened Tiles
  import opened ShadowManager
  import opened Levels
  import opened Texts

  const Semicolon: Unit := 59
  const Dot: Unit := 46
  const Comma: Unit := 44
  const Colon: Unit := 58

  /** The characters `Deserialize` trims from both ends: `"`, newline, space, `●` and `○`. */
  const Trimmed: set<Unit> := {34, 10, 32, 0x25CF, 0x25CB}

  /** A letter of the alphabet: `0`-`9`, `A`-`Z` or `a`-`z`. */
  predicate IsLetter(u: Unit) {
    48 <= u <= 57 || 65 <= u <= 90 || 97 <= u <= 122
  }

  /** `LetterToIndex`: digits are 0-9, capitals 10-35, small letters 36-61. */
  function LetterToIndex(u: Unit): (r: Result<int>)
    ensures r.Ok? <==> IsLetter(u)
    ensures r.Fail? ==> r.fault == InvalidOperation
    ensures r.Ok? ==> 0 <= r.value < 62
  {
    if 48 <= u <= 57 then Ok(u - 48)
    else if 65 <= u <= 90 then Ok(u - 65 + 10)
    else if 97 <= u <= 122 then Ok(u - 97 + 36)
    else Fail(InvalidOperation)
  }

  /** `IndexToLetter`: the letter of 0-61; any index below 10, negative ones included, goes
      through the digit arm, the sum cast to a 16-bit `char`. */
  function IndexToLetter(i: int): (r: Result<Unit>)
    ensures r.Ok? <==> i < 62
    ensures r.Fail? ==> r.fault == InvalidOperation
  {
    if i < 10 then Ok((i + 48) % 0x1_0000)
    else if i < 36 then Ok(i - 10 + 65)
    else if i < 62 then Ok(i - 36 + 97)
    else Fail(InvalidOperation)
  }

  /** The index of a letter's letter is the index. */
  lemma LetterOfIndex(i: int)
    requires 0 <= i < 62
    ensures IndexToLetter(i).Ok? && IsLetter(IndexToLetter(i).value)
    ensures LetterToIndex(IndexToLetter(i).value) == Ok(i)
  {
  }

  /** The letter of a letter's index is the letter. */
  lemma IndexOfLetter(u: Unit)
    requires IsLetter(u)
    ensures IndexToLetter(LetterToIndex(u).value) == Ok(u)
  {
  }

  /** A negative index from -48 on becomes a character below `0` that is not a letter:
      `-1`, the unspecified colour, is written as `/`, which cannot be read back. */
  lemma NegativeIndexLetter(i: int)
    requires -48 <= i < 0
    ensures IndexToLetter(i) == Ok(i + 48)
    ensures LetterToIndex(IndexToLetter(i).value).Fail?
  {
  }

  /** `IndexToLetter` as its documentation promises it: the letter of 0-61, and the
      out-of-range fault for every other index, negative ones included. */
  function CheckedLetter(i: int): (r: Result<Unit>)
    ensures r.Ok? <==> 0 <= i < 62
    ensures r.Fail? ==> r.fault == InvalidOperation
    ensures r.Ok? ==> IsLetter(r.value) && LetterToIndex(r.value) == Ok(i)
  {
    if 0 <= i < 62 then
      LetterOfIndex(i);
      IndexToLetter(i)
    else Fail(InvalidOperation)
  }

  // ---------------------------------------------------------------- reading

  /** `text.Select(LetterToIndex)`: the indices of the letters, up to the first non-letter. */
  function Letters(t: Text): (r: Result<seq<int>>)
    ensures r.Ok? <==> forall i | 0 <= i < |t| :: IsLetter(t[i])
    ensures r.Fail? ==> r.fault == InvalidOperation
    ensures r.Ok? ==> |r.value| == |t| && forall i | 0 <= i < |t| :: Ok(r.value[i]) == LetterToIndex(t[i])
    decreases |t|
  {
    if t == [] then Ok([])
    else
      var head :- LetterToIndex(t[0]);
      var rest :- Letters(t[1..]);
      assert forall i | 1 <= i < |t| :: t[i] == t[1..][i - 1];
      Ok([head] + rest)
  }

  /** One row of a layer: its `y` letter, then the column letters, which must number `n`
      with the row `2n - 1` characters long; the cells of the row's tiles on layer `z`. */
  function ParseRow(row: Text, z: int): (r: Result<seq<int>>)
    ensures r.Ok? ==> row != [] && |r.value| == |Remove(row[1..], Comma)|
  {
    if row == [] then Fail(IndexOutOfRange)
    else
      var y :- LetterToIndex(row[0]);
      var xs := row[1..];
      var letters := Remove(xs, Comma);
      if |letters| * 2 - 1 != |xs| then Fail(InvalidOperation)
      else
        var cols :- Letters(letters);
        Ok(seq(|cols|, i requires 0 <= i < |cols| => Pack(cols[i], y, z)))
  }

  /** The rows of a layer, in order, up to the first fault. */
  function ParseRows(rows: seq<Text>, z: int): Result<seq<int>>
    decreases |rows|
  {
    if rows == [] then Ok([])
    else
      var head :- ParseRow(rows[0], z);
      var rest :- ParseRows(rows[1..], z);
      Ok(head + rest)
  }

  /** One layer: its `z` letter, then its rows separated by `.`. */
  function ParseLayer(layer: Text): Result<seq<int>> {
    if layer == [] then Fail(IndexOutOfRange)
    else
      var z :- LetterToIndex(layer[0]);
      ParseRows(Split(layer[1..], Dot), z)
  }

  /** The layers, in order, up to the first fault. */
  function ParseLayers(layers: seq<Text>): Result<seq<int>>
    decreases |layers|
  {
    if layers == [] then Ok([])
    else
      var head :- ParseLayer(layers[0]);
      var rest :- ParseLayers(layers[1..]);
      Ok(head + rest)
  }

  /** The position part: layers separated by `;`. */
  function ParsePositions(board: Text): Result<seq<int>> {
    ParseLayers(Split(board, Semicolon))
  }

  /** `n` unspecified colours. */
  function Unspecified(n: nat): (r: seq<int>)
    ensures |r| == n && forall i | 0 <= i < n :: r[i] == ColorUnspecified
  {
    seq(n, _ => ColorUnspecified)
  }

  /** The parsing part of `Deserialize`: the positions in string order and the colours, or
      the fault it throws. */
  function Parse(str: Text): (r: Result<(seq<int>, seq<int>)>)
    ensures r.Ok? ==> |r.value.0| == |r.value.1|
    ensures |Split(Trim(str, Trimmed), Colon)| > 2 && ParsePositions(Split(Trim(str, Trimmed), Colon)[0]).Ok? ==>
      r == Fail(Argument)
    ensures r.Ok? ==> ParsePositions(Split(Trim(str, Trimmed), Colon)[0]) == Ok(r.value.0)
  {
    var s := Split(Trim(str, Trimmed), Colon);
    var positions :- ParsePositions(s[0]);
    if |s| > 2 then Fail(Argument)
    else
      var colorText := if |s| == 2 then s[1] else [];
      var colors :- if |colorText| == |positions| then Letters(colorText) else Ok(Unspecified(|positions|));
      Ok((positions, colors))
  }

  /** The colour part is read only when it has one letter per tile; otherwise every tile
      is unspecified. */
  lemma ParseColors(str: Text)
    requires Parse(str).Ok?
    ensures var s := Split(Trim(str, Trimmed), Colon);
      var n := |Parse(str).value.0|;
      if |s| == 2 && |s[1]| == n then Letters(s[1]) == Ok(Parse(str).value.1)
      else Parse(str).value.1 == Unspecified(n)
  {
  }

  /** `Deserialize(str, mode, pairCount, slotCapacity)`: the level built from the parsed
      positions and colours. */
  function Deserialize(str: Text, mode: Propagation, pairCount: int, slotCapacity: int): (r: Result<Level>)
    ensures Parse(str).Fail? ==> r == Fail(Parse(str).fault)
    ensures Parse(str).Ok? ==> r == NewLevel(Parse(str).value.0, Parse(str).value.1, slotCapacity, pairCount, mode)
  {
    var (positions, colors) :- Parse(str);
    NewLevel(positions, colors, slotCapacity, pairCount, mode)
  }

  /** The row check counts characters only: a trailing comma with the letters run together
      (`"ab,"`) passes it and reads as `"a,b"`. */
  lemma RowCheckCountsOnly(y: Unit, a: Unit, b: Unit, z: int)
    requires IsLetter(y) && IsLetter(a) && IsLetter(b)
    ensures ParseRow([y, a, b, Comma], z) == ParseRow([y, a, Comma, b], z)
    ensures ParseRow([y, a, b, Comma], z).Ok?
  {
    assert Remove([a, b, Comma], Comma) == [a, b] by {
      RemoveAppend([a, b], [Comma], Comma);
      RemoveAbsent([a, b], Comma);
      assert [a, b, Comma] == [a, b] + [Comma];
    }
    assert Remove([a, Comma, b], Comma) == [a, b] by {
      RemoveAppend([a, Comma], [b], Comma);
      RemoveAppend([a], [Comma], Comma);
      assert [a, Comma, b] == [a, Comma] + [b] && [a, Comma] == [a] + [Comma];
    }
    assert [y, a, b, Comma][1..] == [a, b, Comma] && [y, a, Comma, b][1..] == [a, Comma, b];
  }

  /** The column part of a well-formed row: letters and commas alternating, starting and
      ending with a letter. */
  predicate Spaced(xs: Text)
    decreases |xs|
  {
    || (|xs| == 1 && xs[0] != Comma)
    || (|xs| >= 3 && xs[0] != Comma && xs[1] == Comma && Spaced(xs[2..]))
  }

  /** Dropping the commas of an alternating column part keeps every other character, and
      leaves the length the row check asks for. */
  lemma {:induction false} SpacedLetters(xs: Text)
    requires Spaced(xs)
    ensures |Remove(xs, Comma)| * 2 - 1 == |xs|
    ensures forall i | 0 <= i < |Remove(xs, Comma)| :: Remove(xs, Comma)[i] == xs[2 * i]
    decreases |xs|
  {
    if |xs| == 1 {
      assert xs[1..] == [];
    } else {
      var rest := xs[2..];
      SpacedLetters(rest);
      assert xs[1..][1..] == rest;
      assert Remove(xs[1..], Comma) == Remove(rest, Comma);
      assert Remove(xs, Comma) == [xs[0]] + Remove(rest, Comma);
      forall i | 1 <= i < |Remove(xs, Comma)|
        ensures Remove(xs, Comma)[i] == xs[2 * i]
      {
        assert Remove(xs, Comma)[i] == Remove(rest, Comma)[i - 1] == rest[2 * (i - 1)];
      }
    }
  }

  /** The row check the format evidently intends: the column letters separated by single
      commas. */
  function StrictRow(row: Text, z: int): (r: Result<seq<int>>)
    ensures r.Ok? ==> row != [] && IsLetter(row[0]) && Spaced(row[1..])
    ensures r.Ok? ==> (|r.value| * 2 == |row| &&
      forall i | 0 <= i < |r.value| ::
        Ok(r.value[i]) == CellOf(LetterToIndex(row[2 * i + 1]), LetterToIndex(row[0]).value, z))
  {
    if row == [] then Fail(IndexOutOfRange)
    else
      var y :- LetterToIndex(row[0]);
      if !Spaced(row[1..]) then Fail(InvalidOperation)
      else
        SpacedLetters(row[1..]);
        var letters := Remove(row[1..], Comma);
        var cols :- Letters(letters);
        Ok(seq(|cols|, i requires 0 <= i < |cols| => Pack(cols[i], y, z)))
  }

  /** The cell of a column letter's index on row `y` of layer `z`. */
  function CellOf(x: Result<int>, y: int, z: int): Result<int> {
    if x.Ok? then Ok(Pack(x.value, y, z)) else x
  }

  /** A row with its letters run together is refused by the intended check. */
  lemma StrictRowRefuses(y: Unit, a: Unit, b: Unit, z: int)
    requires IsLetter(y) && IsLetter(a) && IsLetter(b)
    ensures StrictRow([y, a, b, Comma], z) == Fail(InvalidOperation)
  {
    assert [y, a, b, Comma][1..] == [a, b, Comma];
    assert [a, b, Comma][2..] == [Comma];
  }

  /** On a well-formed row the source's check and the intended one agree. */
  lemma StrictRowAgrees(row: Text, z: int)
    requires row != [] && Spaced(row[1..])
    ensures StrictRow(row, z) == ParseRow(row, z)
  {
    SpacedLetters(row[1..]);
  }

  // ---------------------------------------------------------------- writing

  /** The sort key of `OrderBy(Z).ThenBy(Y).ThenBy(X)`. */
  function Key(t: Tile): int {
    PackBytes(X(t.position), Y(t.position), Z(t.position))
  }

  predicate ByKey(ts: seq<Tile>) {
    forall i, j | 0 <= i < j < |ts| :: Key(ts[i]) <= Key(ts[j])
  }

  /** The tiles of one key, in order. */
  function WithKey(ts: seq<Tile>, k: int): seq<Tile>
    decreases |ts|
  {
    if ts == [] then []
    else
      (if Key(ts[0]) == k then [ts[0]] else []) + WithKey(ts[1..], k)
  }

  /** `t` placed before the first tile whose key is not smaller. */
  function Insert(t: Tile, s: seq<Tile>): (r: seq<Tile>)
    requires ByKey(s)
    ensures ByKey(r) && multiset(r) == multiset(s) + multiset{t}
    decreases |s|
  {
    if s == [] || Key(t) <= Key(s[0]) then
      [t] + s
    else
      var rest := Insert(t, s[1..]);
      assert s == [s[0]] + s[1..];
      AllAbove(s, t, rest);
      [s[0]] + rest
  }

  /** Every tile of `rest`, the first tile's successors with `t`, has a key not below the
      first tile's. */
  lemma AllAbove(s: seq<Tile>, t: Tile, rest: seq<Tile>)
    requires ByKey(s) && s != [] && Key(s[0]) < Key(t)
    requires ByKey(rest) && multiset(rest) == multiset(s[1..]) + multiset{t}
    ensures ByKey([s[0]] + rest)
  {
    var r := [s[0]] + rest;
    forall i, j | 0 <= i < j < |r| ensures Key(r[i]) <= Key(r[j]) {
      if i == 0 {
        var u := rest[j - 1];
        assert r[j] == u;
        assert u in multiset(rest);
        if u != t {
          assert u in multiset(s[1..]);
          var m :| 0 <= m < |s[1..]| && s[1..][m] == u;
          assert s[m + 1] == u;
        }
      } else {
        assert r[i] == rest[i - 1] && r[j] == rest[j - 1];
      }
    }
  }

  lemma WithKeyCons(u: Tile, s: seq<Tile>, k: int)
    ensures WithKey([u] + s, k) == (if Key(u) == k then [u] else []) + WithKey(s, k)
  {
    assert ([u] + s)[1..] == s;
  }

  /** Inserting `t` adds it first among the tiles of its key: insertion is stable. */
  lemma {:induction false} InsertStable(t: Tile, s: seq<Tile>, k: int)
    requires ByKey(s)
    ensures WithKey(Insert(t, s), k) == (if Key(t) == k then [t] else []) + WithKey(s, k)
    decreases |s|
  {
    if s == [] || Key(t) <= Key(s[0]) {
      WithKeyCons(t, s, k);
    } else {
      assert ByKey(s[1..]);
      InsertStable(t, s[1..], k);
      var rest := Insert(t, s[1..]);
      assert Insert(t, s) == [s[0]] + rest;
      WithKeyCons(s[0], rest, k);
      WithKeyCons(s[0], s[1..], k);
      assert s == [s[0]] + s[1..];
      StableStep(t, s[0], WithKey(s[1..], k), WithKey(rest, k), k);
    }
  }

  /** Two tiles of different keys commute when filtering by one key. */
  lemma StableStep(t: Tile, u: Tile, w: seq<Tile>, v: seq<Tile>, k: int)
    requires Key(u) < Key(t)
    requires v == (if Key(t) == k then [t] else []) + w
    ensures (if Key(u) == k then [u] else []) + v ==
      (if Key(t) == k then [t] else []) + ((if Key(u) == k then [u] else []) + w)
  {
    if Key(t) == k {
      assert [] + ([t] + w) == [t] + ([] + w);
    } else if Key(u) == k {
      assert [u] + ([] + w) == [] + ([u] + w);
    } else {
      assert [] + ([] + w) == w;
    }
  }

  /** `OrderBy(z).ThenBy(y).ThenBy(x)`: the tiles sorted by key. */
  function Sort(ts: seq<Tile>): (r: seq<Tile>)
    ensures ByKey(r) && multiset(r) == multiset(ts)
    decreases |ts|
  {
    if ts == [] then []
    else
      assert ts == [ts[0]] + ts[1..];
      Insert(ts[0], Sort(ts[1..]))
  }

  /** The sort is stable: the tiles of each key keep their order. */
  lemma {:induction false} SortStable(ts: seq<Tile>, k: int)
    ensures WithKey(Sort(ts), k) == WithKey(ts, k)
    decreases |ts|
  {
    if ts != [] {
      SortStable(ts[1..], k);
      InsertStable(ts[0], Sort(ts[1..]), k);
    }
  }

  /** What the loop writes for tile `i`: all three letters for the first tile and for a new
      layer (after `;`), `y` and `x` for a new row (after `.`), `x` for a new column (after
      `,`), and nothing for a repeated position. */
  function Piece(ms: seq<Tile>, i: int): (r: Result<Text>)
    requires 0 <= i < |ms|
  {
    var p := ms[i].position;
    var x :- IndexToLetter(X(p));
    var y :- IndexToLetter(Y(p));
    var z :- IndexToLetter(Z(p));
    if i == 0 then Ok([z, y, x])
    else
      var q := ms[i - 1].position;
      if Z(p) != Z(q) then Ok([Semicolon, z, y, x])
      else if Y(p) != Y(q) then Ok([Dot, y, x])
      else if X(p) != X(q) then Ok([Comma, x])
      else Ok([])
  }

  /** The position part for the sorted tiles `ms`. */
  function PositionText(ms: seq<Tile>): (r: Result<Text>)
    ensures r.Fail? ==> r.fault == InvalidOperation
    decreases |ms|
  {
    if ms == [] then Ok([])
    else
      var front :- PositionText(ms[..|ms| - 1]);
      var piece :- Piece(ms, |ms| - 1);
      Ok(front + piece)
  }

  /** One letter per index, up to the first that has none. */
  function Spell(cs: seq<int>): (r: Result<Text>)
    ensures r.Ok? <==> forall i | 0 <= i < |cs| :: cs[i] < 62
    ensures r.Fail? ==> r.fault == InvalidOperation
    ensures r.Ok? ==> |r.value| == |cs| && forall i | 0 <= i < |cs| :: IndexToLetter(cs[i]) == Ok(r.value[i])
    decreases |cs|
  {
    if cs == [] then Ok([])
    else
      var head :- IndexToLetter(cs[0]);
      var rest :- Spell(cs[1..]);
      assert forall i | 1 <= i < |cs| :: cs[i] == cs[1..][i - 1];
      Ok([head] + rest)
  }

  /** The colours of a list of tiles. */
  function ColorsOfTiles(ts: seq<Tile>): (r: seq<int>)
    ensures |r| == |ts| && forall i | 0 <= i < |ts| :: r[i] == ts[i].color
  {
    seq(|ts|, i requires 0 <= i < |ts| => ts[i].color)
  }

  /** `Serialize(tiles)`: the positions of the sorted tiles, `:`, one colour letter per tile;
      a coordinate or colour of 62 or more has no letter. */
  function Serialize(tiles: seq<Tile>): (r: Result<Text>)
    ensures r.Fail? ==> r.fault == InvalidOperation
    ensures r.Ok? ==> (forall i | 0 <= i < |tiles| :: tiles[i].color < 62)
  {
    var ms := Sort(tiles);
    var positions :- PositionText(ms);
    var colors :- Spell(ColorsOfTiles(ms));
    assert forall i | 0 <= i < |tiles| :: tiles[i].color < 62 by {
      forall i | 0 <= i < |tiles| ensures tiles[i].color < 62 {
        assert tiles[i] in multiset(ms);
        var j :| 0 <= j < |ms| && ms[j] == tiles[i];
      }
    }
    Ok(positions + [Colon] + colors)
  }
}
