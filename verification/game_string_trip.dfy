/** Reading a serialised board back: for tiles on distinct cells whose coordinates and
    colours all have letters, `Deserialize(Serialize(tiles))` builds the level from the same
    cells and colours, in (z, y, x) order. */
module GameStringTrip {
  import opened Outcomes
  import opened Packed
  import opened Tiles
  import opened ShadowManager
  import opened Levels
  import opened Texts
  import opened GameStrings

  /** The cell the string stores for a tile: its position's three bytes. */
  function Cell(t: Tile): int {
    Pack(X(t.position), Y(t.position), Z(t.position))
  }

  function CellsOf(ts: seq<Tile>): (r: seq<int>)
    ensures |r| == |ts| && forall i | 0 <= i < |ts| :: r[i] == Cell(ts[i])
  {
    seq(|ts|, i requires 0 <= i < |ts| => Cell(ts[i]))
  }

  function Last<T>(s: seq<T>): T
    requires s != []
  {
    s[|s| - 1]
  }

  /** The letter of a coordinate or colour that has one. */
  function Letter(i: int): Unit
    requires 0 <= i < 62
  {
    IndexToLetter(i).value
  }

  // ---------------------------------------------------------------- reading pieces

  /** One row is read as that row. */
  lemma RowsOne(r: Text, z: int)
    ensures ParseRows([r], z) == ParseRow(r, z)
  {
    assert [r][0] == r && |[r][1..]| == 0;
    if ParseRow(r, z).Ok? {
      assert ParseRow(r, z).value + [] == ParseRow(r, z).value;
    }
  }

  /** One layer is read as that layer. */
  lemma LayersOne(l: Text)
    ensures ParseLayers([l]) == ParseLayer(l)
  {
    assert [l][0] == l && |[l][1..]| == 0;
    if ParseLayer(l).Ok? {
      assert ParseLayer(l).value + [] == ParseLayer(l).value;
    }
  }

  /** The rows read so far and one more. */
  lemma {:induction false} RowsSnoc(rs: seq<Text>, r: Text, z: int)
    ensures ParseRows(rs + [r], z).Ok? <==> ParseRows(rs, z).Ok? && ParseRow(r, z).Ok?
    ensures ParseRows(rs, z).Ok? && ParseRow(r, z).Ok? ==>
      ParseRows(rs + [r], z) == Ok(ParseRows(rs, z).value + ParseRow(r, z).value)
    decreases |rs|
  {
    if rs == [] {
      assert rs + [r] == [r];
      RowsOne(r, z);
      if ParseRow(r, z).Ok? {
        assert [] + ParseRow(r, z).value == ParseRow(r, z).value;
      }
    } else {
      var t := rs + [r];
      assert t[0] == rs[0] && t[1..] == rs[1..] + [r];
      RowsSnoc(rs[1..], r, z);
      var h, b := ParseRow(rs[0], z), ParseRows(rs[1..], z);
      if h.Ok? && b.Ok? && ParseRow(r, z).Ok? {
        assert h.value + (b.value + ParseRow(r, z).value) == h.value + b.value + ParseRow(r, z).value;
      }
    }
  }

  /** The layers read so far and one more. */
  lemma {:induction false} LayersSnoc(ls: seq<Text>, l: Text)
    ensures ParseLayers(ls + [l]).Ok? <==> ParseLayers(ls).Ok? && ParseLayer(l).Ok?
    ensures ParseLayers(ls).Ok? && ParseLayer(l).Ok? ==>
      ParseLayers(ls + [l]) == Ok(ParseLayers(ls).value + ParseLayer(l).value)
    decreases |ls|
  {
    if ls == [] {
      assert ls + [l] == [l];
      LayersOne(l);
      if ParseLayer(l).Ok? {
        assert [] + ParseLayer(l).value == ParseLayer(l).value;
      }
    } else {
      var t := ls + [l];
      assert t[0] == ls[0];
      DropAppend(ls, [l], 1);
      LayersSnoc(ls[1..], l);
      var h, b := ParseLayer(ls[0]), ParseLayers(ls[1..]);
      if h.Ok? && b.Ok? && ParseLayer(l).Ok? {
        Associative(h.value, b.value, ParseLayer(l).value);
      }
    }
  }

  /** Replacing the last row by one that reads `c` more. */
  lemma RowsExtend(rs: seq<Text>, r: Text, r': Text, z: int, c: seq<int>)
    requires ParseRows(rs, z).Ok? && ParseRow(r, z).Ok? && ParseRow(r', z) == Ok(ParseRow(r, z).value + c)
    ensures ParseRows(rs + [r], z).Ok? && ParseRows(rs + [r'], z) == Ok(ParseRows(rs + [r], z).value + c)
  {
    RowsSnoc(rs, r, z);
    RowsSnoc(rs, r', z);
    var a, b := ParseRows(rs, z).value, ParseRow(r, z).value;
    assert a + (b + c) == a + b + c;
  }

  /** Replacing the last layer by one that reads `c` more. */
  lemma LayersExtend(ls: seq<Text>, l: Text, l': Text, c: seq<int>)
    requires ParseLayers(ls).Ok? && ParseLayer(l).Ok? && ParseLayer(l') == Ok(ParseLayer(l).value + c)
    ensures ParseLayers(ls + [l]).Ok? && ParseLayers(ls + [l']) == Ok(ParseLayers(ls + [l]).value + c)
  {
    LayersSnoc(ls, l);
    LayersSnoc(ls, l');
    var a, b := ParseLayers(ls).value, ParseLayer(l).value;
    assert a + (b + c) == a + b + c;
  }

  /** What a letter is not: a separator or a trimmed character. */
  lemma LetterFacts(i: int)
    requires 0 <= i < 62
    ensures IsLetter(Letter(i)) && LetterToIndex(Letter(i)) == Ok(i)
    ensures Letter(i) !in {Comma, Dot, Semicolon, Colon} && Letter(i) !in Trimmed
  {
    LetterOfIndex(i);
  }

  /** A row of one tile. */
  lemma SingleRow(x: int, y: int, z: int)
    requires 0 <= x < 62 && 0 <= y < 62
    ensures ParseRow([Letter(y), Letter(x)], z) == Ok([Pack(x, y, z)])
  {
    var lx, ly := Letter(x), Letter(y);
    LetterFacts(x);
    LetterFacts(y);
    var row: Text := [ly, lx];
    assert row[1..] == [lx];
    RemoveAbsent([lx], Comma);
    var cols := Letters([lx]);
    assert cols.Ok? && cols.value[0] == x;
    assert cols.value == [x];
    assert row != [] && LetterToIndex(row[0]) == Ok(y);
    assert Remove(row[1..], Comma) == [lx];
    assert |[lx]| * 2 - 1 == |row[1..]|;
    var r := ParseRow(row, z);
    assert r == Ok(seq(1, i requires 0 <= i < 1 => Pack([x][i], y, z)));
    assert |r.value| == 1 && r.value[0] == Pack(x, y, z);
    assert r.value == [Pack(x, y, z)];
  }

  /** A layer of one tile. */
  lemma SingleLayer(x: int, y: int, z: int)
    requires 0 <= x < 62 && 0 <= y < 62 && 0 <= z < 62
    ensures ParseLayer([Letter(z), Letter(y), Letter(x)]) == Ok([Pack(x, y, z)])
    ensures Split([Letter(z), Letter(y), Letter(x)][1..], Dot) == [[Letter(y), Letter(x)]]
  {
    var lx, ly, lz := Letter(x), Letter(y), Letter(z);
    var l: Text := [lz, ly, lx];
    LetterFacts(x);
    LetterFacts(y);
    LetterFacts(z);
    var row: Text := [ly, lx];
    assert l[1..] == row;
    SplitPlain(row, Dot);
    SingleRow(x, y, z);
    RowsOne(row, z);
  }

  /** The letters read so far and one more. */
  lemma LettersSnoc(a: Text, u: Unit)
    requires Letters(a).Ok? && IsLetter(u)
    ensures Letters(a + [u]) == Ok(Letters(a).value + [LetterToIndex(u).value])
  {
    var b := a + [u];
    assert forall i | 0 <= i < |a| :: b[i] == a[i];
    assert b[|a|] == u;
    var v, w := Letters(b), Letters(a).value + [LetterToIndex(u).value];
    assert v.Ok? && |v.value| == |w|;
    forall i | 0 <= i < |w|
      ensures v.value[i] == w[i]
    {
      assert Ok(v.value[i]) == LetterToIndex(b[i]);
      if i < |a| {
        assert Ok(Letters(a).value[i]) == LetterToIndex(a[i]);
      }
    }
    assert v.value == w;
  }

  /** A row with one more column letter after a comma reads one more cell. */
  lemma RowExtend(row: Text, z: int, x: int)
    requires ParseRow(row, z).Ok? && 0 <= x < 62
    ensures row != [] && LetterToIndex(row[0]).Ok?
    ensures ParseRow(row + [Comma, Letter(x)], z) ==
      Ok(ParseRow(row, z).value + [Pack(x, LetterToIndex(row[0]).value, z)])
  {
    var lx := Letter(x);
    LetterFacts(x);
    var y := LetterToIndex(row[0]).value;
    var row' := row + [Comma, lx];
    assert row'[0] == row[0] && row'[1..] == row[1..] + [Comma, lx];
    RemoveAppend(row[1..], [Comma, lx], Comma);
    assert Remove([Comma, lx], Comma) == [lx] by {
      assert [Comma, lx][1..] == [lx];
      RemoveAbsent([lx], Comma);
    }
    var letters := Remove(row[1..], Comma);
    assert Remove(row'[1..], Comma) == letters + [lx];
    var cols := Letters(letters).value;
    LettersSnoc(letters, lx);
    var old_ := ParseRow(row, z).value;
    var new_ := ParseRow(row', z).value;
    assert |new_| == |old_| + 1;
    assert forall i | 0 <= i < |old_| :: new_[i] == old_[i];
    assert new_[|old_|] == Pack(x, y, z);
    assert new_ == old_ + [Pack(x, y, z)];
  }

  // ---------------------------------------------------------------- the loop, on text

  /** The last row of a layer. */
  function LastRow(layer: Text): Text
    requires layer != []
  {
    Last(Split(layer[1..], Dot))
  }

  /** `text` reads back as `cells`, holds no `:` and starts with a letter; its last layer is
      layer `z` and that layer's last row is row `y`, a row that reads. */
  ghost predicate Reads(text: Text, cells: seq<int>, z: int, y: int) {
    && text != [] && IsLetter(text[0]) && Colon !in text
    && ParseLayers(Split(text, Semicolon)) == Ok(cells)
    && var layer := Last(Split(text, Semicolon));
       && layer != [] && LetterToIndex(layer[0]) == Ok(z)
       && LastRow(layer) != [] && LetterToIndex(LastRow(layer)[0]) == Ok(y)
       && ParseRow(LastRow(layer), z).Ok?
  }

  /** The text of the first tile. */
  lemma TextFirst(x: int, y: int, z: int)
    requires 0 <= x < 62 && 0 <= y < 62 && 0 <= z < 62
    ensures Reads([Letter(z), Letter(y), Letter(x)], [Pack(x, y, z)], z, y)
  {
    var l: Text := [Letter(z), Letter(y), Letter(x)];
    LetterFacts(x);
    LetterFacts(y);
    LetterFacts(z);
    SplitPlain(l, Semicolon);
    LayersOne(l);
    SingleLayer(x, y, z);
    SingleRow(x, y, z);
  }

  /** A tile on a new layer: `;` and all three letters. */
  lemma TextLayer(text: Text, cells: seq<int>, z: int, y: int, x': int, y': int, z': int)
    requires Reads(text, cells, z, y) && 0 <= x' < 62 && 0 <= y' < 62 && 0 <= z' < 62
    ensures Reads(text + [Semicolon, Letter(z'), Letter(y'), Letter(x')], cells + [Pack(x', y', z')], z', y')
  {
    var l: Text := [Letter(z'), Letter(y'), Letter(x')];
    LetterFacts(x');
    LetterFacts(y');
    LetterFacts(z');
    var text' := text + [Semicolon, Letter(z'), Letter(y'), Letter(x')];
    assert text' == text + [Semicolon] + l;
    SplitSep(text, l, Semicolon);
    SplitPlain(l, Semicolon);
    var ls := Split(text, Semicolon);
    assert Split(text', Semicolon) == ls + [l];
    SingleLayer(x', y', z');
    SingleRow(x', y', z');
    LayersSnoc(ls, l);
    assert text'[0] == text[0];
  }

  /** A layer that starts with the letter of `z` reads its rows on layer `z`. */
  lemma LayerRows(layer: Text, z: int)
    requires layer != [] && LetterToIndex(layer[0]) == Ok(z)
    ensures ParseLayer(layer) == ParseRows(Split(layer[1..], Dot), z)
  {
  }

  /** A text that reads reads its last layer. */
  lemma LastLayerReads(text: Text)
    requires ParseLayers(Split(text, Semicolon)).Ok?
    ensures ParseLayer(Last(Split(text, Semicolon))).Ok?
  {
    var ls := Split(text, Semicolon);
    assert ls == ls[..|ls| - 1] + [Last(ls)];
    LayersSnoc(ls[..|ls| - 1], Last(ls));
  }

  /** A layer that reads reads its last row. */
  lemma LastRowReads(layer: Text, z: int)
    requires layer != [] && ParseRows(Split(layer[1..], Dot), z).Ok?
    ensures ParseRow(LastRow(layer), z).Ok?
  {
    var rs := Split(layer[1..], Dot);
    assert rs == rs[..|rs| - 1] + [Last(rs)];
    RowsSnoc(rs[..|rs| - 1], Last(rs), z);
  }

  /** Text without `;` appended to a text extends its last layer, and what the longer layer
      reads more the whole text reads more. */
  lemma LastLayerExtend(text: Text, piece: Text, c: seq<int>)
    requires Semicolon !in piece && ParseLayers(Split(text, Semicolon)).Ok?
    requires ParseLayer(Last(Split(text, Semicolon))).Ok?
    requires ParseLayer(Last(Split(text, Semicolon)) + piece) == Ok(ParseLayer(Last(Split(text, Semicolon))).value + c)
    ensures Last(Split(text + piece, Semicolon)) == Last(Split(text, Semicolon)) + piece
    ensures ParseLayers(Split(text + piece, Semicolon)) == Ok(ParseLayers(Split(text, Semicolon)).value + c)
  {
    var ls := Split(text, Semicolon);
    var n := |ls|;
    SplitExtend(text, piece, Semicolon);
    assert ls == ls[..n - 1] + [ls[n - 1]];
    LayersSnoc(ls[..n - 1], ls[n - 1]);
    LayersExtend(ls[..n - 1], ls[n - 1], ls[n - 1] + piece, c);
  }

  /** Text without `.` appended to a layer extends its last row, and what the longer row reads
      more the layer reads more. */
  lemma LastRowExtend(layer: Text, piece: Text, z: int, c: seq<int>)
    requires layer != [] && Dot !in piece && ParseRows(Split(layer[1..], Dot), z).Ok?
    requires ParseRow(LastRow(layer), z).Ok?
    requires ParseRow(LastRow(layer) + piece, z) == Ok(ParseRow(LastRow(layer), z).value + c)
    ensures (layer + piece)[0] == layer[0] && LastRow(layer + piece) == LastRow(layer) + piece
    ensures ParseRows(Split((layer + piece)[1..], Dot), z) == Ok(ParseRows(Split(layer[1..], Dot), z).value + c)
  {
    var rs := Split(layer[1..], Dot);
    var m := |rs|;
    DropAppend(layer, piece, 1);
    SplitExtend(layer[1..], piece, Dot);
    assert rs == rs[..m - 1] + [rs[m - 1]];
    RowsSnoc(rs[..m - 1], rs[m - 1], z);
    RowsExtend(rs[..m - 1], rs[m - 1], rs[m - 1] + piece, z, c);
  }

  /** A `.` and a row of one tile appended to a layer add that row. */
  lemma LayerNewRow(layer: Text, z: int, x: int, y: int)
    requires layer != [] && ParseRows(Split(layer[1..], Dot), z).Ok? && 0 <= x < 62 && 0 <= y < 62
    ensures (layer + [Dot, Letter(y), Letter(x)])[0] == layer[0]
    ensures LastRow(layer + [Dot, Letter(y), Letter(x)]) == [Letter(y), Letter(x)]
    ensures ParseRows(Split((layer + [Dot, Letter(y), Letter(x)])[1..], Dot), z) ==
      Ok(ParseRows(Split(layer[1..], Dot), z).value + [Pack(x, y, z)])
  {
    LetterFacts(x);
    LetterFacts(y);
    var r: Text := [Letter(y), Letter(x)];
    var layer' := layer + [Dot, Letter(y), Letter(x)];
    assert layer'[1..] == layer[1..] + [Dot] + r;
    SplitSep(layer[1..], r, Dot);
    SplitPlain(r, Dot);
    SingleRow(x, y, z);
    RowsSnoc(Split(layer[1..], Dot), r, z);
  }

  /** A tile on a new row of the same layer: `.` and the `y` and `x` letters. */
  lemma TextRow(text: Text, cells: seq<int>, z: int, y: int, x': int, y': int)
    requires Reads(text, cells, z, y) && 0 <= x' < 62 && 0 <= y' < 62
    ensures Reads(text + [Dot, Letter(y'), Letter(x')], cells + [Pack(x', y', z)], z, y')
  {
    LetterFacts(x');
    LetterFacts(y');
    var piece: Text := [Dot, Letter(y'), Letter(x')];
    var layer := Last(Split(text, Semicolon));
    LastLayerReads(text);
    LayerRows(layer, z);
    LayerNewRow(layer, z, x', y');
    LayerRows(layer + piece, z);
    SingleRow(x', y', z);
    LastLayerExtend(text, piece, [Pack(x', y', z)]);
    assert (text + piece)[0] == text[0];
  }

  /** A tile on a new column of the same row: `,` and the `x` letter. */
  lemma TextColumn(text: Text, cells: seq<int>, z: int, y: int, x': int)
    requires Reads(text, cells, z, y) && 0 <= x' < 62
    ensures Reads(text + [Comma, Letter(x')], cells + [Pack(x', y, z)], z, y)
  {
    LetterFacts(x');
    var piece: Text := [Comma, Letter(x')];
    var layer := Last(Split(text, Semicolon));
    var row := LastRow(layer);
    LastLayerReads(text);
    LayerRows(layer, z);
    RowExtend(row, z, x');
    LastRowExtend(layer, piece, z, [Pack(x', y, z)]);
    LayerRows(layer + piece, z);
    RowExtend(row, z, x');
    LastLayerExtend(text, piece, [Pack(x', y, z)]);
    assert (row + piece)[0] == row[0];
    assert (text + piece)[0] == text[0];
  }

  // ---------------------------------------------------------------- the loop, on tiles

  /** The tile's coordinates all have letters. */
  predicate LetteredTile(t: Tile) {
    X(t.position) < 62 && Y(t.position) < 62 && Z(t.position) < 62
  }

  /** Every coordinate of every tile has a letter. */
  predicate Lettered(ts: seq<Tile>) {
    forall i | 0 <= i < |ts| :: LetteredTile(ts[i])
  }

  /** What the loop has written for `ms` reads back as their cells. */
  ghost predicate ReadsBack(ms: seq<Tile>) {
    && ms != [] && PositionText(ms).Ok?
    && Reads(PositionText(ms).value, CellsOf(ms), Z(Last(ms).position), Y(Last(ms).position))
  }

  lemma CellsSnoc(ms: seq<Tile>, t: Tile)
    ensures CellsOf(ms + [t]) == CellsOf(ms) + [Cell(t)]
  {
  }

  /** The first tile. */
  lemma ReadsBackOne(t: Tile)
    requires LetteredTile(t)
    ensures ReadsBack([t])
  {
    var p := t.position;
    LetterFacts(X(p));
    LetterFacts(Y(p));
    LetterFacts(Z(p));
    assert [t][..0] == [];
    var l: Text := [Letter(Z(p)), Letter(Y(p)), Letter(X(p))];
    assert Piece([t], 0) == Ok(l);
    assert PositionText([t]) == Ok([] + l);
    assert [] + l == l;
    TextFirst(X(p), Y(p), Z(p));
    assert CellsOf([t]) == [Pack(X(p), Y(p), Z(p))];
  }

  /** One more tile, on a cell other than the last one's. */
  lemma ReadsBackSnoc(ms: seq<Tile>, t: Tile)
    requires ReadsBack(ms) && LetteredTile(t) && Key(Last(ms)) != Key(t)
    ensures ReadsBack(ms + [t])
  {
    var p, q := t.position, Last(ms).position;
    LetterFacts(X(p));
    LetterFacts(Y(p));
    LetterFacts(Z(p));
    var ms' := ms + [t];
    assert ms'[..|ms|] == ms && ms'[|ms| - 1] == Last(ms) && ms'[|ms|] == t;
    var text := PositionText(ms).value;
    var x, y, z := Letter(X(p)), Letter(Y(p)), Letter(Z(p));
    var cells := CellsOf(ms);
    CellsSnoc(ms, t);
    if Z(p) != Z(q) {
      assert Piece(ms', |ms|) == Ok([Semicolon, z, y, x]);
      TextLayer(text, cells, Z(q), Y(q), X(p), Y(p), Z(p));
    } else if Y(p) != Y(q) {
      assert Piece(ms', |ms|) == Ok([Dot, y, x]);
      TextRow(text, cells, Z(q), Y(q), X(p), Y(p));
    } else {
      assert X(p) != X(q);
      assert Piece(ms', |ms|) == Ok([Comma, x]);
      TextColumn(text, cells, Z(q), Y(q), X(p));
    }
  }

  /** Neighbouring tiles are on different cells. */
  predicate Apart(ms: seq<Tile>) {
    forall i | 0 < i < |ms| :: Key(ms[i - 1]) != Key(ms[i])
  }

  /** The loop over tiles on different cells writes a text that reads back as their cells. */
  lemma {:induction false} ReadsBackAll(ms: seq<Tile>)
    requires ms != [] && Lettered(ms) && Apart(ms)
    ensures ReadsBack(ms)
    decreases |ms|
  {
    var t := Last(ms);
    if |ms| == 1 {
      assert ms == [t];
      ReadsBackOne(t);
    } else {
      var front := ms[..|ms| - 1];
      assert Lettered(front) && Apart(front) by {
        assert forall i | 0 <= i < |front| :: front[i] == ms[i];
      }
      ReadsBackAll(front);
      assert ms == front + [t];
      assert Last(front) == ms[|ms| - 2];
      ReadsBackSnoc(front, t);
    }
  }

  // ---------------------------------------------------------------- distinct cells

  /** No two tiles share a cell. */
  predicate Distinct(ts: seq<Tile>) {
    forall i, j | 0 <= i < j < |ts| :: Key(ts[i]) != Key(ts[j])
  }

  lemma {:induction false} WithKeyNone(ts: seq<Tile>, k: int)
    requires forall i | 0 <= i < |ts| :: Key(ts[i]) != k
    ensures WithKey(ts, k) == []
    decreases |ts|
  {
    if ts != [] {
      assert forall i | 0 <= i < |ts| - 1 :: ts[1..][i] == ts[i + 1];
      WithKeyNone(ts[1..], k);
    }
  }

  /** Tiles on distinct cells hold at most one tile of each key. */
  lemma {:induction false} DistinctFew(ts: seq<Tile>, k: int)
    requires Distinct(ts)
    ensures |WithKey(ts, k)| <= 1
    decreases |ts|
  {
    if ts != [] {
      assert forall i | 0 <= i < |ts| - 1 :: ts[1..][i] == ts[i + 1];
      if Key(ts[0]) == k {
        WithKeyNone(ts[1..], k);
      } else {
        DistinctFew(ts[1..], k);
      }
    }
  }

  lemma {:induction false} WithKeyOne(ts: seq<Tile>, j: int)
    requires 0 <= j < |ts|
    ensures |WithKey(ts, Key(ts[j]))| >= 1
    decreases |ts|
  {
    if j > 0 {
      assert ts[1..][j - 1] == ts[j];
      WithKeyOne(ts[1..], j - 1);
    }
  }

  /** Two tiles of one key are both kept by the filter on that key. */
  lemma {:induction false} WithKeyTwo(ts: seq<Tile>, i: int, j: int)
    requires 0 <= i < j < |ts|
    ensures Key(ts[i]) == Key(ts[j]) ==> |WithKey(ts, Key(ts[j]))| >= 2
    decreases |ts|
  {
    assert ts[1..][j - 1] == ts[j];
    if i > 0 {
      assert ts[1..][i - 1] == ts[i];
      WithKeyTwo(ts[1..], i - 1, j - 1);
    } else {
      WithKeyOne(ts[1..], j - 1);
    }
  }

  /** Sorting tiles on distinct cells leaves no two neighbours on one cell. */
  lemma SortedApart(tiles: seq<Tile>)
    requires Distinct(tiles)
    ensures Apart(Sort(tiles))
  {
    var ms := Sort(tiles);
    forall i | 0 < i < |ms|
      ensures Key(ms[i - 1]) != Key(ms[i])
    {
      WithKeyTwo(ms, i - 1, i);
      SortStable(tiles, Key(ms[i]));
      DistinctFew(tiles, Key(ms[i]));
    }
  }

  /** Sorting keeps a property every tile has. */
  lemma SortedTiles(tiles: seq<Tile>)
    ensures forall i | 0 <= i < |Sort(tiles)| :: exists j | 0 <= j < |tiles| :: Sort(tiles)[i] == tiles[j]
  {
    var ms := Sort(tiles);
    forall i | 0 <= i < |ms|
      ensures exists j | 0 <= j < |tiles| :: ms[i] == tiles[j]
    {
      assert ms[i] in multiset(tiles);
    }
  }

  // ---------------------------------------------------------------- the whole string

  /** A letter is never trimmed. */
  lemma LetterKept(u: Unit)
    requires IsLetter(u)
    ensures u !in Trimmed && u != Colon
  {
  }

  /** The colour letters read back as the colours. */
  lemma ColorsReadBack(cs: seq<int>)
    requires forall i | 0 <= i < |cs| :: 0 <= cs[i] < 62
    ensures Spell(cs).Ok? && Letters(Spell(cs).value) == Ok(cs)
  {
    var t := Spell(cs).value;
    forall i | 0 <= i < |cs|
      ensures IsLetter(t[i]) && LetterToIndex(t[i]) == Ok(cs[i])
    {
      LetterOfIndex(cs[i]);
    }
    var r := Letters(t).value;
    assert forall i | 0 <= i < |cs| :: Ok(r[i]) == LetterToIndex(t[i]);
    assert r == cs;
  }

  /** Positions and colours joined by `:` split back apart once nothing is trimmed. */
  lemma SplitWhole(pos: Text, col: Text)
    requires pos != [] && col != [] && IsLetter(pos[0]) && IsLetter(Last(col))
    requires Colon !in pos && Colon !in col
    ensures Split(Trim(pos + [Colon] + col, Trimmed), Colon) == [pos, col]
  {
    var str := pos + [Colon] + col;
    LetterKept(pos[0]);
    LetterKept(Last(col));
    assert str[0] == pos[0] && str[|str| - 1] == Last(col);
    TrimKeeps(str, Trimmed);
    SplitSep(pos, col, Colon);
    SplitPlain(pos, Colon);
    SplitPlain(col, Colon);
  }

  /** `Parse` of a string whose two parts read as `cells` and, one letter per cell, `cs`. */
  lemma ParseParts(str: Text, pos: Text, col: Text, cells: seq<int>, cs: seq<int>)
    requires Split(Trim(str, Trimmed), Colon) == [pos, col]
    requires ParsePositions(pos) == Ok(cells) && |col| == |cells| && Letters(col) == Ok(cs)
    ensures Parse(str) == Ok((cells, cs))
  {
  }

  /** Tiles on distinct cells whose coordinates and colours all have letters serialise,
      and the string parses back as the cells and colours of the sorted tiles. */
  lemma SerializeParse(tiles: seq<Tile>)
    requires tiles != [] && Lettered(tiles) && Distinct(tiles)
    requires forall i | 0 <= i < |tiles| :: 0 <= tiles[i].color < 62
    ensures Serialize(tiles).Ok?
    ensures Parse(Serialize(tiles).value) == Ok((CellsOf(Sort(tiles)), ColorsOfTiles(Sort(tiles))))
  {
    var ms := Sort(tiles);
    SortedTiles(tiles);
    assert Lettered(ms);
    var cs := ColorsOfTiles(ms);
    assert forall i | 0 <= i < |cs| :: 0 <= cs[i] < 62;
    SortedApart(tiles);
    ReadsBackAll(ms);
    ColorsReadBack(cs);
    var pos, col := PositionText(ms).value, Spell(cs).value;
    var str := pos + [Colon] + col;
    assert Serialize(tiles) == Ok(str);
    assert IsLetter(Last(col));
    assert Colon !in col by {
      forall i | 0 <= i < |col| ensures col[i] != Colon {
        LetterKept(col[i]);
      }
    }
    SplitWhole(pos, col);
    ParseParts(str, pos, col, CellsOf(ms), cs);
  }

  /** Deserialising the string builds the level from the sorted tiles' cells and colours. */
  lemma DeserializeSerialize(tiles: seq<Tile>, mode: Propagation, pairCount: int, slotCapacity: int)
    requires tiles != [] && Lettered(tiles) && Distinct(tiles)
    requires forall i | 0 <= i < |tiles| :: 0 <= tiles[i].color < 62
    ensures Serialize(tiles).Ok?
    ensures Deserialize(Serialize(tiles).value, mode, pairCount, slotCapacity) ==
      NewLevel(CellsOf(Sort(tiles)), ColorsOfTiles(Sort(tiles)), slotCapacity, pairCount, mode)
  {
    SerializeParse(tiles);
  }

  // ---------------------------------------------------------------- nothing is lost

  /** Each tile's cell and colour. */
  function Placements(ts: seq<Tile>): (r: seq<(int, int)>)
    ensures |r| == |ts| && forall i | 0 <= i < |ts| :: r[i] == (Cell(ts[i]), ts[i].color)
  {
    seq(|ts|, i requires 0 <= i < |ts| => (Cell(ts[i]), ts[i].color))
  }

  lemma PlacementsCons(t: Tile, s: seq<Tile>)
    ensures Placements([t] + s) == [(Cell(t), t.color)] + Placements(s)
  {
  }

  lemma {:induction false} InsertPlacements(t: Tile, s: seq<Tile>)
    requires ByKey(s)
    ensures multiset(Placements(Insert(t, s))) == multiset(Placements(s)) + multiset{(Cell(t), t.color)}
    decreases |s|
  {
    if s == [] || Key(t) <= Key(s[0]) {
      PlacementsCons(t, s);
    } else {
      var h, rest := s[0], s[1..];
      assert ByKey(rest);
      var ins := Insert(t, rest);
      assert Insert(t, s) == [h] + ins;
      InsertPlacements(t, rest);
      PlacementsCons(h, ins);
      PlacementsHead(s);
    }
  }

  /** Sorting keeps every tile's cell and colour, as often as they occur. */
  lemma {:induction false} SortPlacements(ts: seq<Tile>)
    ensures multiset(Placements(Sort(ts))) == multiset(Placements(ts))
    decreases |ts|
  {
    if ts != [] {
      var t, rest := ts[0], ts[1..];
      var sorted := Sort(rest);
      assert Sort(ts) == Insert(t, sorted);
      SortPlacements(rest);
      InsertPlacements(t, sorted);
      PlacementsHead(ts);
    }
  }

  /** The placements of a non-empty list: its head's and its tail's. */
  lemma PlacementsHead(ts: seq<Tile>)
    requires ts != []
    ensures multiset(Placements(ts)) == multiset(Placements(ts[1..])) + multiset{(Cell(ts[0]), ts[0].color)}
  {
    assert ts == [ts[0]] + ts[1..];
    PlacementsCons(ts[0], ts[1..]);
  }

  /** A packed position is its own cell. */
  lemma CellOfPacked(t: Tile)
    requires 0 <= t.position < 0x100_0000
    ensures Cell(t) == t.position
  {
    PackUnpack(t.position);
  }
}
