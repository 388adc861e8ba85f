/** A layer shadow: the occupancy of one `maxRow` x `maxCol` plane, one bit per cell,
    packed into 32-bit words. Cell (x, y) is bit `(y * maxCol + x) % 32` of word
    `(y * maxCol + x) / 32`; the z component of a packed position is ignored. */
module LayerShadows {
  import opened Outcomes
  import opened Packed
  import opened Bits
  import Masks

  const BitLength: nat := 32

  type Word = w: nat | w < 0x1_0000_0000

  datatype Shadow = Shadow(maxRow: int, maxCol: int, words: seq<Word>)

  lemma WordLimit()
    ensures Pow2(32) == 0x1_0000_0000
  {
    assert Pow2(8) == 256;
    assert Pow2(16) == 256 * 256 by {
      Pow2Add(8, 8);
    }
    Pow2Add(16, 16);
  }

  /** `(maxRow * maxCol + BitLength - 1) / BitLength` words: one bit per cell, rounded up. */
  function WordCount(rows: nat, cols: nat): (n: nat)
    ensures rows * cols <= BitLength * n < rows * cols + BitLength
  {
    (rows * cols + BitLength - 1) / BitLength
  }

  /** The dimensions are non-negative and the word array has the constructor's length. */
  predicate Sized(s: Shadow) {
    s.maxRow >= 0 && s.maxCol >= 0 && |s.words| == WordCount(s.maxRow, s.maxCol)
  }

  /** Bit `l` of the word array read as one long bit string. */
  predicate BitAt(ws: seq<Word>, l: nat)
    requires l < BitLength * |ws|
  {
    Bit(ws[l / BitLength], l % BitLength)
  }

  /** No bit from `l` to the end of the words is set. */
  predicate ClearFrom(ws: seq<Word>, l: nat)
    decreases BitLength * |ws| - l
  {
    l >= BitLength * |ws| || (!BitAt(ws, l) && ClearFrom(ws, l + 1))
  }

  lemma {:induction false} ClearFromMeans(ws: seq<Word>, l: nat)
    ensures ClearFrom(ws, l) <==> forall j: nat | l <= j < BitLength * |ws| :: !BitAt(ws, j)
    decreases BitLength * |ws| - l
  {
    if l < BitLength * |ws| {
      ClearFromMeans(ws, l + 1);
    }
  }

  /** Bits beyond the last cell are never set, so the words are determined by the cells. */
  ghost predicate Valid(s: Shadow) {
    Sized(s) && ClearFrom(s.words, s.maxRow * s.maxCol)
  }

  /** `Valid`, read as a statement about every padding bit. */
  lemma Padding(s: Shadow)
    requires Sized(s)
    ensures Valid(s) <==> forall l: nat | s.maxRow * s.maxCol <= l < BitLength * |s.words| :: !BitAt(s.words, l)
  {
    ClearFromMeans(s.words, s.maxRow * s.maxCol);
  }

  predicate InPlane(s: Shadow, x: int, y: int) {
    0 <= x < s.maxCol && 0 <= y < s.maxRow
  }

  /** The row-major linear index of a cell of the plane. */
  function Linear(s: Shadow, x: int, y: int): (l: nat)
    requires Sized(s) && InPlane(s, x, y)
    ensures l < s.maxRow * s.maxCol
    ensures l < BitLength * |s.words|
  {
    LinearBound(s.maxRow, s.maxCol, x, y);
    y * s.maxCol + x
  }

  lemma LinearBound(rows: nat, cols: nat, x: nat, y: nat)
    requires x < cols && y < rows
    ensures 0 <= y * cols + x < rows * cols
  {
    assert y * cols + x < (y + 1) * cols;
    assert (y + 1) * cols <= rows * cols;
  }

  /** Distinct cells have distinct linear indices. */
  lemma LinearInjective(s: Shadow, x: int, y: int, x': int, y': int)
    requires Sized(s) && InPlane(s, x, y) && InPlane(s, x', y')
    ensures Linear(s, x, y) == Linear(s, x', y') <==> x == x' && y == y'
  {
    if y < y' {
      RowBefore(s.maxCol, x, y, x', y');
    } else if y' < y {
      RowBefore(s.maxCol, x', y', x, y);
    }
  }

  /** A cell in an earlier row comes first in row-major order. */
  lemma RowBefore(c: int, x: int, y: int, x': int, y': int)
    requires 0 <= x < c && 0 <= x' < c && 0 <= y < y'
    ensures y * c + x < y' * c + x'
  {
    var d := y' - y;
    assert y' * c == y * c + d * c;
    Masks.MulSign(c, d);
    assert c * d == d * c;
  }

  /** Every index below `maxRow * maxCol` is the linear index of a cell. */
  lemma LinearOnto(s: Shadow, l: nat)
    requires Sized(s) && l < s.maxRow * s.maxCol
    ensures InPlane(s, l % s.maxCol, l / s.maxCol) && Linear(s, l % s.maxCol, l / s.maxCol) == l
  {
    var c := s.maxCol;
    var y := l / c;
    assert l == y * c + l % c;
  }

  /** The set of occupied cells. */
  ghost function Cells(s: Shadow): set<(int, int)>
    requires Sized(s)
  {
    set x, y | 0 <= x < s.maxCol && 0 <= y < s.maxRow && BitAt(s.words, Linear(s, x, y)) :: (x, y)
  }

  lemma CellsMember(s: Shadow, x: int, y: int)
    requires Sized(s)
    ensures (x, y) in Cells(s) <==> InPlane(s, x, y) && BitAt(s.words, Linear(s, x, y))
  {
  }

  /** The cell a packed position denotes: its x and y bytes. */
  function Cell(position: int): (int, int) {
    (X(position), Y(position))
  }

  /** The range check `GetIndexInArea` performs in DEBUG builds. */
  predicate InRange(s: Shadow, position: int) {
    InPlane(s, X(position), Y(position))
  }

  /** `new LayerShadow(maxRow, maxCol)`: no cell occupied. */
  function NewShadow(maxRow: nat, maxCol: nat): (s: Shadow)
    ensures Valid(s) && s.maxRow == maxRow && s.maxCol == maxCol
    ensures Cells(s) == {}
  {
    var s := Shadow(maxRow, maxCol, seq(WordCount(maxRow, maxCol), _ => 0));
    forall l: nat | l < BitLength * |s.words| ensures !BitAt(s.words, l) {
      ZeroBit(l % BitLength);
    }
    Padding(s);
    s
  }

  /** `Clone`: a copy with equal dimensions and words. */
  function Clone(s: Shadow): (c: Shadow)
    ensures c == s
  {
    Shadow(s.maxRow, s.maxCol, s.words[..])
  }

  /** Replacing one word by a word that differs from it at most in bit `l % 32` changes
      the long bit string at most at `l`. */
  lemma UpdateBitAt(ws: seq<Word>, l: nat, v: Word, m: nat)
    requires l < BitLength * |ws| && m < BitLength * |ws|
    requires forall i: nat | i != l % BitLength :: Bit(v, i) == Bit(ws[l / BitLength], i)
    ensures BitAt(ws[l / BitLength := v], m) == if m == l then Bit(v, l % BitLength) else BitAt(ws, m)
  {
  }

  /** `w | (1U << b)` when `on`, `w & ~(1U << b)` otherwise. */
  function WordWith(w: Word, b: nat, on: bool): (v: Word)
    requires b < BitLength
    ensures forall i: nat :: Bit(v, i) == if i == b then on else Bit(w, i)
  {
    Pow2Monotone(b, 31);
    WordLimit();
    Pow2Monotone(31, 32);
    WidthKept(w, Pow2(b), 32);
    var v := if on then Bits.Or(w, Pow2(b)) else AndNot(w, Pow2(b));
    forall i: nat ensures Bit(v, i) == if i == b then on else Bit(w, i) {
      Pow2Bit(b, i);
      if on { OrBit(w, Pow2(b), i); } else { AndNotBit(w, Pow2(b), i); }
    }
    v
  }

  /** The single-cell edit shared by `AddPosition` and `RemovePosition`: the cell's bit becomes
      `on`, every other cell keeps its bit. */
  function SetCell(s: Shadow, x: int, y: int, on: bool): (r: Shadow)
    requires Sized(s) && InPlane(s, x, y)
    ensures Sized(r) && r.maxRow == s.maxRow && r.maxCol == s.maxCol
    ensures Valid(s) ==> Valid(r)
    ensures Cells(r) == if on then Cells(s) + {(x, y)} else Cells(s) - {(x, y)}
  {
    var l := Linear(s, x, y);
    var r := s.(words := s.words[l / BitLength := WordWith(s.words[l / BitLength], l % BitLength, on)]);
    SetCellFacts(s, x, y, on, r);
    r
  }

  lemma SetCellFacts(s: Shadow, x: int, y: int, on: bool, r: Shadow)
    requires Sized(s) && InPlane(s, x, y)
    requires var l := Linear(s, x, y);
      r == s.(words := s.words[l / BitLength := WordWith(s.words[l / BitLength], l % BitLength, on)])
    ensures Valid(s) ==> Valid(r)
    ensures Cells(r) == if on then Cells(s) + {(x, y)} else Cells(s) - {(x, y)}
  {
    var l := Linear(s, x, y);
    var v := WordWith(s.words[l / BitLength], l % BitLength, on);
    Padding(s);
    Padding(r);
    if Valid(s) {
      forall m: nat | s.maxRow * s.maxCol <= m < BitLength * |r.words| ensures !BitAt(r.words, m) {
        UpdateBitAt(s.words, l, v, m);
      }
    }
    var want := if on then Cells(s) + {(x, y)} else Cells(s) - {(x, y)};
    forall x', y' ensures (x', y') in Cells(r) <==> (x', y') in want {
      CellsMember(s, x', y');
      CellsMember(r, x', y');
      if InPlane(s, x', y') {
        LinearInjective(s, x, y, x', y');
        UpdateBitAt(s.words, l, v, Linear(s, x', y'));
      }
    }
  }

  /** `AddPosition`: the position's cell becomes occupied. */
  function AddPosition(s: Shadow, position: int): (r: Shadow)
    requires Sized(s) && InRange(s, position)
    ensures Sized(r) && r.maxRow == s.maxRow && r.maxCol == s.maxCol
    ensures Valid(s) ==> Valid(r)
    ensures Cells(r) == Cells(s) + {Cell(position)}
  {
    SetCell(s, X(position), Y(position), true)
  }

  /** `RemovePosition`: the position's cell becomes free. */
  function RemovePosition(s: Shadow, position: int): (r: Shadow)
    requires Sized(s) && InRange(s, position)
    ensures Sized(r) && r.maxRow == s.maxRow && r.maxCol == s.maxCol
    ensures Valid(s) ==> Valid(r)
    ensures Cells(r) == Cells(s) - {Cell(position)}
  {
    SetCell(s, X(position), Y(position), false)
  }

  /** `IsPositionExist`: the position's cell is occupied. */
  function IsPositionExist(s: Shadow, position: int): (b: bool)
    requires Sized(s) && InRange(s, position)
    ensures b <==> Cell(position) in Cells(s)
  {
    var l := Linear(s, X(position), Y(position));
    TestBit(s.words[l / BitLength], l % BitLength);
    CellsMember(s, X(position), Y(position));
    Bits.And(s.words[l / BitLength], Pow2(l % BitLength)) != 0
  }

  /** `Clear`: every word zero. */
  function Clear(s: Shadow): (r: Shadow)
    requires Sized(s)
    ensures Valid(r) && r.maxRow == s.maxRow && r.maxCol == s.maxCol
    ensures Cells(r) == {}
  {
    NewShadow(s.maxRow, s.maxCol)
  }

  /** The size check of every binary operation: word arrays of different lengths throw. */
  function SameSize(a: Shadow, b: Shadow): (r: Result<()>)
    ensures r.Ok? <==> |a.words| == |b.words|
    ensures r.Fail? ==> r.fault == Argument
  {
    Need(|a.words| == |b.words|, Argument)
  }

  /** `CopyFrom`: the receiver takes the other shadow's words and keeps its own dimensions. */
  function CopyFrom(s: Shadow, other: Shadow): (r: Result<Shadow>)
    ensures r.Ok? <==> |s.words| == |other.words|
    ensures r.Fail? ==> r.fault == Argument
    ensures r.Ok? ==> r.value.words == other.words && r.value.maxRow == s.maxRow && r.value.maxCol == s.maxCol
    ensures r.Ok? && other.maxRow == s.maxRow && other.maxCol == s.maxCol ==> r.value == other
  {
    var _ :- SameSize(s, other);
    Ok(s.(words := other.words))
  }

  function OrWord(a: Word, b: Word): (r: Word)
    ensures forall i: nat :: Bit(r, i) == (Bit(a, i) || Bit(b, i))
  {
    WordLimit();
    WidthKept(a, b, 32);
    forall i: nat ensures Bit(Bits.Or(a, b), i) == (Bit(a, i) || Bit(b, i)) {
      OrBit(a, b, i);
    }
    Bits.Or(a, b)
  }

  function AndWord(a: Word, b: Word): (r: Word)
    ensures forall i: nat :: Bit(r, i) == (Bit(a, i) && Bit(b, i))
  {
    WordLimit();
    WidthKept(a, b, 32);
    forall i: nat ensures Bit(Bits.And(a, b), i) == (Bit(a, i) && Bit(b, i)) {
      AndBit(a, b, i);
    }
    Bits.And(a, b)
  }

  /** `Or` / `OrWith`: the cell-wise union, with the receiver's dimensions. In value
      semantics the fresh-result and in-place variants are the same function. */
  function Or(a: Shadow, b: Shadow): (r: Result<Shadow>)
    ensures r.Ok? <==> |a.words| == |b.words|
    ensures r.Fail? ==> r.fault == Argument
    ensures r.Ok? ==> r.value.maxRow == a.maxRow && r.value.maxCol == a.maxCol && |r.value.words| == |a.words|
    ensures r.Ok? ==> forall l: nat | l < BitLength * |a.words| ::
      BitAt(r.value.words, l) == (BitAt(a.words, l) || BitAt(b.words, l))
  {
    var _ :- SameSize(a, b);
    Ok(a.(words := seq(|a.words|, i requires 0 <= i < |a.words| => OrWord(a.words[i], b.words[i]))))
  }

  /** `And` / `AndWith`: the cell-wise intersection, with the receiver's dimensions. */
  function And(a: Shadow, b: Shadow): (r: Result<Shadow>)
    ensures r.Ok? <==> |a.words| == |b.words|
    ensures r.Fail? ==> r.fault == Argument
    ensures r.Ok? ==> r.value.maxRow == a.maxRow && r.value.maxCol == a.maxCol && |r.value.words| == |a.words|
    ensures r.Ok? ==> forall l: nat | l < BitLength * |a.words| ::
      BitAt(r.value.words, l) == (BitAt(a.words, l) && BitAt(b.words, l))
  {
    var _ :- SameSize(a, b);
    Ok(a.(words := seq(|a.words|, i requires 0 <= i < |a.words| => AndWord(a.words[i], b.words[i]))))
  }

  /** Shadows of one plane: same dimensions and both valid. */
  ghost predicate Compatible(a: Shadow, b: Shadow) {
    Valid(a) && Valid(b) && a.maxRow == b.maxRow && a.maxCol == b.maxCol
  }

  /** On one plane, `Or` is the union of the occupied cells and stays valid. */
  lemma OrCells(a: Shadow, b: Shadow)
    requires Compatible(a, b)
    ensures Or(a, b).Ok? && Valid(Or(a, b).value) && Cells(Or(a, b).value) == Cells(a) + Cells(b)
  {
    var r := Or(a, b).value;
    Padding(a);
    Padding(b);
    Padding(r);
    forall x, y ensures (x, y) in Cells(r) <==> (x, y) in Cells(a) + Cells(b) {
      CellsMember(a, x, y);
      CellsMember(b, x, y);
      CellsMember(r, x, y);
    }
  }

  /** On one plane, `And` is the intersection of the occupied cells and stays valid. */
  lemma AndCells(a: Shadow, b: Shadow)
    requires Compatible(a, b)
    ensures And(a, b).Ok? && Valid(And(a, b).value) && Cells(And(a, b).value) == Cells(a) * Cells(b)
  {
    var r := And(a, b).value;
    Padding(a);
    Padding(b);
    Padding(r);
    forall x, y ensures (x, y) in Cells(r) <==> (x, y) in Cells(a) * Cells(b) {
      CellsMember(a, x, y);
      CellsMember(b, x, y);
      CellsMember(r, x, y);
    }
  }

  /** The set bits among the first `n` words. */
  function PopUpTo(ws: seq<Word>, n: nat): nat
    requires n <= |ws|
  {
    if n == 0 then 0 else PopUpTo(ws, n - 1) + Pop(ws[n - 1])
  }

  /** `PopCount`: the sum of the word popcounts. */
  function PopCount(s: Shadow): nat {
    PopUpTo(s.words, |s.words|)
  }

  /** Some word among the first `n` shares a bit. */
  function AnyOverlap(a: seq<Word>, b: seq<Word>, n: nat): bool
    requires |a| == |b| && n <= |a|
  {
    n > 0 && (AnyOverlap(a, b, n - 1) || Bits.And(a[n - 1], b[n - 1]) != 0)
  }

  /** `Intersects`: some word pair has a common bit. */
  function Intersects(a: Shadow, b: Shadow): (r: Result<bool>)
    ensures r.Ok? <==> |a.words| == |b.words|
    ensures r.Fail? ==> r.fault == Argument
  {
    var _ :- SameSize(a, b);
    Ok(AnyOverlap(a.words, b.words, |a.words|))
  }

  /** The common bits among the first `n` word pairs. */
  function AndPopUpTo(a: seq<Word>, b: seq<Word>, n: nat): nat
    requires |a| == |b| && n <= |a|
  {
    if n == 0 then 0 else AndPopUpTo(a, b, n - 1) + Pop(Bits.And(a[n - 1], b[n - 1]))
  }

  /** `IntersectCount`: the sum of the popcounts of the word-wise conjunctions. */
  function IntersectCount(a: Shadow, b: Shadow): (r: Result<nat>)
    ensures r.Ok? <==> |a.words| == |b.words|
    ensures r.Fail? ==> r.fault == Argument
  {
    var _ :- SameSize(a, b);
    Ok(AndPopUpTo(a.words, b.words, |a.words|))
  }

  /** A word is non-zero iff one of its 32 bits is set. */
  lemma WordNonZero(w: Word)
    ensures w != 0 <==> exists i: nat :: i < BitLength && Bit(w, i)
  {
    if w != 0 {
      WordLimit();
      SomeBitBelow(w, 32);
    } else {
      forall i: nat ensures !Bit(w, i) {
        ZeroBit(i);
      }
    }
  }

  /** The first `n` words hold a set bit iff their popcount is positive. */
  lemma {:induction false} PopUpToPositive(ws: seq<Word>, n: nat)
    requires n <= |ws|
    ensures PopUpTo(ws, n) > 0 <==> exists l: nat :: l < BitLength * n && BitAt(ws, l)
  {
    if n > 0 {
      PopUpToPositive(ws, n - 1);
      var w := ws[n - 1];
      WordNonZero(w);
      PopZero(w);
      if w != 0 {
        var i: nat :| i < BitLength && Bit(w, i);
        var l := BitLength * (n - 1) + i;
        assert l / BitLength == n - 1 && l % BitLength == i;
        assert BitAt(ws, l);
      }
      if PopUpTo(ws, n) > 0 {
      } else {
        forall l: nat | l < BitLength * n ensures !BitAt(ws, l) {
          if l >= BitLength * (n - 1) {
            assert l / BitLength == n - 1;
            ZeroBit(l % BitLength);
          }
        }
      }
    }
  }

  /** `IntersectCount(o)` is the popcount of `And(o)`. */
  lemma {:induction false} AndPopUpToIsPop(a: seq<Word>, b: seq<Word>, r: seq<Word>, n: nat)
    requires |a| == |b| == |r| && n <= |a|
    requires forall i | 0 <= i < |a| :: r[i] == Bits.And(a[i], b[i])
    ensures AndPopUpTo(a, b, n) == PopUpTo(r, n)
  {
    if n > 0 {
      AndPopUpToIsPop(a, b, r, n - 1);
    }
  }

  lemma IntersectCountIsPopCountOfAnd(a: Shadow, b: Shadow)
    requires |a.words| == |b.words|
    ensures IntersectCount(a, b).value == PopCount(And(a, b).value)
  {
    AndPopUpToIsPop(a.words, b.words, And(a, b).value.words, |a.words|);
  }

  lemma {:induction false} AnyOverlapIsPositive(a: seq<Word>, b: seq<Word>, n: nat)
    requires |a| == |b| && n <= |a|
    ensures AnyOverlap(a, b, n) <==> AndPopUpTo(a, b, n) > 0
  {
    if n > 0 {
      AnyOverlapIsPositive(a, b, n - 1);
      PopZero(Bits.And(a[n - 1], b[n - 1]));
    }
  }

  /** `Intersects(o)` holds iff `IntersectCount(o) > 0`. */
  lemma IntersectsIffCount(a: Shadow, b: Shadow)
    requires |a.words| == |b.words|
    ensures Intersects(a, b).value <==> IntersectCount(a, b).value > 0
  {
    AnyOverlapIsPositive(a.words, b.words, |a.words|);
  }

  /** The bits of `b` split into the bits shared with `a` and the bits outside `a`. */
  lemma {:induction false} CountSplit(a: seq<Word>, b: seq<Word>, n: nat)
    requires |a| == |b| && n <= |a|
    ensures AndPopUpTo(a, b, n) + PopUpTo(AndNotWords(b, a), n) == PopUpTo(b, n)
    ensures AndPopUpTo(a, b, n) == AndPopUpTo(b, a, n)
  {
    if n > 0 {
      CountSplit(a, b, n - 1);
      PopSplit(a[n - 1], b[n - 1]);
      AndCommutes(a[n - 1], b[n - 1]);
    }
  }

  lemma AndCommutes(a: nat, b: nat)
    ensures Bits.And(a, b) == Bits.And(b, a)
  {
    forall i: nat ensures Bit(Bits.And(a, b), i) == Bit(Bits.And(b, a), i) {
      AndBit(a, b, i);
      AndBit(b, a, i);
    }
    BitsEqual(Bits.And(a, b), Bits.And(b, a));
  }

  function AndNotWord(a: Word, b: Word): (r: Word)
    ensures r == AndNot(a, b)
    ensures forall i: nat :: Bit(r, i) == (Bit(a, i) && !Bit(b, i))
  {
    WordLimit();
    WidthKept(a, b, 32);
    forall i: nat ensures Bit(AndNot(a, b), i) == (Bit(a, i) && !Bit(b, i)) {
      AndNotBit(a, b, i);
    }
    AndNot(a, b)
  }

  /** `b & ~a` word by word: the bits of `b` not covered by `a`. */
  function AndNotWords(b: seq<Word>, a: seq<Word>): (r: seq<Word>)
    requires |a| == |b|
    ensures |r| == |b|
    ensures forall i | 0 <= i < |b| :: r[i] == AndNot(b[i], a[i])
    ensures forall l: nat | l < BitLength * |b| :: BitAt(r, l) == (BitAt(b, l) && !BitAt(a, l))
  {
    seq(|b|, i requires 0 <= i < |b| => AndNotWord(b[i], a[i]))
  }

  /** The overlap is bounded by each operand's popcount. */
  lemma IntersectCountBounds(a: Shadow, b: Shadow)
    requires |a.words| == |b.words|
    ensures IntersectCount(a, b).value <= PopCount(a)
    ensures IntersectCount(a, b).value <= PopCount(b)
  {
    CountSplit(a.words, b.words, |a.words|);
    CountSplit(b.words, a.words, |a.words|);
  }

  /** A set bit of a valid shadow is the bit of an occupied cell. */
  lemma BitIsCell(s: Shadow, l: nat)
    requires Valid(s) && l < BitLength * |s.words| && BitAt(s.words, l)
    ensures l < s.maxRow * s.maxCol && (l % s.maxCol, l / s.maxCol) in Cells(s)
  {
    Padding(s);
    LinearOnto(s, l);
    CellsMember(s, l % s.maxCol, l / s.maxCol);
  }

  /** On one plane, `Intersects` holds iff the shadows share an occupied cell. */
  lemma IntersectsCells(a: Shadow, b: Shadow)
    requires Compatible(a, b)
    ensures Intersects(a, b).value <==> Cells(a) * Cells(b) != {}
  {
    IntersectsIffCount(a, b);
    IntersectCountIsPopCountOfAnd(a, b);
    var r := And(a, b).value;
    PopUpToPositive(r.words, |r.words|);
    AndCells(a, b);
    if Intersects(a, b).value {
      var l: nat :| l < BitLength * |r.words| && BitAt(r.words, l);
      BitIsCell(r, l);
    }
  }

  /** On one plane, fewer covered than occupied cells of `b` means some cell of `b` is
      not occupied in `a`: the visibility test of the board. */
  lemma UncoveredCells(a: Shadow, b: Shadow)
    requires Compatible(a, b)
    ensures IntersectCount(a, b).value < PopCount(b) <==> !(Cells(b) <= Cells(a))
  {
    CountSplit(a.words, b.words, |a.words|);
    var d := AndNotWords(b.words, a.words);
    PopUpToPositive(d, |d|);
    if IntersectCount(a, b).value < PopCount(b) {
      var l: nat :| l < BitLength * |d| && BitAt(d, l);
      BitIsCell(b, l);
      LinearOnto(b, l);
      CellsMember(a, l % b.maxCol, l / b.maxCol);
    } else if !(Cells(b) <= Cells(a)) {
      var c :| c in Cells(b) && c !in Cells(a);
      UncoveredBit(a, b, d, c);
      assert false;
    }
  }

  lemma UncoveredBit(a: Shadow, b: Shadow, d: seq<Word>, c: (int, int))
    requires Compatible(a, b) && d == AndNotWords(b.words, a.words)
    requires c in Cells(b) && c !in Cells(a)
    ensures exists l: nat :: l < BitLength * |d| && BitAt(d, l)
  {
    CellsMember(a, c.0, c.1);
    CellsMember(b, c.0, c.1);
    var l := Linear(b, c.0, c.1);
    assert BitAt(d, l);
  }

  /** A valid shadow is determined by its plane and its occupied cells. */
  lemma CellsDetermine(a: Shadow, b: Shadow)
    requires Compatible(a, b) && Cells(a) == Cells(b)
    ensures a == b
  {
    forall w | 0 <= w < |a.words| ensures a.words[w] == b.words[w] {
      forall i: nat ensures Bit(a.words[w], i) == Bit(b.words[w], i) {
        SameBit(a, b, w, i);
      }
      BitsEqual(a.words[w], b.words[w]);
    }
  }

  lemma SameBit(a: Shadow, b: Shadow, w: nat, i: nat)
    requires Compatible(a, b) && Cells(a) == Cells(b) && w < |a.words|
    ensures Bit(a.words[w], i) == Bit(b.words[w], i)
  {
    Padding(a);
    Padding(b);
    if i < BitLength {
      var l: nat := BitLength * w + i;
      assert l / BitLength == w && l % BitLength == i;
      if l < a.maxRow * a.maxCol {
        LinearOnto(a, l);
        CellsMember(a, l % a.maxCol, l / a.maxCol);
        CellsMember(b, l % a.maxCol, l / a.maxCol);
      } else {
        assert !BitAt(a.words, l) && !BitAt(b.words, l);
      }
    } else {
      WordLimit();
      BelowPow2(a.words[w], 32);
      BelowPow2(b.words[w], 32);
    }
  }

  /** A cleared shadow has no set bit. */
  lemma ClearPopCount(s: Shadow)
    requires Sized(s)
    ensures PopCount(Clear(s)) == 0
  {
    var r := Clear(s);
    PopUpToPositive(r.words, |r.words|);
    if PopCount(r) > 0 {
      var l: nat :| l < BitLength * |r.words| && BitAt(r.words, l);
      BitIsCell(r, l);
    }
  }
}
