/** The `Dictionary<char, int>` the colour builder keeps: its entries in enumeration order.
    An update of a present key keeps its place, a new key goes last and a removal closes the
    gap; the slot reuse of .NET's free list is not modelled. */
module Dictionaries {
  import opened Texts
  import opened SequenceBuilder

  /** `d.ContainsKey(c)`. */
  predicate Has(d: seq<Entry>, c: Unit)
    decreases |d|
  {
    d != [] && (d[0].0 == c || Has(d[1..], c))
  }

  /** `d.GetValueOrDefault(c)`: the value of the first entry of `c`, or 0. */
  function Value(d: seq<Entry>, c: Unit): int
    decreases |d|
  {
    if d == [] then 0
    else if d[0].0 == c then d[0].1
    else Value(d[1..], c)
  }

  /** `d[c] = v`: the entry of `c` takes the value in place, or a new entry goes last. */
  function Put(d: seq<Entry>, c: Unit, v: int): seq<Entry>
    decreases |d|
  {
    if d == [] then [(c, v)]
    else if d[0].0 == c then [(c, v)] + d[1..]
    else [d[0]] + Put(d[1..], c, v)
  }

  /** `d.Remove(c)`. */
  function Drop(d: seq<Entry>, c: Unit): seq<Entry>
    decreases |d|
  {
    if d == [] then []
    else if d[0].0 == c then d[1..]
    else [d[0]] + Drop(d[1..], c)
  }

  /** `d.Values.Sum()`. */
  function Sum(d: seq<Entry>): int
    decreases |d|
  {
    if d == [] then 0 else d[0].1 + Sum(d[1..])
  }

  /** No key has two entries. */
  predicate Unique(d: seq<Entry>)
    decreases |d|
  {
    d == [] || (!Has(d[1..], d[0].0) && Unique(d[1..]))
  }

  /** A key is present exactly when it is among the keys `d.Keys` lists. */
  lemma {:induction false} HasMeans(d: seq<Entry>, c: Unit)
    ensures Has(d, c) <==> c in Keys(d)
    decreases |d|
  {
    if d != [] {
      HasMeans(d[1..], c);
      assert Keys(d) == [d[0].0] + Keys(d[1..]);
    }
  }

  /** A missing key reads as 0. */
  lemma {:induction false} ValueMissing(d: seq<Entry>, c: Unit)
    requires !Has(d, c)
    ensures Value(d, c) == 0
    decreases |d|
  {
    if d != [] {
      ValueMissing(d[1..], c);
    }
  }

  /** A key that reads other than 0 is present. */
  lemma {:induction false} ValuePresent(d: seq<Entry>, c: Unit)
    requires Value(d, c) != 0
    ensures Has(d, c)
    decreases |d|
  {
    if d[0].0 != c {
      ValuePresent(d[1..], c);
    }
  }

  /** After `d[c] = v`, `c` reads `v` and every other key reads as before. */
  lemma {:induction false} ValuePut(d: seq<Entry>, c: Unit, v: int, x: Unit)
    ensures Value(Put(d, c, v), x) == if x == c then v else Value(d, x)
    decreases |d|
  {
    if d != [] && d[0].0 != c {
      ValuePut(d[1..], c, v, x);
    }
  }

  /** After `d[c] = v`, the keys are those of `d` and `c`. */
  lemma {:induction false} HasPut(d: seq<Entry>, c: Unit, v: int, x: Unit)
    ensures Has(Put(d, c, v), x) <==> x == c || Has(d, x)
    decreases |d|
  {
    if d != [] && d[0].0 != c {
      HasPut(d[1..], c, v, x);
    }
  }

  /** `d[c] = v` adds an entry only for a new key and keeps the keys distinct. */
  lemma {:induction false} PutShape(d: seq<Entry>, c: Unit, v: int)
    requires Unique(d)
    ensures Unique(Put(d, c, v))
    ensures |Put(d, c, v)| == if Has(d, c) then |d| else |d| + 1
    decreases |d|
  {
    if d != [] && d[0].0 != c {
      PutShape(d[1..], c, v);
      HasPut(d[1..], c, v, d[0].0);
    }
  }

  /** `d[c] = v` changes the total by the difference of the values. */
  lemma {:induction false} SumPut(d: seq<Entry>, c: Unit, v: int)
    requires Unique(d)
    ensures Sum(Put(d, c, v)) == Sum(d) - Value(d, c) + v
    decreases |d|
  {
    if d != [] {
      if d[0].0 == c {
        ValueMissing(d[1..], c);
      } else {
        SumPut(d[1..], c, v);
      }
    }
  }

  /** After `d.Remove(c)`, `c` is gone and every other key reads as before. */
  lemma {:induction false} DropMeans(d: seq<Entry>, c: Unit, x: Unit)
    requires Unique(d)
    ensures Has(Drop(d, c), x) <==> x != c && Has(d, x)
    ensures Value(Drop(d, c), x) == if x == c then 0 else Value(d, x)
    decreases |d|
  {
    if d != [] {
      if d[0].0 == c {
        if x == c {
          ValueMissing(d[1..], c);
        }
      } else {
        DropMeans(d[1..], c, x);
      }
    }
  }

  /** `d.Remove(c)` removes the entry of a present key and keeps the keys distinct. */
  lemma {:induction false} DropShape(d: seq<Entry>, c: Unit)
    requires Unique(d)
    ensures Unique(Drop(d, c))
    ensures |Drop(d, c)| == if Has(d, c) then |d| - 1 else |d|
    ensures Sum(Drop(d, c)) == Sum(d) - Value(d, c)
    decreases |d|
  {
    if d != [] {
      if d[0].0 == c {
        ValueMissing(d[1..], c);
      } else {
        DropShape(d[1..], c);
        DropMeans(d[1..], c, d[0].0);
      }
    }
  }

  /** The entries of a dictionary have distinct keys. */
  lemma {:induction false} DistinctUnique(d: seq<Entry>)
    requires DistinctKeys(d)
    ensures Unique(d)
    decreases |d|
  {
    if d != [] {
      var rest := d[1..];
      assert DistinctKeys(rest) by {
        forall i, j | 0 <= i < j < |rest| ensures rest[i].0 != rest[j].0 {
          assert rest[i] == d[i + 1] && rest[j] == d[j + 1];
        }
      }
      DistinctUnique(rest);
      HasMeans(rest, d[0].0);
      forall j | 0 <= j < |rest| ensures Keys(rest)[j] != d[0].0 {
        assert rest[j] == d[j + 1];
      }
    }
  }

  /** Positive values make the total at least the number of entries. */
  lemma {:induction false} SumPositive(d: seq<Entry>)
    requires forall i | 0 <= i < |d| :: d[i].1 > 0
    ensures Sum(d) >= |d|
    decreases |d|
  {
    if d != [] {
      assert forall i | 0 <= i < |d[1..]| :: d[1..][i].1 > 0 by {
        forall i | 0 <= i < |d[1..]| ensures d[1..][i].1 > 0 {
          assert d[1..][i] == d[i + 1];
        }
      }
      SumPositive(d[1..]);
    }
  }

  /** Values bounded by `b` bound the total by `b` per entry. */
  lemma {:induction false} SumAtMost(d: seq<Entry>, b: int)
    requires forall i | 0 <= i < |d| :: d[i].1 <= b
    ensures Sum(d) <= |d| * b
    decreases |d|
  {
    if d != [] {
      assert forall i | 0 <= i < |d[1..]| :: d[1..][i].1 <= b by {
        forall i | 0 <= i < |d[1..]| ensures d[1..][i].1 <= b {
          assert d[1..][i] == d[i + 1];
        }
      }
      SumAtMost(d[1..], b);
    }
  }

  /** Under distinct keys, each entry's value is the value of its key. */
  lemma {:induction false} ValueAt(d: seq<Entry>, i: int)
    requires Unique(d) && 0 <= i < |d|
    ensures Has(d, d[i].0) && Value(d, d[i].0) == d[i].1
    decreases |d|
  {
    if i > 0 {
      ValueAt(d[1..], i - 1);
      assert d[1..][i - 1] == d[i];
    }
  }
}
