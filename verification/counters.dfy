/** Colour counters kept as dictionaries from a key to a positive count.
    The C# code removes an entry when its count drops to zero, so such a dictionary
    is exactly the multiplicity function of a multiset restricted to its support. */
module Counters {

  /** `counter` records the multiplicities of `bag`: a key is present iff it occurs,
      and then its value is its number of occurrences. */
  ghost predicate Tallies<T(!new)>(counter: map<T, int>, bag: multiset<T>) {
    && (forall c :: c in counter <==> bag[c] > 0)
    && (forall c | c in counter :: counter[c] == bag[c])
  }

  /** `TryGetValue(c, out n) ? n + 1 : 1`, stored back under `c`. */
  function Inc<T(!new)>(counter: map<T, int>, c: T): (r: map<T, int>)
    ensures c in r
    ensures forall d | d != c :: (d in r <==> d in counter) && (d in counter ==> r[d] == counter[d])
  {
    if c in counter then counter[c := counter[c] + 1] else counter[c := 1]
  }

  /** `n = counter[c] - 1; if n == 0 remove c else store n`. The key must be present
      (the C# indexer throws `KeyNotFoundException` otherwise). */
  function Dec<T(!new)>(counter: map<T, int>, c: T): (r: map<T, int>)
    requires c in counter
    ensures forall d | d != c :: (d in r <==> d in counter) && (d in counter ==> r[d] == counter[d])
    ensures c in r <==> counter[c] != 1
  {
    if counter[c] - 1 == 0 then counter - {c} else counter[c := counter[c] - 1]
  }

  lemma IncTallies<T(!new)>(counter: map<T, int>, bag: multiset<T>, c: T)
    requires Tallies(counter, bag)
    ensures Tallies(Inc(counter, c), bag + multiset{c})
  {
  }

  lemma DecTallies<T(!new)>(counter: map<T, int>, bag: multiset<T>, c: T)
    requires Tallies(counter, bag)
    requires c in bag
    ensures c in counter
    ensures Tallies(Dec(counter, c), bag - multiset{c})
  {
  }

  lemma EmptyTallies<T(!new)>()
    ensures Tallies<T>(map[], multiset{})
  {
  }

  /** A tally determines its multiset. */
  lemma TalliesUnique<T(!new)>(counter: map<T, int>, a: multiset<T>, b: multiset<T>)
    requires Tallies(counter, a) && Tallies(counter, b)
    ensures a == b
  {
    forall c ensures a[c] == b[c] {
      if c in counter {
      } else {
        assert a[c] == 0 && b[c] == 0;
      }
    }
  }

  /** ... and a multiset determines its tally. */
  lemma TallyOfUnique<T(!new)>(c1: map<T, int>, c2: map<T, int>, bag: multiset<T>)
    requires Tallies(c1, bag) && Tallies(c2, bag)
    ensures c1 == c2
  {
  }

  /** `Dec` undoes `Inc` on a counter that holds no zero for the key. */
  lemma DecInc<T(!new)>(counter: map<T, int>, c: T)
    requires c in counter ==> counter[c] != 0
    ensures Dec(Inc(counter, c), c) == counter
  {
  }

  /** `Inc` undoes `Dec`. */
  lemma IncDec<T(!new)>(counter: map<T, int>, c: T)
    requires c in counter
    ensures Inc(Dec(counter, c), c) == counter
  {
  }

  /** Taking every copy of `c` out of a bag drops `c` from its tally and keeps every other
      count. */
  lemma TalliesRemoveAll<T(!new)>(before: map<T, int>, after: map<T, int>, rest: multiset<T>, c: T, n: nat)
    requires Tallies(before, rest + multiset{}[c := n]) && Tallies(after, rest) && rest[c] == 0
    ensures c !in after
    ensures forall d | d != c :: (d in after <==> d in before) && (d in before ==> after[d] == before[d])
  {
    forall d | d != c ensures (rest + multiset{}[c := n])[d] == rest[d] {
    }
  }
}
