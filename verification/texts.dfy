/** .NET strings as sequences of UTF-16 code units, with the `String` methods the level
    codec uses: `Split` on one separator, `Trim` of a set of characters, and removing every
    occurrence of one character. */
module Texts {

  /** One UTF-16 code unit, what a C# `char` holds. */
  type Unit = u: int | 0 <= u < 0x1_0000

  /** A C# `string`. */
  type Text = seq<Unit>

  /** `String.Join(sep, parts)`. */
  function Join(parts: seq<Text>, sep: Unit): Text
    requires |parts| >= 1
  {
    if |parts| == 1 then parts[0] else parts[0] + [sep] + Join(parts[1..], sep)
  }

  /** `s.Split(sep)`: the pieces between separators, empty pieces kept, at least one. */
  function Split(t: Text, sep: Unit): (r: seq<Text>)
    ensures |r| >= 1
    ensures forall i | 0 <= i < |r| :: sep !in r[i]
    ensures Join(r, sep) == t
    decreases |t|
  {
    if t == [] then [[]]
    else
      var rest := Split(t[1..], sep);
      if t[0] == sep then
        assert Join([[]] + rest, sep) == [sep] + Join(rest, sep) by {
          assert ([[]] + rest)[1..] == rest;
        }
        [[]] + rest
      else
        var r := [[t[0]] + rest[0]] + rest[1..];
        assert Join(r, sep) == [t[0]] + Join(rest, sep) by {
          if |rest| > 1 {
            assert r[1..] == rest[1..];
          }
        }
        r
  }

  /** A text without the separator is one piece. */
  lemma {:induction false} SplitPlain(a: Text, sep: Unit)
    requires sep !in a
    ensures Split(a, sep) == [a]
    decreases |a|
  {
    if a != [] {
      SplitPlain(a[1..], sep);
      assert a == [a[0]] + a[1..];
    }
  }

  /** A separator between two texts separates their pieces. */
  lemma {:induction false} SplitSep(a: Text, b: Text, sep: Unit)
    ensures Split(a + [sep] + b, sep) == Split(a, sep) + Split(b, sep)
    decreases |a|
  {
    var t := a + [sep] + b;
    if a == [] {
      assert t[1..] == b;
    } else {
      assert t[1..] == a[1..] + [sep] + b;
      SplitSep(a[1..], b, sep);
    }
  }

  /** The first character either closes an empty first piece or begins the first piece. */
  lemma SplitCons(c: Unit, t: Text, sep: Unit)
    ensures Split([c] + t, sep) ==
      if c == sep then [[]] + Split(t, sep) else [[c] + Split(t, sep)[0]] + Split(t, sep)[1..]
  {
    assert ([c] + t)[1..] == t;
  }

  /** Text without the separator appended to a text extends its last piece. */
  lemma {:induction false} SplitExtend(a: Text, b: Text, sep: Unit)
    requires sep !in b
    ensures Split(a + b, sep) ==
      Split(a, sep)[..|Split(a, sep)| - 1] + [Split(a, sep)[|Split(a, sep)| - 1] + b]
    decreases |a|
  {
    if a == [] {
      assert a + b == b;
      SplitPlain(b, sep);
    } else {
      var c, a' := a[0], a[1..];
      assert a == [c] + a';
      assert a + b == [c] + (a' + b);
      SplitExtend(a', b, sep);
      SplitCons(c, a' + b, sep);
      SplitCons(c, a', sep);
      var s' := Split(a', sep);
      var n := |s'|;
      var r := Split(a' + b, sep);
      assert r == s'[..n - 1] + [s'[n - 1] + b];
      if c == sep {
        var sa := [[]] + s';
        assert Split(a, sep) == sa;
        assert sa[..n] == [[]] + s'[..n - 1] && sa[n] == s'[n - 1];
        assert Split(a + b, sep) == [[]] + r;
      } else if n == 1 {
        assert r == [s'[0] + b];
        assert Split(a + b, sep) == [[c] + (s'[0] + b)];
        assert [c] + (s'[0] + b) == [c] + s'[0] + b;
      } else {
        var sa := [[c] + s'[0]] + s'[1..];
        assert Split(a, sep) == sa;
        assert sa[..n - 1] == [[c] + s'[0]] + s'[1..n - 1] && sa[n - 1] == s'[n - 1];
        assert r[0] == s'[0] && r[1..] == s'[1..n - 1] + [s'[n - 1] + b];
        assert Split(a + b, sep) == [[c] + r[0]] + r[1..];
      }
    }
  }

  /** Splitting undoes joining pieces that hold no separator. */
  lemma {:induction false} SplitJoin(parts: seq<Text>, sep: Unit)
    requires |parts| >= 1
    requires forall i | 0 <= i < |parts| :: sep !in parts[i]
    ensures Split(Join(parts, sep), sep) == parts
    decreases |parts|
  {
    if |parts| == 1 {
      SplitPlain(parts[0], sep);
    } else {
      SplitJoin(parts[1..], sep);
      SplitSep(parts[0], Join(parts[1..], sep), sep);
      SplitPlain(parts[0], sep);
    }
  }

  /** `s.TrimStart(cut)`: the suffix left once the leading characters of `cut` are gone. */
  function TrimStart(t: Text, cut: set<Unit>): (r: Text)
    ensures |r| <= |t| && r == t[|t| - |r|..]
    ensures forall i | 0 <= i < |t| - |r| :: t[i] in cut
    ensures r != [] ==> r[0] !in cut
    decreases |t|
  {
    if t != [] && t[0] in cut then TrimStart(t[1..], cut) else t
  }

  /** `s.TrimEnd(cut)`: the prefix left once the trailing characters of `cut` are gone. */
  function TrimEnd(t: Text, cut: set<Unit>): (r: Text)
    ensures |r| <= |t| && r == t[..|r|]
    ensures forall i | |r| <= i < |t| :: t[i] in cut
    ensures r != [] ==> r[|r| - 1] !in cut
    decreases |t|
  {
    if t != [] && t[|t| - 1] in cut then TrimEnd(t[..|t| - 1], cut) else t
  }

  /** `s.Trim(cut)`. */
  function Trim(t: Text, cut: set<Unit>): Text {
    TrimEnd(TrimStart(t, cut), cut)
  }

  /** A text that neither starts nor ends with a character of `cut` is its own trim. */
  lemma TrimKeeps(t: Text, cut: set<Unit>)
    requires t != [] && t[0] !in cut && t[|t| - 1] !in cut
    ensures Trim(t, cut) == t
  {
    assert TrimStart(t, cut) == t;
  }

  /** `s.Replace(c, "")`: the text without the character `c`, in order. */
  function Remove(t: Text, c: Unit): (r: Text)
    ensures |r| <= |t|
    ensures forall u :: u in r <==> u in t && u != c
    decreases |t|
  {
    if t == [] then []
    else
      var rest := Remove(t[1..], c);
      assert forall u | u in t :: u == t[0] || u in t[1..];
      (if t[0] == c then [] else [t[0]]) + rest
  }

  /** Removing from a concatenation removes from each part. */
  lemma {:induction false} RemoveAppend(a: Text, b: Text, c: Unit)
    ensures Remove(a + b, c) == Remove(a, c) + Remove(b, c)
    decreases |a|
  {
    if a != [] {
      var t := a + b;
      assert t[1..] == a[1..] + b && t[0] == a[0] && t != [];
      RemoveAppend(a[1..], b, c);
      var h := if a[0] == c then [] else [a[0]];
      assert Remove(a, c) == h + Remove(a[1..], c);
      assert Remove(t, c) == h + Remove(t[1..], c);
      assert h + Remove(a[1..], c) + Remove(b, c) == h + (Remove(a[1..], c) + Remove(b, c));
    } else {
      assert a + b == b;
    }
  }

  /** Removing a character the text does not hold leaves it unchanged. */
  lemma {:induction false} RemoveAbsent(t: Text, c: Unit)
    requires c !in t
    ensures Remove(t, c) == t
    decreases |t|
  {
    if t != [] {
      RemoveAbsent(t[1..], c);
      assert t == [t[0]] + t[1..];
    }
  }
}
