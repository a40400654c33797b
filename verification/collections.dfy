/** Sequences as enumerations of finite sets: what Go gives back when a
    function copies the keys of a map into a slice, in an order the language
    leaves unspecified. */
module Collections {

  /** No element occurs twice. */
  predicate NoDuplicates<T(==)>(xs: seq<T>) {
    forall i, j :: 0 <= i < j < |xs| ==> xs[i] != xs[j]
  }

  /** The set of elements of a sequence. */
  function Elems<T>(xs: seq<T>): set<T> {
    set x | x in xs
  }

  /** `xs` lists every member of `s` exactly once, in some order. */
  predicate IsEnumeration<T(==)>(xs: seq<T>, s: set<T>) {
    NoDuplicates(xs) && Elems(xs) == s
  }

  /** A sequence has at least as many positions as distinct elements, and
      exactly as many when no element repeats. */
  lemma {:induction false} DistinctCount<T>(xs: seq<T>)
    ensures |Elems(xs)| <= |xs|
    ensures |Elems(xs)| == |xs| <==> NoDuplicates(xs)
    decreases |xs|
  {
    if |xs| > 0 {
      var x, rest := xs[0], xs[1..];
      DistinctCount(rest);
      assert xs == [x] + rest;
      assert Elems(xs) == {x} + Elems(rest);
      if x in rest {
        RepeatedHead(xs);
        assert Elems(xs) == Elems(rest);
      } else {
        assert |Elems(xs)| == 1 + |Elems(rest)|;
        FreshHead(xs);
      }
    }
  }

  /** A head that occurs again is a duplicate. */
  lemma RepeatedHead<T>(xs: seq<T>)
    requires |xs| > 0 && xs[0] in xs[1..]
    ensures !NoDuplicates(xs)
  {
    var j :| 0 <= j < |xs[1..]| && xs[1..][j] == xs[0];
    assert xs[0] == xs[j + 1];
  }

  /** A head that does not occur again adds no duplicate. */
  lemma FreshHead<T>(xs: seq<T>)
    requires |xs| > 0 && xs[0] !in xs[1..]
    ensures NoDuplicates(xs) <==> NoDuplicates(xs[1..])
  {
    var rest := xs[1..];
    if NoDuplicates(rest) {
      forall i, j | 0 <= i < j < |xs|
        ensures xs[i] != xs[j]
      {
        if i > 0 {
          assert rest[i - 1] != rest[j - 1];
        } else {
          assert xs[j] == rest[j - 1];
        }
      }
    } else {
      var i, j :| 0 <= i < j < |rest| && rest[i] == rest[j];
      assert xs[i + 1] == xs[j + 1];
    }
  }

  /** An enumeration of a set has as many elements as the set. */
  lemma EnumerationLength<T>(xs: seq<T>, s: set<T>)
    requires IsEnumeration(xs, s)
    ensures |xs| == |s|
  {
    DistinctCount(xs);
  }

  /** Copies the members of `s` into a sequence, each exactly once, taking
      them in an arbitrary order (the order of a Go map range loop). */
  method Enumerate<T>(s: set<T>) returns (xs: seq<T>)
    ensures IsEnumeration(xs, s)
    ensures |xs| == |s|
  {
    xs := [];
    var rest := s;
    while rest != {}
      invariant rest !! Elems(xs)
      invariant Elems(xs) + rest == s
      invariant NoDuplicates(xs)
      decreases |rest|
    {
      var v :| v in rest;
      assert Elems(xs + [v]) == Elems(xs) + {v};
      xs := xs + [v];
      rest := rest - {v};
    }
    EnumerationLength(xs, s);
  }
}
