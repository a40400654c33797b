/** A set of strings (utils/set.go). Go keeps the members as the keys of a
    `map[string]bool` whose values are always `true`; here they are a set. */
module StringSet {
  import opened Collections

  datatype Set = Set(data: set<string>)

  /** `Length`: the number of members. */
  function Length(s: Set): nat {
    |s.data|
  }

  /** `NewSet`: no members. */
  function NewSet(): (r: Set)
    ensures forall v :: v !in r.data
    ensures Length(r) == 0
  {
    Set({})
  }

  /** `Add`: `v` becomes a member, no other membership changes, and the length
      grows by one exactly when `v` was not yet a member. */
  function Add(s: Set, v: string): (r: Set)
    ensures v in r.data
    ensures forall w :: w != v ==> (w in r.data <==> w in s.data)
    ensures Length(r) == if v in s.data then Length(s) else Length(s) + 1
  {
    if v in s.data then
      assert s.data + {v} == s.data;
      Set(s.data + {v})
    else
      Set(s.data + {v})
  }

  /** `Remove`: `v` stops being a member, no other membership changes, and
      removing a value that is not a member changes nothing. */
  function Remove(s: Set, v: string): (r: Set)
    ensures v !in r.data
    ensures forall w :: w != v ==> (w in r.data <==> w in s.data)
    ensures v !in s.data ==> r == s
    ensures Length(r) == if v in s.data then Length(s) - 1 else Length(s)
  {
    Set(s.data - {v})
  }

  /** The loop of `NewSetFromSlice`: add the values one by one, in order. */
  function AddAll(s: Set, xs: seq<string>): (r: Set)
    ensures r.data == s.data + Elems(xs)
    decreases |xs|
  {
    if |xs| == 0 then s
    else
      var r := AddAll(Add(s, xs[0]), xs[1..]);
      assert Elems(xs) == {xs[0]} + Elems(xs[1..]);
      r
  }

  /** `NewSetFromSlice`: the members are exactly the values of the slice. */
  function NewSetFromSlice(xs: seq<string>): (r: Set)
    ensures r.data == Elems(xs)
  {
    AddAll(NewSet(), xs)
  }

  /** A set built from a slice is no longer than the slice, and exactly as
      long when the slice has no repeated value. */
  lemma FromSliceLength(xs: seq<string>)
    ensures Length(NewSetFromSlice(xs)) <= |xs|
    ensures Length(NewSetFromSlice(xs)) == |xs| <==> NoDuplicates(xs)
  {
    DistinctCount(xs);
  }

  /** Adding then removing a value that was not a member gives back the set;
      adding a member again changes nothing. */
  lemma AddRemove(s: Set, v: string)
    ensures v !in s.data ==> Remove(Add(s, v), v) == s
    ensures v in s.data ==> Add(s, v) == s
  {
    if v !in s.data {
      assert (s.data + {v}) - {v} == s.data;
    }
  }

  /** `Values`: every member exactly once, in the arbitrary order of a Go map
      range loop, as many values as the set's length. */
  method Values(s: Set) returns (vs: seq<string>)
    ensures IsEnumeration(vs, s.data)
    ensures |vs| == Length(s)
  {
    vs := Enumerate(s.data);
  }
}
