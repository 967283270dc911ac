/** Sets of sequence entries, used to relate the trackers' sequences to their sets. */
module Collections {

  /** The set of entries of a sequence. */
  function Elements(s: seq<nat>): (r: set<nat>)
    ensures forall x :: x in r <==> x in s
    decreases |s|
  {
    if s == [] then {} else Elements(s[..|s| - 1]) + {s[|s| - 1]}
  }

  /** No entry occurs twice: each entry is absent from the entries before it. */
  predicate Distinct(s: seq<nat>)
    decreases |s|
  {
    s == [] || (s[|s| - 1] !in s[..|s| - 1] && Distinct(s[..|s| - 1]))
  }

  /** Each entry is smaller than the next. */
  predicate Increasing(s: seq<nat>)
    decreases |s|
  {
    |s| <= 1 || (s[|s| - 2] < s[|s| - 1] && Increasing(s[..|s| - 1]))
  }

  /** A sequence in increasing order has no repeats. */
  lemma {:induction false} IncreasingDistinct(s: seq<nat>)
    requires forall a, b :: 0 <= a < b < |s| ==> s[a] < s[b]
    ensures Distinct(s)
    decreases |s|
  {
    if s != [] {
      var init := s[..|s| - 1];
      IncreasingDistinct(init);
      assert s[|s| - 1] !in init by {
        forall a | 0 <= a < |init| ensures init[a] != s[|s| - 1] {
          assert init[a] == s[a];
        }
      }
    }
  }

  /** A sequence without repeats has as many distinct elements as entries. */
  lemma {:induction false} DistinctCard(s: seq<nat>)
    requires Distinct(s)
    ensures |Elements(s)| == |s|
    decreases |s|
  {
    if s != [] {
      DistinctCard(s[..|s| - 1]);
    }
  }
}
