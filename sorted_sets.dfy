/** Ordered sets of naturals as strictly increasing sequences: the value of a
    `std::set<unsigned>`, and of a vector after `std::sort` and `erase(std::unique)`. */
module SortedSets {

  predicate StrictlySorted(s: seq<nat>) {
    forall i, j :: 0 <= i < j < |s| ==> s[i] < s[j]
  }

  /** `std::set::insert`: adds `x` unless it is already present, keeping the order. */
  function InsertSorted(s: seq<nat>, x: nat): (r: seq<nat>)
    requires StrictlySorted(s)
    ensures StrictlySorted(r)
    ensures forall y :: y in r <==> y in s || y == x
  {
    if s == [] then [x]
    else if x < s[0] then [x] + s
    else if x == s[0] then s
    else
      var tail := InsertSorted(s[1..], x);
      assert forall y :: y in s <==> y == s[0] || y in s[1..];
      assert forall k :: 0 <= k < |tail| ==> s[0] < tail[k] by {
        forall k | 0 <= k < |tail| ensures s[0] < tail[k] {
          assert tail[k] in tail;
        }
      }
      [s[0]] + tail
  }

  /** Sorting a sequence and dropping repeated values. */
  function SortedUnique(s: seq<nat>): (r: seq<nat>)
    ensures StrictlySorted(r)
    ensures forall y :: y in r <==> y in s
  {
    if s == [] then []
    else
      assert s == s[..|s| - 1] + [s[|s| - 1]];
      InsertSorted(SortedUnique(s[..|s| - 1]), s[|s| - 1])
  }

  /** In a strictly increasing sequence the first element is the least and the last the greatest. */
  lemma {:induction false} SortedEnds(s: seq<nat>, y: nat)
    requires StrictlySorted(s) && y in s
    ensures s[0] <= y <= s[|s| - 1]
  {
  }
}
