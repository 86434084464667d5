/**
 * The preferred-size list of the crop node: sorted ascending, then searched for
 * the first size larger than the tight extent of the masked area.
 */
module Sizes {
  import opened Wrappers

  predicate Ascending(s: seq<int>)
  {
    forall i, j :: 0 <= i < j < |s| ==> s[i] <= s[j]
  }

  /** `v` is the least element of `s` that is larger than `n`. */
  ghost predicate IsLeastAbove(s: seq<int>, n: int, v: int)
  {
    v in s && v > n && forall u :: u in s && u > n ==> v <= u
  }

  /** `x` put into its place in the ascending list `s`. */
  function Insert(x: int, s: seq<int>): (r: seq<int>)
    requires Ascending(s)
    ensures Ascending(r)
    ensures multiset(r) == multiset(s) + multiset{x}
  {
    if s == [] || x <= s[0] then
      [x] + s
    else
      var rest := Insert(x, s[1..]);
      assert s == [s[0]] + s[1..];
      BoundedBelow(s[0], s[1..], x, rest);
      PrependKeepsAscending(s[0], rest);
      [s[0]] + rest
  }

  /** A list holding the elements of `s` and `x` is bounded below by whatever bounds them. */
  lemma BoundedBelow(a: int, s: seq<int>, x: int, t: seq<int>)
    requires forall k :: 0 <= k < |s| ==> a <= s[k]
    requires a <= x && multiset(t) == multiset(s) + multiset{x}
    ensures forall k :: 0 <= k < |t| ==> a <= t[k]
  {
    forall k | 0 <= k < |t|
      ensures a <= t[k]
    {
      assert t[k] in multiset(t);
      if t[k] != x {
        assert t[k] in multiset(s);
        var i :| 0 <= i < |s| && s[i] == t[k];
      }
    }
  }

  lemma PrependKeepsAscending(a: int, s: seq<int>)
    requires Ascending(s) && forall k :: 0 <= k < |s| ==> a <= s[k]
    ensures Ascending([a] + s)
  {
  }

  /** `preferred_sizes_parsed.sort()`: the list in ascending order. */
  function SortAscending(s: seq<int>): (r: seq<int>)
    ensures Ascending(r)
    ensures multiset(r) == multiset(s)
  {
    if s == [] then
      []
    else
      assert s == [s[0]] + s[1..];
      Insert(s[0], SortAscending(s[1..]))
  }

  /**
   * `next((size for size in s if size > n), None)`: the first element of `s`,
   * in list order, that is larger than `n`.
   */
  function FirstAbove(s: seq<int>, n: int): (r: Option<int>)
    ensures r.None? <==> forall u :: u in s ==> u <= n
    ensures r.Some? ==> r.value in s && r.value > n
    ensures Ascending(s) && r.Some? ==> IsLeastAbove(s, n, r.value)
  {
    if s == [] then
      None
    else if s[0] > n then
      assert s[0] in s;
      HeadIsLeast(s);
      Some(s[0])
    else
      assert forall u :: u in s <==> u == s[0] || u in s[1..];
      HeadIsLeast(s);
      FirstAbove(s[1..], n)
  }

  /** The head of an ascending list is its least element, and its tail is ascending. */
  lemma HeadIsLeast(s: seq<int>)
    requires s != []
    ensures Ascending(s) ==> Ascending(s[1..]) && forall u :: u in s ==> s[0] <= u
  {
    if Ascending(s) {
      forall u | u in s
        ensures s[0] <= u
      {
        var i :| 0 <= i < |s| && s[i] == u;
      }
    }
  }

  /**
   * Reference definition independent of order: the least element of `s`
   * larger than `n`, found by comparing all of them.
   */
  function MinAbove(s: seq<int>, n: int): (r: Option<int>)
    ensures r.None? <==> forall u :: u in s ==> u <= n
    ensures r.Some? ==> IsLeastAbove(s, n, r.value)
  {
    if s == [] then
      None
    else
      var rest := MinAbove(s[1..], n);
      assert s[0] in s;
      assert forall u :: u in s <==> u == s[0] || u in s[1..];
      if s[0] <= n then rest
      else if rest.Some? && rest.value < s[0] then rest
      else Some(s[0])
  }

  /** There is at most one least element above `n`. */
  lemma LeastAboveUnique(s: seq<int>, n: int, v: int, w: int)
    requires IsLeastAbove(s, n, v) && IsLeastAbove(s, n, w)
    ensures v == w
  {
  }

  /**
   * Sorting and then taking the first larger size picks the least larger size
   * of the list as the user gave it.
   */
  lemma SortedSearchIsLeastAbove(s: seq<int>, n: int)
    ensures FirstAbove(SortAscending(s), n) == MinAbove(s, n)
  {
    var sorted := SortAscending(s);
    assert forall u :: u in sorted <==> u in multiset(sorted);
    assert forall u :: u in s <==> u in multiset(s);
    var a, b := FirstAbove(sorted, n), MinAbove(s, n);
    if a.Some? && b.Some? {
      LeastAboveUnique(s, n, a.value, b.value);
    }
  }

  /** The size chosen on one axis by the snapping path: a larger preferred size, or the tight size. */
  function PreferredSize(preferredSizes: seq<int>, size: int): (r: int)
    ensures r >= size
    ensures r == MinAbove(preferredSizes, size).GetOr(size)
  {
    SortedSearchIsLeastAbove(preferredSizes, size);
    FirstAbove(SortAscending(preferredSizes), size).GetOr(size)
  }

  /** A tight size of 300 snaps to 512 in [128, 256, 512]; 600 finds no larger size and stays. */
  lemma PreferredSizeExamples()
    ensures PreferredSize([512, 128, 256], 300) == 512
    ensures PreferredSize([128, 256, 512], 600) == 600
  {
    assert MinAbove([512, 128, 256], 300) == Some(512) by {
      assert [512, 128, 256][1..] == [128, 256];
      assert [128, 256][1..] == [256];
      assert [256][1..] == [];
    }
    assert MinAbove([128, 256, 512], 600) == None by {
      assert [128, 256, 512][1..] == [256, 512];
      assert [256, 512][1..] == [512];
      assert [512][1..] == [];
    }
  }
}
