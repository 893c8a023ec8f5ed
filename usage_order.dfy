/**
 * The ordering step of `InstanceSelectorVM.UpdatePartList`: the groups are sorted with the
 * comparator `leastToMostSorter`, which looks at the `TimesRecovered` count of each group's
 * first member. A known count sorts before an unknown one; known counts sort ascending.
 *
 * How a part's count is read (`BackingPart?.TrackerModule?.TimesRecovered`) is not part of
 * this model: it is the parameter `timesRecovered`, None where the C# chain yields null.
 */
module UsageOrder {
  import opened Wrappers

  /** The count the comparator reads for a group: that of its first member, None for an
      empty group (`a?.FirstOrDefault()` is null). */
  function UsageOf<P>(timesRecovered: P -> Option<int>, g: seq<P>): Option<int>
  {
    if |g| == 0 then None else timesRecovered(g[0])
  }

  /** Reference order on counts: `u` comes strictly before `v` when `u` is known and `v` is
      unknown, or both are known and `u` is the smaller. */
  predicate UsedBefore(u: Option<int>, v: Option<int>)
  {
    u.Some? && (v.None? || u.value < v.value)
  }

  /** `Int32.CompareTo`: -1, 0 or 1. */
  function CompareTo(x: int, y: int): int
  {
    if x < y then -1 else if x > y then 1 else 0
  }

  /** `leastToMostSorter(a, b)`: negative when `a` is used less, 0 when equal, positive when
      `a` is used more, with unknown counts treated as used most. */
  function LeastToMostSorter<P>(timesRecovered: P -> Option<int>, a: seq<P>, b: seq<P>): (r: int)
    ensures r == -1 <==> UsedBefore(UsageOf(timesRecovered, a), UsageOf(timesRecovered, b))
    ensures r == 1 <==> UsedBefore(UsageOf(timesRecovered, b), UsageOf(timesRecovered, a))
    ensures r == 0 <==> UsageOf(timesRecovered, a) == UsageOf(timesRecovered, b)
  {
    var usedA, usedB := UsageOf(timesRecovered, a), UsageOf(timesRecovered, b);
    if usedA.None? then
      if usedB.Some? then 1 else 0
    else if usedB.None? then -1
    else CompareTo(usedA.value, usedB.value)
  }

  /** The comparator is antisymmetric: swapping its arguments negates its answer. */
  lemma SorterAntisymmetric<P>(timesRecovered: P -> Option<int>, a: seq<P>, b: seq<P>)
    ensures LeastToMostSorter(timesRecovered, a, b) == -LeastToMostSorter(timesRecovered, b, a)
  {
  }

  /** The comparator is transitive, so "not after" is a total preorder on groups. */
  lemma SorterTransitive<P>(timesRecovered: P -> Option<int>, a: seq<P>, b: seq<P>, c: seq<P>)
    requires LeastToMostSorter(timesRecovered, a, b) <= 0 && LeastToMostSorter(timesRecovered, b, c) <= 0
    ensures LeastToMostSorter(timesRecovered, a, c) <= 0
    ensures (LeastToMostSorter(timesRecovered, a, b) < 0 || LeastToMostSorter(timesRecovered, b, c) < 0)
              ==> LeastToMostSorter(timesRecovered, a, c) < 0
  {
  }

  /** Groups the comparator calls equal compare the same way against every other group. */
  lemma SorterTiesAreInterchangeable<P>(timesRecovered: P -> Option<int>, a: seq<P>, b: seq<P>, c: seq<P>)
    requires LeastToMostSorter(timesRecovered, a, b) == 0
    ensures LeastToMostSorter(timesRecovered, a, c) == LeastToMostSorter(timesRecovered, b, c)
  {
  }

  /** No later group is strictly before an earlier one under the comparator. */
  ghost predicate SortedByUsage<P>(timesRecovered: P -> Option<int>, gs: seq<seq<P>>)
  {
    forall i, j :: 0 <= i < j < |gs| ==> LeastToMostSorter(timesRecovered, gs[i], gs[j]) <= 0
  }

  /** In a list sorted by the comparator the groups with a known count come first, in
      ascending count, and all groups with an unknown count come after them. */
  lemma SortedMeansKnownAscendingThenUnknown<P>(timesRecovered: P -> Option<int>, gs: seq<seq<P>>)
    requires SortedByUsage(timesRecovered, gs)
    ensures forall i, j :: 0 <= i < j < |gs| && UsageOf(timesRecovered, gs[j]).Some? ==>
              UsageOf(timesRecovered, gs[i]).Some? && UsageOf(timesRecovered, gs[i]).value <= UsageOf(timesRecovered, gs[j]).value
    ensures forall i, j :: 0 <= i < j < |gs| && UsageOf(timesRecovered, gs[i]).None? ==> UsageOf(timesRecovered, gs[j]).None?
  {
  }

  /** A group that does not come after any group of a sorted list may lead it. */
  lemma SortedCons<P>(timesRecovered: P -> Option<int>, h: seq<P>, gs: seq<seq<P>>)
    requires SortedByUsage(timesRecovered, gs)
    requires forall k :: 0 <= k < |gs| ==> LeastToMostSorter(timesRecovered, h, gs[k]) <= 0
    ensures SortedByUsage(timesRecovered, [h] + gs)
  {
  }

  /** The head of a sorted list does not come after any group drawn from its tail or after
      a group `g` that comes after the head. */
  lemma HeadPrecedesRest<P>(timesRecovered: P -> Option<int>, g: seq<P>, gs: seq<seq<P>>, rest: seq<seq<P>>)
    requires SortedByUsage(timesRecovered, gs) && |gs| > 0
    requires LeastToMostSorter(timesRecovered, g, gs[0]) > 0
    requires forall k :: 0 <= k < |rest| ==> rest[k] == g || rest[k] in gs[1..]
    ensures forall k :: 0 <= k < |rest| ==> LeastToMostSorter(timesRecovered, gs[0], rest[k]) <= 0
  {
    forall k | 0 <= k < |rest| ensures LeastToMostSorter(timesRecovered, gs[0], rest[k]) <= 0 {
      if rest[k] == g {
        SorterAntisymmetric(timesRecovered, g, gs[0]);
      } else {
        var j :| 0 <= j < |gs[1..]| && gs[1..][j] == rest[k];
        assert gs[j + 1] == rest[k];
      }
    }
  }

  /** Puts `g` into a sorted list in front of the first group it does not come after. */
  function Insert<P>(timesRecovered: P -> Option<int>, g: seq<P>, gs: seq<seq<P>>): (r: seq<seq<P>>)
    requires SortedByUsage(timesRecovered, gs)
    ensures multiset(r) == multiset(gs) + multiset{g}
    ensures forall k :: 0 <= k < |r| ==> r[k] == g || r[k] in gs
    ensures SortedByUsage(timesRecovered, r)
  {
    if |gs| == 0 then [g]
    else if LeastToMostSorter(timesRecovered, g, gs[0]) <= 0 then
      SortedCons(timesRecovered, g, gs);
      [g] + gs
    else
      var rest := Insert(timesRecovered, g, gs[1..]);
      HeadPrecedesRest(timesRecovered, g, gs, rest);
      assert gs == [gs[0]] + gs[1..];
      assert multiset([gs[0]] + rest) == multiset{gs[0]} + multiset(rest);
      SortedCons(timesRecovered, gs[0], rest);
      [gs[0]] + rest
  }

  /** What `Parts.Sort(leastToMostSorter)` promises: a permutation of the groups that is
      sorted under the comparator. `List<T>.Sort` is not stable, so nothing is promised
      about the relative order of groups the comparator calls equal. */
  function SortByUsage<P>(timesRecovered: P -> Option<int>, gs: seq<seq<P>>): (r: seq<seq<P>>)
    ensures multiset(r) == multiset(gs)
    ensures SortedByUsage(timesRecovered, r)
  {
    if |gs| == 0 then []
    else
      assert gs == [gs[0]] + gs[1..];
      Insert(timesRecovered, gs[0], SortByUsage(timesRecovered, gs[1..]))
  }
}
