/**
 * The grouping step of `InstanceSelectorVM.UpdatePartList`: the inventory parts of one
 * type are walked in input order, and each goes into the first existing group whose
 * first member is the same as it at TRACKER strength, or else opens a new group.
 *
 * The comparison `IsSameAs(_, _, ComparisonStrength.TRACKER)` is not part of this model:
 * it is the parameter `same`, with `same(first, part)` in the direction the code compares,
 * and nothing is assumed about it except where a lemma says so in its `requires`.
 */
module Grouping {
  import opened Wrappers

  /** A group accepts a part when its first member is the same as the part. An empty group
      has no first member (`FirstOrDefault` yields null) and accepts nothing. */
  predicate Matches<P>(same: (P, P) -> bool, g: seq<P>, x: P)
  {
    |g| > 0 && same(g[0], x)
  }

  /** The index of the first group that accepts `x`, or None when no group does
      (`Parts.FirstOrDefault(l => ...)`). */
  function FirstMatch<P>(same: (P, P) -> bool, groups: seq<seq<P>>, x: P): (r: Option<nat>)
    ensures r.Some? ==> r.value < |groups| && Matches(same, groups[r.value], x)
    ensures r.Some? ==> forall k :: 0 <= k < r.value ==> !Matches(same, groups[k], x)
    ensures r.None? <==> forall k :: 0 <= k < |groups| ==> !Matches(same, groups[k], x)
  {
    if |groups| == 0 then None
    else if Matches(same, groups[0], x) then Some(0)
    else match FirstMatch(same, groups[1..], x)
      case None => None
      case Some(i) => Some(i + 1)
  }

  /** One turn of the `foreach`: append `x` to the first accepting group, or open a new one. */
  function Place<P>(same: (P, P) -> bool, groups: seq<seq<P>>, x: P): seq<seq<P>>
  {
    match FirstMatch(same, groups, x)
    case Some(i) => groups[i := groups[i] + [x]]
    case None => groups + [[x]]
  }

  /** The groups the loop has built after walking all of `parts`. */
  function Group<P>(same: (P, P) -> bool, parts: seq<P>): seq<seq<P>>
  {
    if |parts| == 0 then [] else Place(same, Group(same, parts[..|parts| - 1]), parts[|parts| - 1])
  }

  /** One more turn of the loop places the next part into the groups built so far. */
  lemma GroupStep<P>(same: (P, P) -> bool, parts: seq<P>, i: nat)
    requires i < |parts|
    ensures Group(same, parts[..i + 1]) == Place(same, Group(same, parts[..i]), parts[i])
  {
    assert parts[..i + 1][..i] == parts[..i];
  }

  /** Opening an empty group and then appending to it is placing a part no group accepts. */
  lemma PlaceInNewGroup<P>(same: (P, P) -> bool, groups: seq<seq<P>>, x: P)
    requires FirstMatch(same, groups, x).None?
    ensures (groups + [[]])[|groups| := [] + [x]] == Place(same, groups, x)
  {
    var withEmpty := groups + [[]];
    var r := withEmpty[|groups| := [] + [x]];
    assert [] + [x] == [x];
    assert forall k :: 0 <= k < |groups| ==> r[k] == groups[k];
    assert r == groups + [[x]];
  }

  /** All members of all groups, group after group. */
  function Flatten<P>(groups: seq<seq<P>>): seq<P>
  {
    if |groups| == 0 then [] else groups[0] + Flatten(groups[1..])
  }

  /** `a` is obtained from `b` by deleting elements (greedy matching from the front). */
  ghost predicate IsSubsequence<P>(a: seq<P>, b: seq<P>)
  {
    if |a| == 0 then true
    else if |b| == 0 then false
    else if a[0] == b[0] then IsSubsequence(a[1..], b[1..])
    else IsSubsequence(a, b[1..])
  }

  /** The first members of the non-empty groups, in group order. */
  function Firsts<P>(groups: seq<seq<P>>): seq<P>
  {
    if |groups| == 0 then []
    else (if |groups[0]| > 0 then [groups[0][0]] else []) + Firsts(groups[1..])
  }

  ghost predicate NonEmptyGroups<P>(groups: seq<seq<P>>)
  {
    forall i :: 0 <= i < |groups| ==> |groups[i]| > 0
  }

  /** A group's first member is the same as every member of the group. */
  ghost predicate MembersMatchFirst<P>(same: (P, P) -> bool, groups: seq<seq<P>>)
  {
    forall i, k :: 0 <= i < |groups| && 0 < k < |groups[i]| ==> same(groups[i][0], groups[i][k])
  }

  /** No earlier group's first member is the same as any member of a later group, its first
      member included: a part only joins group j, or opens it, when no earlier group accepts it. */
  ghost predicate NoEarlierGroupMatches<P>(same: (P, P) -> bool, groups: seq<seq<P>>)
  {
    forall i, j, k :: 0 <= i < j < |groups| && 0 < |groups[i]| && 0 <= k < |groups[j]| ==> !same(groups[i][0], groups[j][k])
  }

  ghost predicate WellGrouped<P>(same: (P, P) -> bool, groups: seq<seq<P>>)
  {
    NonEmptyGroups(groups) && MembersMatchFirst(same, groups) && NoEarlierGroupMatches(same, groups)
  }

  lemma PlaceKeepsWellGrouped<P>(same: (P, P) -> bool, groups: seq<seq<P>>, x: P)
    requires WellGrouped(same, groups)
    ensures WellGrouped(same, Place(same, groups, x))
  {
  }

  /** Every group is non-empty, its first member is the same as each of its members, and no part
      went past a group that would have accepted it. */
  lemma {:induction false} GroupIsWellGrouped<P>(same: (P, P) -> bool, parts: seq<P>)
    ensures NonEmptyGroups(Group(same, parts))
    ensures MembersMatchFirst(same, Group(same, parts))
    ensures NoEarlierGroupMatches(same, Group(same, parts))
  {
    if |parts| > 0 {
      GroupIsWellGrouped(same, parts[..|parts| - 1]);
      PlaceKeepsWellGrouped(same, Group(same, parts[..|parts| - 1]), parts[|parts| - 1]);
    }
  }

  lemma {:induction false} FlattenAppend<P>(groups: seq<seq<P>>, g: seq<P>)
    ensures Flatten(groups + [g]) == Flatten(groups) + g
  {
    if |groups| > 0 {
      assert (groups + [g])[1..] == groups[1..] + [g];
      FlattenAppend(groups[1..], g);
    }
  }

  lemma {:induction false} FlattenAppendTo<P>(groups: seq<seq<P>>, i: nat, x: P)
    requires i < |groups|
    ensures multiset(Flatten(groups[i := groups[i] + [x]])) == multiset(Flatten(groups)) + multiset{x}
  {
    var u := groups[i := groups[i] + [x]];
    assert Flatten(u) == u[0] + Flatten(u[1..]);
    assert Flatten(groups) == groups[0] + Flatten(groups[1..]);
    if i > 0 {
      assert u[0] == groups[0];
      assert u[1..] == groups[1..][i - 1 := groups[1..][i - 1] + [x]];
      FlattenAppendTo(groups[1..], i - 1, x);
    } else {
      assert u[1..] == groups[1..];
      assert u[0] == groups[0] + [x];
    }
  }

  lemma {:induction false} FlattenRemove<P>(b: seq<seq<P>>, j: nat)
    requires j < |b|
    ensures multiset(Flatten(b)) == multiset(b[j]) + multiset(Flatten(b[..j] + b[j + 1..]))
  {
    assert Flatten(b) == b[0] + Flatten(b[1..]);
    if j == 0 {
      assert b[..j] + b[j + 1..] == b[1..];
    } else {
      FlattenRemove(b[1..], j - 1);
      var rest := b[1..][..j - 1] + b[1..][j..];
      assert b[..j] + b[j + 1..] == [b[0]] + rest;
      assert ([b[0]] + rest)[1..] == rest;
      assert Flatten([b[0]] + rest) == b[0] + Flatten(rest);
    }
  }

  /** Reordering the groups does not change which parts they hold. */
  lemma {:induction false} FlattenPermutation<P>(a: seq<seq<P>>, b: seq<seq<P>>)
    requires multiset(a) == multiset(b)
    ensures multiset(Flatten(a)) == multiset(Flatten(b))
    decreases |a|
  {
    if |a| == 0 {
      assert |multiset(b)| == 0;
      assert b == [];
    } else {
      assert a[0] in multiset(b);
      var j :| 0 <= j < |b| && b[j] == a[0];
      var rest := b[..j] + b[j + 1..];
      assert b == b[..j] + [b[j]] + b[j + 1..];
      assert a == [a[0]] + a[1..];
      assert multiset(b) == multiset(rest) + multiset{a[0]};
      assert multiset(a) == multiset(a[1..]) + multiset{a[0]};
      assert multiset(a[1..]) == multiset(a) - multiset{a[0]};
      assert multiset(rest) == multiset(b) - multiset{a[0]};
      FlattenPermutation(a[1..], rest);
      FlattenRemove(b, j);
      assert Flatten(a) == a[0] + Flatten(a[1..]);
    }
  }

  /** Grouping is a partition: all groups together hold exactly the input parts, each as
      often as it occurs in the input, so the group sizes add up to the input length. */
  lemma {:induction false} GroupIsPartition<P>(same: (P, P) -> bool, parts: seq<P>)
    ensures multiset(Flatten(Group(same, parts))) == multiset(parts)
    ensures |Flatten(Group(same, parts))| == |parts|
  {
    if |parts| > 0 {
      var init, x := parts[..|parts| - 1], parts[|parts| - 1];
      assert parts == init + [x];
      var gs := Group(same, init);
      GroupIsPartition(same, init);
      assert Group(same, parts) == Place(same, gs, x);
      match FirstMatch(same, gs, x) {
        case Some(m) =>
          FlattenAppendTo(gs, m, x);
        case None =>
          FlattenAppend(gs, [x]);
      }
    }
    assert |multiset(Flatten(Group(same, parts)))| == |Flatten(Group(same, parts))|;
  }

  lemma {:induction false} SubsequenceExtend<P>(a: seq<P>, b: seq<P>, x: P)
    requires IsSubsequence(a, b)
    ensures IsSubsequence(a, b + [x])
  {
    if |a| > 0 {
      assert (b + [x])[1..] == b[1..] + [x];
      if a[0] == b[0] {
        SubsequenceExtend(a[1..], b[1..], x);
      } else {
        SubsequenceExtend(a, b[1..], x);
      }
    }
  }

  lemma {:induction false} SubsequenceLast<P>(b: seq<P>, x: P)
    ensures IsSubsequence([x], b + [x])
  {
    if |b| > 0 {
      assert (b + [x])[1..] == b[1..] + [x];
      if x != b[0] {
        SubsequenceLast(b[1..], x);
      }
    } else {
      assert [x][1..] == [];
    }
  }

  lemma {:induction false} SubsequenceAppendBoth<P>(a: seq<P>, b: seq<P>, x: P)
    requires IsSubsequence(a, b)
    ensures IsSubsequence(a + [x], b + [x])
  {
    if |a| == 0 {
      assert a + [x] == [x];
      SubsequenceLast(b, x);
    } else {
      assert (a + [x])[1..] == a[1..] + [x];
      assert (b + [x])[1..] == b[1..] + [x];
      if a[0] == b[0] {
        SubsequenceAppendBoth(a[1..], b[1..], x);
      } else {
        SubsequenceAppendBoth(a, b[1..], x);
      }
    }
  }

  /** Parts are only ever appended to a group, so each group lists its members in the
      order in which they came in the input. */
  lemma {:induction false} GroupKeepsInputOrder<P>(same: (P, P) -> bool, parts: seq<P>)
    ensures forall i :: 0 <= i < |Group(same, parts)| ==> IsSubsequence(Group(same, parts)[i], parts)
  {
    if |parts| > 0 {
      var init, x := parts[..|parts| - 1], parts[|parts| - 1];
      assert parts == init + [x];
      var gs := Group(same, init);
      var r := Group(same, parts);
      GroupKeepsInputOrder(same, init);
      forall i | 0 <= i < |r| ensures IsSubsequence(r[i], parts) {
        match FirstMatch(same, gs, x)
        case Some(m) =>
          if i == m {
            SubsequenceAppendBoth(gs[i], init, x);
          } else {
            SubsequenceExtend(gs[i], init, x);
          }
        case None =>
          if i < |gs| {
            SubsequenceExtend(gs[i], init, x);
          } else {
            assert r[i] == [x];
            SubsequenceLast(init, x);
          }
      }
    }
  }

  lemma {:induction false} FirstsAppend<P>(groups: seq<seq<P>>, x: P)
    ensures Firsts(groups + [[x]]) == Firsts(groups) + [x]
  {
    if |groups| == 0 {
      assert Firsts([[x]]) == [x] + Firsts([]);
    } else {
      assert (groups + [[x]])[1..] == groups[1..] + [[x]];
      FirstsAppend(groups[1..], x);
    }
  }

  lemma {:induction false} FirstsAppendTo<P>(groups: seq<seq<P>>, i: nat, x: P)
    requires i < |groups| && |groups[i]| > 0
    ensures Firsts(groups[i := groups[i] + [x]]) == Firsts(groups)
  {
    var u := groups[i := groups[i] + [x]];
    if i == 0 {
      assert u[1..] == groups[1..];
    } else {
      assert u[1..] == groups[1..][i - 1 := groups[1..][i - 1] + [x]];
      FirstsAppendTo(groups[1..], i - 1, x);
    }
  }

  /** Groups come in order of first appearance: their first members are a subsequence of the
      input, so a group opened by an earlier part comes before one opened by a later part. */
  lemma {:induction false} GroupsInOrderOfFirstAppearance<P>(same: (P, P) -> bool, parts: seq<P>)
    ensures IsSubsequence(Firsts(Group(same, parts)), parts)
  {
    if |parts| > 0 {
      var init, x := parts[..|parts| - 1], parts[|parts| - 1];
      assert parts == init + [x];
      var gs := Group(same, init);
      GroupsInOrderOfFirstAppearance(same, init);
      match FirstMatch(same, gs, x) {
        case Some(m) =>
          FirstsAppendTo(gs, m, x);
          SubsequenceExtend(Firsts(gs), init, x);
        case None =>
          FirstsAppend(gs, x);
          SubsequenceAppendBoth(Firsts(gs), init, x);
      }
    }
  }

  /** `same` is reflexive on the parts of `s`. */
  ghost predicate ReflexiveOn<P>(same: (P, P) -> bool, s: seq<P>)
  {
    forall x :: x in s ==> same(x, x)
  }

  /** `same` is symmetric on the parts of `s`. */
  ghost predicate SymmetricOn<P>(same: (P, P) -> bool, s: seq<P>)
  {
    forall x, y :: x in s && y in s && same(x, y) ==> same(y, x)
  }

  /** `same` is transitive on the parts of `s`. */
  ghost predicate TransitiveOn<P>(same: (P, P) -> bool, s: seq<P>)
  {
    forall x, y, z :: x in s && y in s && z in s && same(x, y) && same(y, z) ==> same(x, z)
  }

  lemma {:induction false} FlattenContains<P>(gs: seq<seq<P>>, i: nat, k: nat)
    requires i < |gs| && k < |gs[i]|
    ensures gs[i][k] in Flatten(gs)
  {
    if i > 0 {
      FlattenContains(gs[1..], i - 1, k);
    } else {
      assert Flatten(gs)[k] == gs[0][k];
    }
  }

  /** Only if TRACKER-strength sameness is assumed to be an equivalence on the input parts
      are the groups its equivalence classes: members of one group are pairwise the same,
      members of two different groups never are. */
  lemma GroupsAreClassesOfEquivalence<P>(same: (P, P) -> bool, parts: seq<P>)
    requires ReflexiveOn(same, parts) && SymmetricOn(same, parts) && TransitiveOn(same, parts)
    ensures forall i, k, l :: 0 <= i < |Group(same, parts)| && 0 <= k < |Group(same, parts)[i]| && 0 <= l < |Group(same, parts)[i]|
              ==> same(Group(same, parts)[i][k], Group(same, parts)[i][l])
    ensures forall i, j, k, l :: 0 <= i < |Group(same, parts)| && 0 <= j < |Group(same, parts)| && i != j
              && 0 <= k < |Group(same, parts)[i]| && 0 <= l < |Group(same, parts)[j]|
              ==> !same(Group(same, parts)[i][k], Group(same, parts)[j][l])
  {
    var gs := Group(same, parts);
    GroupIsWellGrouped(same, parts);
    GroupIsPartition(same, parts);
    forall i, k | 0 <= i < |gs| && 0 <= k < |gs[i]|
      ensures gs[i][k] in parts
    {
      FlattenContains(gs, i, k);
      assert gs[i][k] in multiset(Flatten(gs));
    }
    forall i, k, l | 0 <= i < |gs| && 0 <= k < |gs[i]| && 0 <= l < |gs[i]|
      ensures same(gs[i][k], gs[i][l])
    {
      assert gs[i][0] in parts && gs[i][k] in parts && gs[i][l] in parts;
      assert same(gs[i][0], gs[i][0]);
      assert same(gs[i][0], gs[i][k]) && same(gs[i][0], gs[i][l]);
      assert same(gs[i][k], gs[i][0]);
    }
    forall i, j, k, l | 0 <= i < |gs| && 0 <= j < |gs| && i != j && 0 <= k < |gs[i]| && 0 <= l < |gs[j]|
      ensures !same(gs[i][k], gs[j][l])
    {
      assert gs[i][0] in parts && gs[i][k] in parts && gs[j][0] in parts && gs[j][l] in parts;
      assert same(gs[i][0], gs[i][k]) && same(gs[j][0], gs[j][l]);
      if i < j {
        assert !same(gs[i][0], gs[j][l]);
      } else {
        assert !same(gs[j][0], gs[i][k]);
      }
    }
  }
}
