/**
 * `InstanceSelectorVM`: the view model behind the inventory part selector. Given the part
 * the editor has selected, it lists the matching inventory parts, grouped into sets of
 * interchangeable instances and ordered from least to most used.
 *
 * The collaborators the class reaches through other types are constant fields:
 * `same` is `IsSameAs(_, _, ComparisonStrength.TRACKER)`, `timesRecovered` reads
 * `TrackerModule?.TimesRecovered`, `findPartsByName` is `PartInventory.FindPartsByName`
 * and `filterOutUsedParts` is `EditorHandling.FilterOutUsedParts`. A part instance in the
 * list is represented by its backing inventory part, of type `P`; an inventory is of type `Inv`.
 */
module InstanceSelector {
  import opened Wrappers
  import opened Grouping
  import opened UsageOrder

  /** Title shown when no part is selected. */
  const DefaultPartTitle: string := "No Part Active"

  /** An editor part, by reference; of its `partInfo` only the name and the title are read. */
  class Part {
    const name: string
    const title: string

    constructor (name: string, title: string)
      ensures this.name == name && this.title == title
    {
      this.name := name;
      this.title := title;
    }
  }

  class InstanceSelectorVM<Inv, P> {
    const same: (P, P) -> bool
    const timesRecovered: P -> Option<int>
    const findPartsByName: (Inv, string) -> seq<P>
    const filterOutUsedParts: seq<P> -> seq<P>

    var cachedBasePart: Part?
    var applyPart: Part?
    var cachedInventory: Option<Inv>
    var shouldSell: bool
    var backingPartName: Option<string>
    var selectedPartName: string
    var parts: seq<seq<P>>

    /** The inventory parts of type `partName` that are still free to use: none when there
        is no inventory. */
    ghost function FoundParts(inventory: Option<Inv>, partName: string): seq<P>
    {
      filterOutUsedParts(if inventory.Some? then findPartsByName(inventory.value, partName) else [])
    }

    /** What `UpdatePartList(inventory, partName, _)` leaves in `Parts`: nothing when there is
        no part name, and otherwise the groups of the found parts in an order sorted by usage. */
    ghost predicate IsPartListFor(inventory: Option<Inv>, partName: Option<string>, ps: seq<seq<P>>)
    {
      match partName
      case None => ps == []
      case Some(name) =>
        multiset(ps) == multiset(Group(same, FoundParts(inventory, name)))
        && SortedByUsage(timesRecovered, ps)
    }

    /** Whatever order the sort picks, the list holds every found part exactly as often as it
        was found, no group is empty, every member is the same as its group's first member and
        comes in its group in input order, and the groups run from known counts in ascending
        order to unknown counts. */
    lemma PartListIsGroupedAndOrdered(inventory: Option<Inv>, partName: string, ps: seq<seq<P>>)
      requires IsPartListFor(inventory, Some(partName), ps)
      ensures multiset(Flatten(ps)) == multiset(FoundParts(inventory, partName))
      ensures forall i :: 0 <= i < |ps| ==> |ps[i]| > 0
      ensures forall i, k :: 0 <= i < |ps| && 0 < k < |ps[i]| ==> same(ps[i][0], ps[i][k])
      ensures forall i :: 0 <= i < |ps| ==> IsSubsequence(ps[i], FoundParts(inventory, partName))
      ensures forall i, j :: 0 <= i < j < |ps| && UsageOf(timesRecovered, ps[j]).Some? ==>
                UsageOf(timesRecovered, ps[i]).Some? && UsageOf(timesRecovered, ps[i]).value <= UsageOf(timesRecovered, ps[j]).value
    {
      var found := FoundParts(inventory, partName);
      var gs := Group(same, found);
      GroupIsPartition(same, found);
      GroupIsWellGrouped(same, found);
      GroupKeepsInputOrder(same, found);
      FlattenPermutation(ps, gs);
      SortedMeansKnownAscendingThenUnknown(timesRecovered, ps);
      forall i | 0 <= i < |ps| ensures exists j :: 0 <= j < |gs| && gs[j] == ps[i] {
        assert ps[i] in multiset(gs);
      }
    }

    constructor (inventory: Option<Inv>, basePart: Part?, applyToPart: Part?, shouldSell: bool,
                 same: (P, P) -> bool, timesRecovered: P -> Option<int>,
                 findPartsByName: (Inv, string) -> seq<P>, filterOutUsedParts: seq<P> -> seq<P>)
      ensures this.same == same && this.timesRecovered == timesRecovered
      ensures this.findPartsByName == findPartsByName && this.filterOutUsedParts == filterOutUsedParts
      ensures cachedInventory == inventory && this.shouldSell == shouldSell
      ensures applyPart == if applyToPart == basePart then applyToPart else null
      ensures cachedBasePart == basePart
      ensures backingPartName == if basePart == null then None else Some(basePart.name)
      ensures selectedPartName == if basePart == null then DefaultPartTitle else basePart.title
      ensures IsPartListFor(inventory, backingPartName, parts)
    {
      this.same := same;
      this.timesRecovered := timesRecovered;
      this.findPartsByName := findPartsByName;
      this.filterOutUsedParts := filterOutUsedParts;
      cachedInventory := inventory;
      this.shouldSell := shouldSell;
      applyPart := if applyToPart == basePart then applyToPart else null;
      new;
      SetBasePart(basePart);
    }

    /** The `BasePart` setter: caches the part, takes its name as the part type to list and its
        title (or the default title when there is no part) as the name to show, then rebuilds
        the list. */
    method SetBasePart(value: Part?)
      modifies this`cachedBasePart, this`backingPartName, this`selectedPartName, this`parts
      ensures cachedBasePart == value
      ensures backingPartName == if value == null then None else Some(value.name)
      ensures selectedPartName == if value == null then DefaultPartTitle else value.title
      ensures IsPartListFor(cachedInventory, backingPartName, parts)
    {
      cachedBasePart := value;
      backingPartName := if value == null then None else Some(value.name);
      selectedPartName := if value == null then DefaultPartTitle else value.title;
      UpdateCachedPartList();
    }

    /** `UpdatePartList()`: rebuilds the list for the cached inventory and part name. */
    method UpdateCachedPartList()
      modifies this`parts
      ensures IsPartListFor(cachedInventory, backingPartName, parts)
    {
      UpdatePartList(cachedInventory, backingPartName);
    }

    /** `UpdatePartList(inventory, partName, selling)`: groups the free inventory parts of type
        `partName`, each into the first group whose first member is the same as it, and sorts
        the groups from least to most used. */
    method UpdatePartList(inventory: Option<Inv>, partName: Option<string>)
      modifies this`parts
      ensures IsPartListFor(inventory, partName, parts)
      ensures partName.Some? ==> |parts| == |Group(same, FoundParts(inventory, partName.value))|
    {
      parts := [];
      if partName.None? {
        return;
      }
      var foundParts := if inventory.Some? then findPartsByName(inventory.value, partName.value) else [];
      foundParts := filterOutUsedParts(foundParts);
      for i := 0 to |foundParts|
        invariant parts == Group(same, foundParts[..i])
      {
        var iPart := foundParts[i];
        GroupStep(same, foundParts, i);
        var list := FirstMatch(same, parts, iPart);
        if list.None? {
          PlaceInNewGroup(same, parts, iPart);
          parts := parts + [[]];
          list := Some(|parts| - 1);
        }
        parts := parts[list.value := parts[list.value] + [iPart]];
      }
      assert foundParts[..|foundParts|] == foundParts;
      ghost var grouped := parts;
      parts := SortByUsage(timesRecovered, parts);
      assert |multiset(parts)| == |multiset(grouped)|;
    }
  }
}
