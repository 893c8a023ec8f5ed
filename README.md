# ScrapYard instance selector — Dafny model

ScrapYard keeps an inventory of used parts so that a vessel being built in the editor can
reuse them instead of buying new ones. `InstanceSelectorVM` is the view model of the part
selector: for the part the editor has selected, it lists the inventory parts of that type,
grouped into sets of interchangeable instances, ordered from least to most used.

This project models that list-building logic:

- `Grouping` (grouping.dfy): the grouping loop of `UpdatePartList` as the function `Group`.
  Each part, in input order, goes into the first group whose first member is the same as it
  at TRACKER strength, or opens a new group. Lemmas prove that the result is a partition of
  the input and that no group is empty. They also prove that each group's first member is
  the same as every member, that members keep their input order, that groups come in order
  of first appearance, and that no part passed over a group that would have taken it. Only
  when sameness is assumed to be an equivalence (reflexive, symmetric and transitive on the
  input) are the groups proved to be its classes.
- `UsageOrder` (usage_order.dfy): the comparator `leastToMostSorter` with its sign table,
  proved antisymmetric and transitive. Also the sort: a permutation of the groups that is
  sorted under the comparator, proved to place known counts first, ascending, and unknown
  counts last.
- `InstanceSelector` (instance_selector.dfy): the class `InstanceSelectorVM` with its fields.
  `UpdatePartList` resets `parts`, walks the found parts with a loop that appends to a
  matching or new group in place, and then sorts. The `BasePart` setter, the parameterless
  `UpdatePartList()` and the constructor are modelled as well.

Collaborators whose code is not part of this model are constant fields of the class:
`same` (`IsSameAs(_, _, ComparisonStrength.TRACKER)`, applied as `same(first, part)`, the
direction the code uses), `timesRecovered` (`BackingPart?.TrackerModule?.TimesRecovered`,
None for null), `findPartsByName` (`PartInventory.FindPartsByName`) and `filterOutUsedParts`
(`EditorHandling.FilterOutUsedParts`). A null inventory is `None`; the filter is then
applied to an empty list, as `?? new List<InventoryPart>()` does in the source. A
part instance in the list is represented by its backing inventory part.

The sort is `List<T>.Sort` (ScrapYard/UI/InstanceSelectorVM.cs:86), which is not stable,
so no order among groups the comparator calls equal is promised here.

## Model

| member | source | states |
|---|---|---|
| Grouping.FirstMatch | ScrapYard/UI/InstanceSelectorVM.cs:76 | the index found is of a group whose first member is the same as the part, and no earlier group's is; None exactly when no group's first member matches (an empty group matches nothing) |
| Grouping.GroupIsWellGrouped | ScrapYard/UI/InstanceSelectorVM.cs:72-83 | every group is non-empty; each group's first member is the same as every member of it; no earlier group's first member is the same as any member of a later group, first member included |
| Grouping.GroupsInOrderOfFirstAppearance | ScrapYard/UI/InstanceSelectorVM.cs:77-81 | the groups' first members form a subsequence of the input: a group is opened by a part and only appended to afterwards, so groups come in order of first appearance |
| Grouping.GroupIsPartition | ScrapYard/UI/InstanceSelectorVM.cs:72-83 | the groups together hold exactly the input parts (as a multiset: each part once per occurrence) and their sizes add up to the input length |
| Grouping.GroupKeepsInputOrder | ScrapYard/UI/InstanceSelectorVM.cs:82 | every group is a subsequence of the input: members keep their relative input order |
| Grouping.GroupsAreClassesOfEquivalence | ScrapYard/UI/InstanceSelectorVM.cs:76-82 | if sameness is reflexive, symmetric and transitive on the input, members of one group are pairwise the same and members of different groups never are |
| UsageOrder.LeastToMostSorter | ScrapYard/UI/InstanceSelectorVM.cs:173-190 | -1 exactly when a's count is known and b's unknown or smaller, 1 exactly in the mirror case, 0 exactly when both are unknown or both equal; a group's count is its first member's, unknown for an empty group |
| UsageOrder.SorterAntisymmetric | ScrapYard/UI/InstanceSelectorVM.cs:177-189 | swapping the two groups negates the comparator's answer |
| UsageOrder.SorterTransitive | ScrapYard/UI/InstanceSelectorVM.cs:177-189 | "not after" and "strictly before" are transitive under the comparator |
| UsageOrder.SorterTiesAreInterchangeable | ScrapYard/UI/InstanceSelectorVM.cs:177-189 | two groups the comparator calls equal compare the same way against any third group |
| UsageOrder.SortedMeansKnownAscendingThenUnknown | ScrapYard/UI/InstanceSelectorVM.cs:86 | in a list sorted by the comparator, groups with a known count come first in ascending count, and every group after an unknown-count group has an unknown count |
| UsageOrder.SortByUsage | ScrapYard/UI/InstanceSelectorVM.cs:86 | the result is a permutation of the groups and is sorted under the comparator |
| InstanceSelector.InstanceSelectorVM.UpdatePartList | ScrapYard/UI/InstanceSelectorVM.cs:61-87 | with no part name, parts becomes empty; otherwise parts is a permutation, sorted by usage, of the grouping of the found and filtered parts, with as many groups; only parts changes |
| InstanceSelector.InstanceSelectorVM.PartListIsGroupedAndOrdered | ScrapYard/UI/InstanceSelectorVM.cs:61-87 | any list UpdatePartList can leave for a part name holds every found part exactly as often as found, has no empty group, each group's first member is the same as every member, members come in input order, and known counts ascending before unknown ones |
| InstanceSelector.InstanceSelectorVM.UpdateCachedPartList | ScrapYard/UI/InstanceSelectorVM.cs:56-59 | rebuilds parts for the cached inventory and backing part name |
| InstanceSelector.InstanceSelectorVM.SetBasePart | ScrapYard/UI/InstanceSelectorVM.cs:21-27 | caches the part; the backing name is the part's name or none for no part; the shown name is its title, or "No Part Active" for no part; parts is rebuilt for that name |
| InstanceSelector.InstanceSelectorVM.constructor | ScrapYard/UI/InstanceSelectorVM.cs:40-46 | stores the inventory and the selling flag; the apply part is kept only when it is the base part (by reference), else null; then the base part is set as the setter does |

## Left out

- ScrapYard/ScrapYard.cs: host lifecycle, the repeating editor-verification timer, persistence hand-off and the GUI hook; none of it has logic beyond calling collaborators.
- `IsSameAs` and `ComparisonStrength`, `FindPartsByName`, `FilterOutUsedParts` and `TimesRecovered`: their code is not part of this model, so they are uninterpreted parameters. Nothing is assumed of `same` except in the one lemma that says so in its requires.
- `PartInstance` construction, the `selling` flag and `ApplyPart` handed to it, and the `Updated` event subscription: UI plumbing. A part instance is modelled as its backing part. The `selling` parameter of `UpdatePartList` is therefore dropped.
- `RefreshApplyPart`, `MakeFresh`, `SpawnNewPart`, `OnMouseOver`, `OnMouseExit`, `ApplyInventoryToEditorVessel`, `AutoApplyInventory`, `Instance_Updated` and the parameterless constructor: they act on the editor, global settings or singletons, which are outside this model.
- Each `InstanceSelectorVM` sees one fixed snapshot of the inventory, the editor's used parts, the TRACKER-strength comparison and the tracker counts: the four collaborators are constant functions. The source re-reads the mutable `PartInventory` and editor state on every call, and `Instance_Updated` rebuilds the list after a change; the model does not capture a list that changes between two calls because the inventory or the editor changed.
- `partInfo` and its `name` and `title` are taken to be non-null; only a null part is modelled.
- SortByUsage: it computes one particular sorted permutation (an insertion sort). Its contract, and that of UpdatePartList, promises only a permutation sorted under the comparator, because `List<T>.Sort` is unstable and its order among ties is unspecified.
- After the sort, the "no earlier group's first member matches" fact is not restated: it is proved in the grouping order, which the sort may change.
