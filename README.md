# Metacrawler menu builder, modelled in Dafny

Metacrawler is a MagicDraw plugin. It adds a context menu that lets the user
walk the model reflectively. Given an element, `populatePropertyMenu` does this:

- It finds the properties the element's metaclass declares directly.
- It sorts them by a label of the form `friendly (name)`.
- Each property that currently points to at least one element gets a nested
  category.
- That category holds one category per target. Each target category starts
  with a "select this element" action and continues with the target's own
  property menu, one level deeper.
- Recursion stops at `MAX_DEPTH` (5).

The model works over an abstract object graph:

- `MetaModel`: the object graph as plain data. A graph is a total function from
  element ids to element data: display text plus reflective data (meta object,
  and the value read under each property name).
- `Labels`: `getPropertyLabel`, and the `String.compareTo` order on labels.
  The order is proved equal to a reference definition and to be a strict total
  order.
- `Sorting`: `List.sort(Comparator.comparing(key))` as an in-place stable sort
  on an array. It is proved to produce `SortBy`, a functional sort. `SortBy` is
  proved sorted, a permutation of its input, and stable.
- `Discovery`: `getMetachainProperties`.
- `Targets`: `getTargetElements`, including its exception paths.
- `Menu`: the host's `ActionsCategory` as a class whose `addAction` appends to
  a `seq` of entries, and the menu-entry datatype.
- `Crawler`: `populatePropertyMenu`. The method is proved to append exactly
  `PropertyMenu(g, element, depth)` to its parent. The lemmas state that
  menu's shape, pruning, order, stability and depth bound, and how a cycle is
  re-expanded.

The builder's loop bodies are separate methods:

- `AddPropertyCategories` is the loop over the sorted properties.
- `AddPropertyCategory` is one turn of that loop.
- `BuildTargetCategory` is one turn of the inner loop over the targets.
- `SortedProperties` copies the discovered list into an array and sorts it.

Together they perform the same steps in the same order as the single Java method.

What the code does not do, so neither does the model:

- The code has no cycle guard (path-local or global). An element met again on
  a cycle is expanded again until the depth limit; `Crawler.CycleReexpanded`
  states this.
- The code has no property cache.
- The code does not flatten inherited properties. Only directly declared
  features are read, as the source's own comment at
  `src/main/java/com/jonbackhaus/metacrawler/MetacrawlerService.java:82-83`
  says.
- The depth limit is the constant 5, not a caller-supplied parameter.
- Properties are sorted by the formatted label, not by the bare name.

## Model

| member | source | states |
|---|---|---|
| Crawler.PopulatePropertyMenu | src/main/java/com/jonbackhaus/metacrawler/MetacrawlerService.java:17-53 | the parent's entries become its old entries followed by exactly `PropertyMenu(g, element, depth)`; nothing else of the parent changes |
| Crawler.AddPropertyCategories | src/main/java/com/jonbackhaus/metacrawler/MetacrawlerService.java:28-52 | the loop over the sorted properties appends their entries in list order, and nothing else |
| Crawler.AddPropertyCategory | src/main/java/com/jonbackhaus/metacrawler/MetacrawlerService.java:29-51 | a property without targets appends nothing; otherwise exactly one category, with the property's id and label, holding the target categories |
| Crawler.BuildTargetCategory | src/main/java/com/jonbackhaus/metacrawler/MetacrawlerService.java:40-48 | the target category has the target's id and display text; its entries are the select action, then the target's property menu one level deeper |
| Crawler.SortedProperties | src/main/java/com/jonbackhaus/metacrawler/MetacrawlerService.java:23-26 | the list iterated is the discovered properties sorted by label (`SortBy` with `PropertyLabel`) |
| Crawler.MenuShape | src/main/java/com/jonbackhaus/metacrawler/MetacrawlerService.java:26-51 | below the limit, the menu has one entry per sorted property that has a target, in that order. Each entry is a category with that property's id and label, holding its target categories. Only property categories appear, none is empty, and their names ascend in `compareTo` order |
| Crawler.CategoriesShape | src/main/java/com/jonbackhaus/metacrawler/MetacrawlerService.java:28-51 | the categories for any property list match, index by index, the properties in it that have a target |
| Crawler.TargetsShape | src/main/java/com/jonbackhaus/metacrawler/MetacrawlerService.java:39-49 | target categories follow the resolved targets one for one, in resolver order, without re-sorting. Each consists of the select action followed by the menu at `depth + 1` |
| Crawler.WithTargetsKeeps | src/main/java/com/jonbackhaus/metacrawler/MetacrawlerService.java:29-31 | pruning keeps a property exactly when it is in the list and resolves to a non-empty target list |
| Crawler.WithTargetsSorted | src/main/java/com/jonbackhaus/metacrawler/MetacrawlerService.java:26-31 | skipping properties without targets keeps a label-sorted list sorted |
| Crawler.MenuKeepsPropertiesWithTargets | src/main/java/com/jonbackhaus/metacrawler/MetacrawlerService.java:23-31 | a property gets a category if and only if discovery found it and it has a target |
| Crawler.MenuOrderStable | src/main/java/com/jonbackhaus/metacrawler/MetacrawlerService.java:26-28 | properties sharing a label keep their discovery (feature) order among the categories, because the sort is stable |
| Crawler.MenuDepthBound | src/main/java/com/jonbackhaus/metacrawler/MetacrawlerService.java:15-19 | a call at or past `MAX_DEPTH` appends nothing. Below it, the appended entries nest at most `2 * (MAX_DEPTH - depth)` categories deep (measured by `MaxHeight`, counting property and target categories alike) |
| Crawler.CategoriesDepthBound | src/main/java/com/jonbackhaus/metacrawler/MetacrawlerService.java:28-51 | the property categories built at `depth`, with everything inside them, nest at most `2 * (MAX_DEPTH - depth)` categories deep |
| Crawler.TargetsDepthBound | src/main/java/com/jonbackhaus/metacrawler/MetacrawlerService.java:39-49 | the target categories built at `depth`, with everything inside them, nest fewer than `2 * (MAX_DEPTH - depth)` categories deep, because the recursion uses `depth + 1` |
| Crawler.CycleReexpanded | src/main/java/com/jonbackhaus/metacrawler/MetacrawlerService.java:17-49 | on a two-element cycle A to B to A, each menu contains the other element's full expansion, and both reach exactly the depth bound: the cycle is followed until the limit |
| Crawler.SingleTargetMenu | src/main/java/com/jonbackhaus/metacrawler/MetacrawlerService.java:28-49 | an element whose only property has exactly one target gets one property category holding one target category, two levels above the target's menu |
| Sorting.SortInPlace | src/main/java/com/jonbackhaus/metacrawler/MetacrawlerService.java:26 | after the in-place sort the array holds exactly `SortBy` of its old contents |
| Sorting.InsertAt | src/main/java/com/jonbackhaus/metacrawler/MetacrawlerService.java:26 | one insertion step puts the next element into the sorted prefix as `Insert` does, and leaves the rest of the array unchanged |
| Sorting.SortSorted | src/main/java/com/jonbackhaus/metacrawler/MetacrawlerService.java:26 | the sorted list is in ascending key order |
| Sorting.SortPermutes | src/main/java/com/jonbackhaus/metacrawler/MetacrawlerService.java:26 | sorting keeps every element exactly as often as it occurs (same multiset) |
| Sorting.SortStable | src/main/java/com/jonbackhaus/metacrawler/MetacrawlerService.java:26 | for every key, the elements with that key are in the same relative order before and after sorting |
| Sorting.SortKeepsSorted | src/main/java/com/jonbackhaus/metacrawler/MetacrawlerService.java:26 | a list already in key order is left unchanged |
| Sorting.SortIdempotent | src/main/java/com/jonbackhaus/metacrawler/MetacrawlerService.java:26 | sorting twice gives the same list as sorting once |
| Labels.LabelOfNamedProperty | src/main/java/com/jonbackhaus/metacrawler/MetacrawlerService.java:55-60 | a property with a non-empty name is labelled `name (name)` |
| Labels.LabelOfUnnamedProperty | src/main/java/com/jonbackhaus/metacrawler/MetacrawlerService.java:56-60 | with a null or empty name the friendly part is the human name. The parenthesised part is still the raw name: `(null)` for null, `()` for empty |
| Labels.LabelDeterminesName | src/main/java/com/jonbackhaus/metacrawler/MetacrawlerService.java:55-61 | among properties with non-empty names, equal labels mean equal names |
| Labels.LexLessMeetsSpec | src/main/java/com/jonbackhaus/metacrawler/MetacrawlerService.java:26 | the label comparison is `compareTo`'s order: smaller at the first differing character, or a proper prefix |
| Labels.LexLessIrreflexive | src/main/java/com/jonbackhaus/metacrawler/MetacrawlerService.java:26 | no label sorts before itself |
| Labels.LexLessTransitive | src/main/java/com/jonbackhaus/metacrawler/MetacrawlerService.java:26 | the label order is transitive |
| Labels.LexLessTotal | src/main/java/com/jonbackhaus/metacrawler/MetacrawlerService.java:26 | any two different labels are ordered one way or the other |
| Discovery.GetMetachainProperties | src/main/java/com/jonbackhaus/metacrawler/MetacrawlerService.java:63-91 | the collected list is `MetachainProperties(g, e)`: the property features of a Kernel `Class` meta object, in feature order, and otherwise empty |
| Discovery.MetachainPropertiesFound | src/main/java/com/jonbackhaus/metacrawler/MetacrawlerService.java:63-91 | discovery gives nothing for a non-RefObject, or a meta object that is not a Kernel `Class`. Otherwise a property is found if and only if it is among the metaclass's declared features |
| Discovery.PropertiesOfAppend | src/main/java/com/jonbackhaus/metacrawler/MetacrawlerService.java:75-80 | filtering the features distributes over concatenation, so the found properties keep feature order |
| Discovery.PropertiesOfCounts | src/main/java/com/jonbackhaus/metacrawler/MetacrawlerService.java:75-80 | each property is found exactly as often as it is declared as a feature, and non-property features are dropped |
| Targets.GetTargetElements | src/main/java/com/jonbackhaus/metacrawler/MetacrawlerService.java:93-113 | the built list is `TargetElements(g, e, p)`, including on the paths where the read or the iteration throws |
| Targets.TargetResolution | src/main/java/com/jonbackhaus/metacrawler/MetacrawlerService.java:93-113 | the resolution table: a non-RefObject, a failing read, null or a scalar give `[]`; a single element gives `[t]`; a collection gives its element items in order |
| Targets.TargetsAreReadElements | src/main/java/com/jonbackhaus/metacrawler/MetacrawlerService.java:98-107 | an element is a target if and only if the read returned it, or returned a collection containing it |
| Targets.ElementsOfAppend | src/main/java/com/jonbackhaus/metacrawler/MetacrawlerService.java:101-107 | collecting element items distributes over concatenation, so iteration order is kept |
| Targets.ElementsOfCounts | src/main/java/com/jonbackhaus/metacrawler/MetacrawlerService.java:101-107 | each element item is kept exactly as often as it occurs in the collection, and non-elements are dropped |
| Menu.ActionsCategory.AddAction | src/main/java/com/jonbackhaus/metacrawler/MetacrawlerService.java:44-51 | `addAction` appends the given entry at the end of the category's entries |
| Menu.ActionsCategory.constructor | src/main/java/com/jonbackhaus/metacrawler/MetacrawlerService.java:36 | a new category has the given id and name and no entries |

## Left out

- Logging (`log` and every call to it) is output to the host's GUI log and to
  standard output, so it is not modelled.
- The MagicDraw and JMI APIs are foreign calls and appear only as data:
  - `RepresentationTextCreator.getRepresentedText` is the graph's display text.
  - `getID` is the element id and `Property.id`.
  - `refMetaObject` and `refGetValue` are the element's `Reflection` data.
- Host calls outside the try block are assumed never to throw. These are
  `refMetaObject`, `getFeature` and its iteration, `getID`, `getHumanName`,
  `getRepresentedText` and `addAction`. In the host, an exception from any of
  them escapes `populatePropertyMenu` and leaves the parent partly filled; the
  model has no such path. Only the `refGetValue` read and the collection
  iteration inside the try block can fail in the model.
- `ActionsCategory.setNested(true)` only affects how the host renders the
  category, so it is not modelled.
- `MetacrawlerAction` is not part of this model beyond its constructor
  arguments. It is the leaf `Action(target, name)`.
- `ActionsCategory` entries are value snapshots. The builder adds a category
  only after filling it and never changes it afterwards, so aliasing between a
  category object and its entry in the parent is not modelled.
- `refGetValue` is modelled as a lookup in a map from property names to
  values. A name with no entry, including a null name the host rejects, stands
  for a read that throws. What the host actually does for a given name is not
  modelled.
- A collection whose iteration throws part-way is
  `CollectionValue(items, true)`, where `items` are the items yielded before
  the failure. The handler then keeps the targets collected so far.
- `src/main/java/com/jonbackhaus/metacrawler/MetacrawlerMenuConfigurator.java`
  is UI wiring. It calls a two-argument `populatePropertyMenu` that the service
  does not declare, so no entry point is modelled from it.
- `src/main/java/com/jonbackhaus/metacrawler/MetacrawlerPlugin.java` is plugin
  registration with the host, so it is not modelled.
- Labels.LexLess: Dafny characters are Unicode scalar values, while Java
  compares UTF-16 code units. The two orders differ only for characters outside
  the Basic Multilingual Plane.
- Labels.PropertyLabel: `String.format` is shown only for the `%s` conversions
  it uses here, with a null argument rendered as `null`.
- Sorting.SortInPlace: the host's `List.sort` is a TimSort, not an insertion
  sort. Any stable sort by the same comparator gives the same list, and the
  model proves that list: sorted, a permutation of the input, and stable.
- Caching, inherited-feature flattening, deduplication and cycle detection are
  absent from the code, so they are absent from the model.
- Concurrency: the builder runs on one thread and shares no state.
