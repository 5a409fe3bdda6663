/**
 * The recursive property-menu builder.
 *
 * `PopulatePropertyMenu(parent, element, depth)` does nothing once `depth`
 * reaches `MAX_DEPTH`. Otherwise it discovers the element's properties, sorts
 * them by label, and for every property that resolves to at least one target
 * appends to `parent` a category for the property. That category holds one
 * category per target, in the order the targets were resolved; each target
 * category starts with the action that selects the target and continues with
 * the target's own property menu one level deeper. There is no visited set:
 * an element met again on a cycle is expanded again, until the depth limit.
 *
 * `PropertyMenu` is the specification of what one call appends; the method is
 * proved to append exactly that, and the lemmas state its shape.
 */
module Crawler {
  import opened MetaModel
  import opened Labels
  import opened Sorting
  import opened Discovery
  import opened Targets
  import opened Menu

  const MAX_DEPTH: int := 5

  /** How many more levels a call at `depth` may expand. */
  function Remaining(depth: int): nat
  {
    if depth < MAX_DEPTH then MAX_DEPTH - depth else 0
  }

  /** The entries one call at `depth` appends to its parent category. */
  function PropertyMenu(g: Graph, e: ElemId, depth: int): seq<MenuItem>
    decreases Remaining(depth), 2, 0
  {
    if depth >= MAX_DEPTH then []
    else PropertyCategories(g, e, SortBy(MetachainProperties(g, e), PropertyLabel), depth)
  }

  /** The property categories for `props`, taken in order. */
  function PropertyCategories(g: Graph, e: ElemId, props: seq<Property>, depth: int): seq<MenuItem>
    requires depth < MAX_DEPTH
    decreases Remaining(depth), 1, |props|
  {
    if props == [] then []
    else PropertyCategories(g, e, props[..|props| - 1], depth) + PropertyEntry(g, e, props[|props| - 1], depth)
  }

  /** The category for one property, or nothing when the property has no target. */
  function PropertyEntry(g: Graph, e: ElemId, p: Property, depth: int): seq<MenuItem>
    requires depth < MAX_DEPTH
    decreases Remaining(depth), 1, 0
  {
    var targets := TargetElements(g, e, p);
    if targets == [] then []
    else [Category(p.id, PropertyLabel(p), TargetCategories(g, targets, depth))]
  }

  function TargetCategories(g: Graph, targets: seq<ElemId>, depth: int): seq<MenuItem>
    requires depth < MAX_DEPTH
    decreases Remaining(depth), 0, |targets|
  {
    if targets == [] then []
    else TargetCategories(g, targets[..|targets| - 1], depth) + [TargetCategory(g, targets[|targets| - 1], depth)]
  }

  function TargetCategory(g: Graph, t: ElemId, depth: int): MenuItem
    requires depth < MAX_DEPTH
    decreases Remaining(depth), 0, 0
  {
    Category(t, DisplayText(g, t), [Action(t, DisplayText(g, t))] + PropertyMenu(g, t, depth + 1))
  }

  /** The properties of `props` that resolve to at least one target on `e`, in order. */
  function WithTargets(g: Graph, e: ElemId, props: seq<Property>): seq<Property>
  {
    if props == [] then []
    else
      WithTargets(g, e, props[..|props| - 1])
      + (if TargetElements(g, e, props[|props| - 1]) != [] then [props[|props| - 1]] else [])
  }

  /** `populatePropertyMenu`: appends exactly `PropertyMenu(g, element, depth)` to `parent`. */
  method PopulatePropertyMenu(g: Graph, parent: ActionsCategory, element: ElemId, depth: int)
    modifies parent
    ensures parent.items == old(parent.items) + PropertyMenu(g, element, depth)
    decreases Remaining(depth), 2, 0
  {
    if depth >= MAX_DEPTH {
      return;
    }
    var sorted := SortedProperties(g, element);
    AddPropertyCategories(g, parent, element, sorted, depth);
  }

  /** The builder's loop over the sorted properties, appending the entry of each in turn. */
  method AddPropertyCategories(g: Graph, parent: ActionsCategory, element: ElemId, sorted: seq<Property>, depth: int)
    requires depth < MAX_DEPTH
    modifies parent
    ensures parent.items == old(parent.items) + PropertyCategories(g, element, sorted, depth)
    decreases Remaining(depth), 1, 0
  {
    var i := 0;
    while i < |sorted|
      invariant 0 <= i <= |sorted|
      invariant parent.items == old(parent.items) + PropertyCategories(g, element, sorted[..i], depth)
    {
      CategoriesStep(g, element, sorted, i, depth);
      AddPropertyCategory(g, parent, element, sorted[i], depth);
      i := i + 1;
    }
    assert sorted[..|sorted|] == sorted;
  }

  /** The builder's loop adds the entry of one more property to those of the ones before it. */
  lemma CategoriesStep(g: Graph, e: ElemId, props: seq<Property>, i: nat, depth: int)
    requires i < |props| && depth < MAX_DEPTH
    ensures PropertyCategories(g, e, props[..i + 1], depth)
            == PropertyCategories(g, e, props[..i], depth) + PropertyEntry(g, e, props[i], depth)
  {
    assert props[..i + 1][..i] == props[..i];
  }

  /** The element's properties, collected into a list and sorted in place by label. */
  method SortedProperties(g: Graph, element: ElemId) returns (sorted: seq<Property>)
    ensures sorted == SortBy(MetachainProperties(g, element), PropertyLabel)
  {
    var found := GetMetachainProperties(g, element);
    var properties := new Property[|found|](k requires 0 <= k < |found| => found[k]);
    assert properties[..] == found;
    SortInPlace(properties, PropertyLabel);
    sorted := properties[..];
  }

  /**
   * One turn of the builder's loop over the sorted properties: a property with
   * targets gets a category of target categories, each filled by the recursive
   * call one level deeper; a property without targets is skipped.
   */
  method AddPropertyCategory(g: Graph, parent: ActionsCategory, element: ElemId, property: Property, depth: int)
    requires depth < MAX_DEPTH
    modifies parent
    ensures parent.items == old(parent.items) + PropertyEntry(g, element, property, depth)
    decreases Remaining(depth), 0, 1
  {
    var targets := GetTargetElements(g, element, property);
    if targets == [] {
      return;
    }
    var propertyLabel := PropertyLabel(property);
    var propertyCategory := new ActionsCategory(property.id, propertyLabel);
    var j := 0;
    while j < |targets|
      invariant 0 <= j <= |targets|
      invariant propertyCategory.items == TargetCategories(g, targets[..j], depth)
      modifies propertyCategory
    {
      assert targets[..j + 1][..j] == targets[..j];
      var targetCategory := BuildTargetCategory(g, targets[j], depth);
      propertyCategory.AddAction(targetCategory);
      j := j + 1;
    }
    assert targets[..|targets|] == targets;
    parent.AddAction(propertyCategory.AsItem());
  }

  /**
   * The category of one target: the action that selects the target, then the
   * target's own property menu one level deeper.
   */
  method BuildTargetCategory(g: Graph, target: ElemId, depth: int) returns (item: MenuItem)
    requires depth < MAX_DEPTH
    ensures item == TargetCategory(g, target, depth)
    decreases Remaining(depth), 0, 0
  {
    var targetLabel := DisplayText(g, target);
    var targetCategory := new ActionsCategory(target, targetLabel);
    targetCategory.AddAction(Action(target, targetLabel));
    PopulatePropertyMenu(g, targetCategory, target, depth + 1);
    item := targetCategory.AsItem();
  }

  // ---------------------------------------------------------------------------
  // Pruning and order

  /** A property is kept exactly when it is in `props` and has a target. */
  lemma {:induction false} WithTargetsKeeps(g: Graph, e: ElemId, props: seq<Property>, p: Property)
    ensures p in WithTargets(g, e, props) <==> p in props && TargetElements(g, e, p) != []
  {
    if props != [] {
      var init := props[..|props| - 1];
      WithTargetsKeeps(g, e, init, p);
      assert props == init + [props[|props| - 1]];
    }
  }

  /** Pruning keeps a list that is in label order in label order. */
  lemma {:induction false} WithTargetsSorted(g: Graph, e: ElemId, props: seq<Property>)
    requires SortedBy(props, PropertyLabel)
    ensures SortedBy(WithTargets(g, e, props), PropertyLabel)
  {
    if props != [] {
      var init, last := props[..|props| - 1], props[|props| - 1];
      assert SortedBy(init, PropertyLabel);
      WithTargetsSorted(g, e, init);
      var kept := WithTargets(g, e, init);
      forall k | 0 <= k < |kept|
        ensures LexLe(PropertyLabel(kept[k]), PropertyLabel(last))
      {
        WithTargetsKeeps(g, e, init, kept[k]);
        var m :| 0 <= m < |init| && init[m] == kept[k];
      }
    }
  }

  /** Pruning and selecting one label commute. */
  lemma {:induction false} WithTargetsWithKey(g: Graph, e: ElemId, props: seq<Property>, key: string)
    ensures WithKey(WithTargets(g, e, props), PropertyLabel, key) == WithTargets(g, e, WithKey(props, PropertyLabel, key))
  {
    if props != [] {
      var init, last := props[..|props| - 1], props[|props| - 1];
      assert props == init + [last];
      WithTargetsWithKey(g, e, init, key);
      var kept, same := WithTargets(g, e, init), WithKey(init, PropertyLabel, key);
      var hasTargets, hasKey := TargetElements(g, e, last) != [], PropertyLabel(last) == key;
      WithTargetsSnoc(g, e, init, last);
      WithKeySnoc(init, last, key);
      if hasTargets {
        WithKeySnoc(kept, last, key);
      } else {
        assert WithTargets(g, e, props) == kept;
      }
      if hasKey {
        WithTargetsSnoc(g, e, same, last);
      } else {
        assert WithKey(props, PropertyLabel, key) == same;
      }
    }
  }

  lemma WithKeySnoc(s: seq<Property>, x: Property, key: string)
    ensures WithKey(s + [x], PropertyLabel, key) == WithKey(s, PropertyLabel, key) + (if PropertyLabel(x) == key then [x] else [])
  {
    assert (s + [x])[..|s|] == s;
  }

  lemma WithTargetsSnoc(g: Graph, e: ElemId, s: seq<Property>, x: Property)
    ensures WithTargets(g, e, s + [x]) == WithTargets(g, e, s) + (if TargetElements(g, e, x) != [] then [x] else [])
  {
    assert (s + [x])[..|s|] == s;
  }

  /**
   * The entries for `props` are one category per property that has a target, in
   * the order of `props`, each holding the categories of that property's targets.
   */
  lemma {:induction false} CategoriesShape(g: Graph, e: ElemId, props: seq<Property>, depth: int)
    requires depth < MAX_DEPTH
    ensures |PropertyCategories(g, e, props, depth)| == |WithTargets(g, e, props)|
    ensures forall k :: 0 <= k < |WithTargets(g, e, props)| ==>
              var p := WithTargets(g, e, props)[k];
              PropertyCategories(g, e, props, depth)[k]
              == Category(p.id, PropertyLabel(p), TargetCategories(g, TargetElements(g, e, p), depth))
  {
    if props != [] {
      CategoriesShape(g, e, props[..|props| - 1], depth);
    }
  }

  /**
   * Inside a property category the target categories follow the resolved targets
   * one for one and in the same order; each starts with the action selecting its
   * target, followed by that target's property menu one level deeper.
   */
  lemma {:induction false} TargetsShape(g: Graph, targets: seq<ElemId>, depth: int)
    requires depth < MAX_DEPTH
    ensures |TargetCategories(g, targets, depth)| == |targets|
    ensures forall k :: 0 <= k < |targets| ==>
              TargetCategories(g, targets, depth)[k]
              == Category(targets[k], DisplayText(g, targets[k]),
                          [Action(targets[k], DisplayText(g, targets[k]))] + PropertyMenu(g, targets[k], depth + 1))
  {
    TargetsAt(g, targets, depth);
    forall k | 0 <= k < |targets|
      ensures TargetCategories(g, targets, depth)[k]
              == Category(targets[k], DisplayText(g, targets[k]),
                          [Action(targets[k], DisplayText(g, targets[k]))] + PropertyMenu(g, targets[k], depth + 1))
    {
      assert TargetCategories(g, targets, depth)[k] == TargetCategory(g, targets[k], depth);
    }
  }

  /** The `k`-th target category is the one of the `k`-th target. */
  lemma {:induction false} TargetsAt(g: Graph, targets: seq<ElemId>, depth: int)
    requires depth < MAX_DEPTH
    ensures |TargetCategories(g, targets, depth)| == |targets|
    ensures forall k :: 0 <= k < |targets| ==>
              TargetCategories(g, targets, depth)[k] == TargetCategory(g, targets[k], depth)
  {
    if targets != [] {
      var init := targets[..|targets| - 1];
      TargetsAt(g, init, depth);
      assert forall k :: 0 <= k < |init| ==> init[k] == targets[k];
    }
  }

  /**
   * What one call below the depth limit appends: nothing but property categories,
   * one for each discovered property that has a target, in ascending label order.
   * Each holds one entry per resolved target, so none is empty.
   */
  lemma MenuShape(g: Graph, e: ElemId, depth: int)
    requires depth < MAX_DEPTH
    ensures var kept := WithTargets(g, e, SortBy(MetachainProperties(g, e), PropertyLabel));
            |PropertyMenu(g, e, depth)| == |kept|
            && forall k :: 0 <= k < |kept| ==>
                 PropertyMenu(g, e, depth)[k]
                 == Category(kept[k].id, PropertyLabel(kept[k]),
                             TargetCategories(g, TargetElements(g, e, kept[k]), depth))
    ensures forall m :: m in PropertyMenu(g, e, depth) ==> m.Category? && |m.items| > 0
    ensures forall i, j :: 0 <= i < j < |PropertyMenu(g, e, depth)| ==>
              LexLe(PropertyMenu(g, e, depth)[i].name, PropertyMenu(g, e, depth)[j].name)
  {
    var sorted := SortBy(MetachainProperties(g, e), PropertyLabel);
    var kept := WithTargets(g, e, sorted);
    var menu := PropertyMenu(g, e, depth);
    CategoriesShape(g, e, sorted, depth);
    SortSorted(MetachainProperties(g, e), PropertyLabel);
    WithTargetsSorted(g, e, sorted);
    forall m | m in menu
      ensures m.Category? && |m.items| > 0
    {
      var k :| 0 <= k < |menu| && menu[k] == m;
      WithTargetsKeeps(g, e, sorted, kept[k]);
      TargetsShape(g, TargetElements(g, e, kept[k]), depth);
    }
  }

  /** Exactly the discovered properties that have a target get a category. */
  lemma MenuKeepsPropertiesWithTargets(g: Graph, e: ElemId, depth: int, p: Property)
    requires depth < MAX_DEPTH
    ensures p in WithTargets(g, e, SortBy(MetachainProperties(g, e), PropertyLabel))
            <==> p in MetachainProperties(g, e) && TargetElements(g, e, p) != []
  {
    var found := MetachainProperties(g, e);
    WithTargetsKeeps(g, e, SortBy(found, PropertyLabel), p);
    SortPermutes(found, PropertyLabel);
    assert p in SortBy(found, PropertyLabel) <==> p in multiset(SortBy(found, PropertyLabel));
  }

  /**
   * The sort is stable, so properties sharing a label get their categories in
   * the order discovery found them.
   */
  lemma MenuOrderStable(g: Graph, e: ElemId, key: string)
    ensures WithKey(WithTargets(g, e, SortBy(MetachainProperties(g, e), PropertyLabel)), PropertyLabel, key)
            == WithTargets(g, e, WithKey(MetachainProperties(g, e), PropertyLabel, key))
  {
    var found := MetachainProperties(g, e);
    WithTargetsWithKey(g, e, SortBy(found, PropertyLabel), key);
    SortStable(found, PropertyLabel, key);
  }

  // ---------------------------------------------------------------------------
  // Depth

  /**
   * Categories nest at most two per remaining level (a property category, then a
   * target category), so property categories nest at most `MAX_DEPTH - depth`
   * deep; a call at or past the limit appends nothing.
   */
  lemma {:induction false} MenuDepthBound(g: Graph, e: ElemId, depth: int)
    ensures MaxHeight(PropertyMenu(g, e, depth)) <= 2 * Remaining(depth)
    ensures depth >= MAX_DEPTH ==> PropertyMenu(g, e, depth) == []
    decreases Remaining(depth), 2, 0
  {
    if depth < MAX_DEPTH {
      CategoriesDepthBound(g, e, SortBy(MetachainProperties(g, e), PropertyLabel), depth);
    }
  }

  lemma {:induction false} CategoriesDepthBound(g: Graph, e: ElemId, props: seq<Property>, depth: int)
    requires depth < MAX_DEPTH
    ensures MaxHeight(PropertyCategories(g, e, props, depth)) <= 2 * Remaining(depth)
    decreases Remaining(depth), 1, |props|
  {
    if props != [] {
      var init, last := props[..|props| - 1], props[|props| - 1];
      CategoriesDepthBound(g, e, init, depth);
      MaxHeightAppend(PropertyCategories(g, e, init, depth), PropertyEntry(g, e, last, depth));
      var targets := TargetElements(g, e, last);
      if targets != [] {
        TargetsDepthBound(g, targets, depth);
        var entry := PropertyEntry(g, e, last, depth);
        assert entry[..0] == [];
        assert MaxHeight(entry) == Height(entry[0]);
      }
    }
  }

  lemma {:induction false} TargetsDepthBound(g: Graph, targets: seq<ElemId>, depth: int)
    requires depth < MAX_DEPTH
    ensures MaxHeight(TargetCategories(g, targets, depth)) < 2 * Remaining(depth)
    decreases Remaining(depth), 0, |targets|
  {
    if targets != [] {
      var init, t := targets[..|targets| - 1], targets[|targets| - 1];
      TargetsDepthBound(g, init, depth);
      var c := TargetCategory(g, t, depth);
      MaxHeightAppend(TargetCategories(g, init, depth), [c]);
      MenuDepthBound(g, t, depth + 1);
      var action: seq<MenuItem> := [Action(t, DisplayText(g, t))];
      assert MaxHeight(action) == 0 by {
        assert action[..0] == [];
      }
      MaxHeightAppend(action, PropertyMenu(g, t, depth + 1));
      assert [c][..0] == [];
    }
  }

  // ---------------------------------------------------------------------------
  // Cycles

  /**
   * With no visited set, a cycle is followed to the depth limit: when the only
   * property of `a` points to `b` and the only property of `b` points back to
   * `a` (or `a == b`), each element is expanded again under the other, and the
   * menus reach the full depth bound.
   */
  lemma {:induction false} CycleReexpanded(g: Graph, a: ElemId, b: ElemId, p: Property, q: Property, depth: int)
    requires MetachainProperties(g, a) == [p] && TargetElements(g, a, p) == [b]
    requires MetachainProperties(g, b) == [q] && TargetElements(g, b, q) == [a]
    requires depth < MAX_DEPTH
    ensures PropertyMenu(g, a, depth)
            == [Category(p.id, PropertyLabel(p),
                         [Category(b, DisplayText(g, b), [Action(b, DisplayText(g, b))] + PropertyMenu(g, b, depth + 1))])]
    ensures PropertyMenu(g, b, depth)
            == [Category(q.id, PropertyLabel(q),
                         [Category(a, DisplayText(g, a), [Action(a, DisplayText(g, a))] + PropertyMenu(g, a, depth + 1))])]
    ensures MaxHeight(PropertyMenu(g, a, depth)) == 2 * Remaining(depth)
    ensures MaxHeight(PropertyMenu(g, b, depth)) == 2 * Remaining(depth)
    decreases Remaining(depth)
  {
    SingleTargetMenu(g, a, b, p, depth);
    SingleTargetMenu(g, b, a, q, depth);
    if depth + 1 < MAX_DEPTH {
      CycleReexpanded(g, a, b, p, q, depth + 1);
    }
  }

  /** The menu of an element whose only property has the one target `t`, and its height. */
  lemma SingleTargetMenu(g: Graph, e: ElemId, t: ElemId, p: Property, depth: int)
    requires MetachainProperties(g, e) == [p] && TargetElements(g, e, p) == [t]
    requires depth < MAX_DEPTH
    ensures PropertyMenu(g, e, depth)
            == [Category(p.id, PropertyLabel(p),
                         [Category(t, DisplayText(g, t), [Action(t, DisplayText(g, t))] + PropertyMenu(g, t, depth + 1))])]
    ensures MaxHeight(PropertyMenu(g, e, depth)) == 2 + MaxHeight(PropertyMenu(g, t, depth + 1))
  {
    assert SortBy([p], PropertyLabel) == [p];
    assert [p][..0] == [] && [t][..0] == [];
    assert PropertyCategories(g, e, [p], depth) == PropertyEntry(g, e, p, depth);
    assert TargetCategories(g, [t], depth) == [TargetCategory(g, t, depth)];
    var action: seq<MenuItem> := [Action(t, DisplayText(g, t))];
    var below := PropertyMenu(g, t, depth + 1);
    MaxHeightAppend(action, below);
    assert action[..0] == [];
    assert MaxHeight(action) == 0;
    var inner := Category(t, DisplayText(g, t), action + below);
    assert Height(inner) == 1 + MaxHeight(below);
    assert [inner][..0] == [];
    assert MaxHeight([inner]) == Height(inner);
    var outer := Category(p.id, PropertyLabel(p), [inner]);
    assert [outer][..0] == [];
    assert MaxHeight([outer]) == Height(outer);
  }
}
