/**
 * Target resolution: the elements a property of an element currently points to.
 *
 * The value is read reflectively by the property's name. A single element gives
 * itself; a collection gives its element items in iteration order, skipping
 * everything else; any other value (null, a scalar) gives nothing. A read that
 * throws gives nothing, and a collection whose iteration throws part-way keeps
 * the elements already collected, since the exception is caught after them.
 */
module Targets {
  import opened MetaModel

  /** The element items of a collection, in iteration order. */
  function ElementsOf(items: seq<Obj>): seq<ElemId>
  {
    if items == [] then []
    else
      ElementsOf(items[..|items| - 1])
      + match items[|items| - 1]
        case ElementObj(t) => [t]
        case OtherObj => []
  }

  function TargetsOfValue(v: Value): seq<ElemId>
  {
    match v
    case SingleElement(t) => [t]
    case CollectionValue(items, _) => ElementsOf(items)
    case Null => []
    case Scalar => []
  }

  function TargetElements(g: Graph, e: ElemId, p: Property): seq<ElemId>
  {
    match g(e).reflection
    case NotRefObject => []
    case RefObject(_, values) => if p.name in values then TargetsOfValue(values[p.name]) else []
  }

  /** The value a successful read of `p` on `e` returns. */
  ghost predicate Reads(g: Graph, e: ElemId, p: Property, v: Value)
  {
    g(e).reflection.RefObject? && p.name in g(e).reflection.values && g(e).reflection.values[p.name] == v
  }

  lemma {:induction false} ElementsOfAppend(s1: seq<Obj>, s2: seq<Obj>)
    ensures ElementsOf(s1 + s2) == ElementsOf(s1) + ElementsOf(s2)
    decreases |s2|
  {
    if s2 == [] {
      assert s1 + s2 == s1;
    } else {
      var init := s2[..|s2| - 1];
      ElementsOfAppend(s1, init);
      assert (s1 + s2)[..|s1 + s2| - 1] == s1 + init;
    }
  }

  /** Each element item is kept exactly as often as it occurs; non-element items are dropped. */
  lemma {:induction false} ElementsOfCounts(items: seq<Obj>, t: ElemId)
    ensures multiset(ElementsOf(items))[t] == multiset(items)[ElementObj(t)]
  {
    if items != [] {
      var init := items[..|items| - 1];
      ElementsOfCounts(init, t);
      assert items == init + [items[|items| - 1]];
    }
  }

  /**
   * The resolution table: what each shape of read value yields, and that an
   * element that is not a RefObject, or a read that throws, yields nothing.
   */
  lemma TargetResolution(g: Graph, e: ElemId, p: Property, t: ElemId)
    ensures !g(e).reflection.RefObject? ==> TargetElements(g, e, p) == []
    ensures g(e).reflection.RefObject? && p.name !in g(e).reflection.values ==> TargetElements(g, e, p) == []
    ensures Reads(g, e, p, SingleElement(t)) ==> TargetElements(g, e, p) == [t]
    ensures Reads(g, e, p, Null) || Reads(g, e, p, Scalar) ==> TargetElements(g, e, p) == []
    ensures forall items, fails :: Reads(g, e, p, CollectionValue(items, fails))
              ==> TargetElements(g, e, p) == ElementsOf(items)
  {
  }

  /** Every target is an element the read returned, and every element it returned is a target. */
  lemma TargetsAreReadElements(g: Graph, e: ElemId, p: Property, t: ElemId)
    ensures t in TargetElements(g, e, p)
            <==> Reads(g, e, p, SingleElement(t))
                 || exists items, fails :: Reads(g, e, p, CollectionValue(items, fails)) && ElementObj(t) in items
  {
    var r := g(e).reflection;
    if r.RefObject? && p.name in r.values && r.values[p.name].CollectionValue? {
      var v := r.values[p.name];
      ElementsOfCounts(v.items, t);
      assert Reads(g, e, p, CollectionValue(v.items, v.failsAfter));
    }
  }

  /** `getTargetElements`: builds the list of targets, catching a failing read. */
  method GetTargetElements(g: Graph, e: ElemId, p: Property) returns (targets: seq<ElemId>)
    ensures targets == TargetElements(g, e, p)
  {
    targets := [];
    match g(e).reflection {
      case RefObject(_, values) =>
        if p.name in values {
          match values[p.name] {
            case SingleElement(t) =>
              targets := targets + [t];
            case CollectionValue(items, failsAfter) =>
              var i := 0;
              while i < |items|
                invariant 0 <= i <= |items|
                invariant targets == ElementsOf(items[..i])
              {
                assert items[..i + 1][..i] == items[..i];
                if items[i].ElementObj? {
                  targets := targets + [items[i].id];
                }
                i := i + 1;
              }
              assert items[..|items|] == items;
              // When `failsAfter`, the iteration throws here; the handler keeps `targets` as built.
            case Null =>
            case Scalar =>
          }
        }
        // Otherwise the read throws and the handler leaves `targets` empty.
      case NotRefObject =>
    }
  }
}
