/**
 * Property discovery: the properties an element's metaclass declares directly.
 *
 * Only an element that can be inspected reflectively has a meta object, and only
 * a meta object that is a Kernel `Class` has features; of those features the
 * properties are kept, in feature order. Inherited features are not looked at.
 */
module Discovery {
  import opened MetaModel

  /** The properties among `features`, in feature order. */
  function PropertiesOf(features: seq<Feature>): seq<Property>
  {
    if features == [] then []
    else
      PropertiesOf(features[..|features| - 1])
      + match features[|features| - 1]
        case PropertyFeature(p) => [p]
        case OtherFeature => []
  }

  function MetachainProperties(g: Graph, e: ElemId): seq<Property>
  {
    match g(e).reflection
    case NotRefObject => []
    case RefObject(meta, _) =>
      match meta
      case KernelClass(features) => PropertiesOf(features)
      case OtherMetaObject => []
  }

  /** The features of the element's metaclass, when it has a Kernel `Class` for one. */
  ghost predicate HasFeatures(g: Graph, e: ElemId, features: seq<Feature>)
  {
    g(e).reflection.RefObject? && g(e).reflection.metaObject == KernelClass(features)
  }

  /** Filtering commutes with concatenation, so the kept properties stay in feature order. */
  lemma {:induction false} PropertiesOfAppend(f1: seq<Feature>, f2: seq<Feature>)
    ensures PropertiesOf(f1 + f2) == PropertiesOf(f1) + PropertiesOf(f2)
    decreases |f2|
  {
    if f2 == [] {
      assert f1 + f2 == f1;
    } else {
      var init := f2[..|f2| - 1];
      PropertiesOfAppend(f1, init);
      assert (f1 + f2)[..|f1 + f2| - 1] == f1 + init;
    }
  }

  /** Each property feature is kept exactly as often as it is declared; nothing else is kept. */
  lemma {:induction false} PropertiesOfCounts(features: seq<Feature>, p: Property)
    ensures multiset(PropertiesOf(features))[p] == multiset(features)[PropertyFeature(p)]
  {
    if features != [] {
      var init := features[..|features| - 1];
      PropertiesOfCounts(init, p);
      assert features == init + [features[|features| - 1]];
    }
  }

  /**
   * What discovery finds: nothing for an element that is not a RefObject or whose
   * meta object is not a Kernel `Class`, and otherwise exactly the declared property features.
   */
  lemma MetachainPropertiesFound(g: Graph, e: ElemId, p: Property)
    ensures !g(e).reflection.RefObject? ==> MetachainProperties(g, e) == []
    ensures g(e).reflection.RefObject? && !g(e).reflection.metaObject.KernelClass?
            ==> MetachainProperties(g, e) == []
    ensures p in MetachainProperties(g, e)
            <==> exists fs :: HasFeatures(g, e, fs) && PropertyFeature(p) in fs
  {
    if g(e).reflection.RefObject? && g(e).reflection.metaObject.KernelClass? {
      var fs := g(e).reflection.metaObject.features;
      PropertiesOfCounts(fs, p);
      assert HasFeatures(g, e, fs);
    }
  }

  /** `getMetachainProperties`: collects the property features into a fresh list. */
  method GetMetachainProperties(g: Graph, e: ElemId) returns (props: seq<Property>)
    ensures props == MetachainProperties(g, e)
  {
    props := [];
    match g(e).reflection {
      case RefObject(meta, _) =>
        match meta {
          case KernelClass(features) =>
            var i := 0;
            while i < |features|
              invariant 0 <= i <= |features|
              invariant props == PropertiesOf(features[..i])
            {
              assert features[..i + 1][..i] == features[..i];
              if features[i].PropertyFeature? {
                props := props + [features[i].property];
              }
              i := i + 1;
            }
            assert features[..|features|] == features;
          case OtherMetaObject =>
        }
      case NotRefObject =>
    }
  }
}
