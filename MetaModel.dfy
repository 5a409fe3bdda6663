/**
 * The object graph the menu builder walks, reduced to plain data.
 *
 * An element is known by its id. What the builder asks of an element is its
 * display text (the host's representation text), whether it can be inspected
 * reflectively (is a JMI RefObject), its meta object, and the raw value stored
 * under a property name. The graph gives this data for every id, so a graph is
 * a total function from ids to element data; cyclic graphs are ordinary values.
 */
module MetaModel {

  datatype Option<+T> = None | Some(value: T)

  type ElemId = string

  /** A UML property of a metaclass; the two names may be absent (Java null). */
  datatype Property = Property(id: string, name: Option<string>, humanName: Option<string>)

  /** A feature declared directly by a metaclass: a property, or any other feature (an operation, say). */
  datatype Feature = PropertyFeature(property: Property) | OtherFeature

  /** The meta object of an element: a Kernel `Class` with its own features, or something else. */
  datatype MetaObject = KernelClass(features: seq<Feature>) | OtherMetaObject

  /** An item of a collection value: an element, or a non-element (a string, a number, ...). */
  datatype Obj = ElementObj(id: ElemId) | OtherObj

  /**
   * The shape of a value read reflectively. A collection's iteration may throw
   * after it has yielded `items` (`failsAfter`).
   */
  datatype Value =
    | Null
    | SingleElement(target: ElemId)
    | CollectionValue(items: seq<Obj>, failsAfter: bool)
    | Scalar

  /**
   * How an element can be inspected. `values` maps a property name, as passed to
   * the reflective read, to what that read returns; a name outside its domain
   * makes the read throw.
   */
  datatype Reflection =
    | NotRefObject
    | RefObject(metaObject: MetaObject, values: map<Option<string>, Value>)

  datatype ElementData = ElementData(text: string, reflection: Reflection)

  type Graph = ElemId -> ElementData

  /** The host's representation text of an element. */
  function DisplayText(g: Graph, e: ElemId): string
  {
    g(e).text
  }
}
