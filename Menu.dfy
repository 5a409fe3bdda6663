/**
 * The menu the builder fills: categories holding entries, and leaf actions.
 *
 * `ActionsCategory` is the host's mutable category object, reduced to its id,
 * its display name and the list of entries `addAction` appends to. A category
 * added to another becomes an entry of it; the builder adds a category only
 * once it is fully populated and never touches it again, so the entry is the
 * category's value at that moment.
 */
module Menu {
  import opened MetaModel

  datatype MenuItem =
    | Category(id: string, name: string, items: seq<MenuItem>)
    | Action(target: ElemId, name: string)  // "select this element"

  class ActionsCategory {
    const id: string
    const name: string
    var items: seq<MenuItem>

    constructor (id: string, name: string)
      ensures this.id == id && this.name == name && items == []
    {
      this.id := id;
      this.name := name;
      items := [];
    }

    method AddAction(item: MenuItem)
      modifies this
      ensures items == old(items) + [item]
    {
      items := items + [item];
    }

    /** This category as an entry of an enclosing category. */
    function AsItem(): MenuItem
      reads this
    {
      Category(id, name, items)
    }
  }

  /** How many categories deep an entry nests (an action is 0 deep). */
  function Height(m: MenuItem): nat
    decreases m, 0
  {
    match m
    case Action(_, _) => 0
    case Category(_, _, items) => 1 + MaxHeight(items)
  }

  function MaxHeight(ms: seq<MenuItem>): nat
    decreases ms, 1
  {
    if ms == [] then 0
    else
      var h := Height(ms[|ms| - 1]);
      var rest := MaxHeight(ms[..|ms| - 1]);
      if h < rest then rest else h
  }

  lemma {:induction false} MaxHeightAppend(a: seq<MenuItem>, b: seq<MenuItem>)
    ensures MaxHeight(a + b) == if MaxHeight(a) < MaxHeight(b) then MaxHeight(b) else MaxHeight(a)
    decreases |b|
  {
    if b != [] {
      var init := b[..|b| - 1];
      MaxHeightAppend(a, init);
      assert (a + b)[..|a + b| - 1] == a + init;
      assert (a + b)[|a + b| - 1] == b[|b| - 1];
    } else {
      assert a + b == a;
    }
  }
}
