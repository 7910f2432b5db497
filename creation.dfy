/**
 * Building collections: `Pablo(node, attr)` wraps what it is given or runs a query,
 * `createPablo` pushes the value into a new collection and applies the attributes,
 * `selectPablo` queries the document, and `toPablo` (the helper behind the
 * manipulation methods) passes a collection through and hands anything else to `Pablo`.
 * Each returns the tree, the new collection's nodes and the exception raised, if any.
 */
module Creation {
  import opened Wrappers
  import opened Seqs
  import opened Dom
  import opened Collections
  import opened Attributes
  import opened Traversal

  /** Writing attributes keeps the tree well formed and only extends it. */
  lemma AttrsKeepValid(d: Dom, r: Dom)
    requires Valid(d) && r == d.(attrs := r.attrs) && r.attrs.Keys == d.attrs.Keys
    ensures Valid(r) && Extends(d, r)
  {
    assert r.kind == d.kind && r.parent == d.parent && r.childNodes == d.childNodes;
  }

  /** Every node `n.querySelectorAll` returns exists. */
  lemma QueryKnown(d: Dom, n: Node, sel: Selector)
    requires Valid(d) && n in d.kind
    ensures forall m :: m in QuerySelectorAll(d, n, sel) ==> m in d.kind
  {
    forall m | m in QuerySelectorAll(d, n, sel) ensures m in d.kind {
      QuerySelectorAllExactly(d, n, sel, m);
    }
  }

  /**
   * `createPablo(node, attr)`: a new collection; a truthy value is pushed into it and a
   * truthy attribute object is then written to every node it holds.
   */
  function CreatePablo(d: Dom, x: Item, attr: Option<Props>): (r: (Dom, seq<Node>, Option<DomError>))
    requires Valid(d) && ItemIn(d, x)
    ensures Valid(r.0) && Extends(d, r.0)
    ensures NoDups(r.1) && forall n :: n in r.1 ==> Addable(r.0, n)
    ensures !Truthy(x) ==> r == (d, [], None)
  {
    if !Truthy(x) then (d, [], None)
    else
      var (d1, ns) := Added(d, [], x, false);
      AddedDistinct(d, [], x, false);
      if attr.None? then (d1, ns, None)
      else
        var (d2, e) := SetEach(d1, ns, 0, attr.value, None);
        AttrsKeepValid(d1, d2);
        (d2, ns, e)
  }

  /**
   * `selectPablo(selectors)`: the document's `querySelectorAll` result for a non-empty
   * string, an empty collection for anything else.
   */
  function SelectPablo(d: Dom, x: Item): (r: (Dom, seq<Node>, Option<DomError>))
    requires Valid(d) && ItemIn(d, x)
    ensures Valid(r.0) && Extends(d, r.0)
    ensures NoDups(r.1) && forall n :: n in r.1 ==> Addable(r.0, n)
  {
    if x.Str? && x.s != "" then
      var q := QuerySelectorAll(d, d.document, ParseSelector(x.s));
      QueryKnown(d, d.document, ParseSelector(x.s));
      PushNodeList(d, [], q);
      CreatePablo(d, List(RefItems(q)), None)
    else
      CreatePablo(d, Undefined, None)
  }

  /**
   * `Pablo(node, attr)`: a falsy value, an attribute object or a wrappable value creates
   * a collection; anything else (a selector string, another truthy value) is a query.
   */
  function Pablo(d: Dom, x: Item, attr: Option<Props>): (r: (Dom, seq<Node>, Option<DomError>))
    requires Valid(d) && ItemIn(d, x)
    ensures Valid(r.0) && Extends(d, r.0)
    ensures NoDups(r.1) && forall n :: n in r.1 ==> Addable(r.0, n)
  {
    if !Truthy(x) || attr.Some? || CanBeWrapped(d, x) then CreatePablo(d, x, attr)
    else SelectPablo(d, x)
  }

  /**
   * `toPablo(node, attr)`: a collection is used as it is (after writing the attributes, if
   * any); any other value goes through `Pablo`.
   */
  function ToPablo(d: Dom, x: Item, attr: Option<Props>): (r: (Dom, seq<Node>, Option<DomError>))
    requires Valid(d) && ItemIn(d, x)
    ensures Valid(r.0) && Extends(d, r.0) && forall n :: n in r.1 ==> Addable(r.0, n)
    ensures x.Wrapped? ==> r.1 == x.nodes
    ensures x.Wrapped? && attr.None? ==> r == (d, x.nodes, None)
    ensures !x.Wrapped? ==> NoDups(r.1)
  {
    if x.Wrapped? then
      if attr.Some? then
        var (d1, e) := SetEach(d, x.nodes, 0, attr.value, None);
        AttrsKeepValid(d, d1);
        (d1, x.nodes, e)
      else (d, x.nodes, None)
    else Pablo(d, x, attr)
  }

  // ---------------------------------------------------------------------------
  // What `Pablo` returns

  /** Pushing distinct addable nodes into an empty collection keeps all of them, in order. */
  lemma {:induction false} AddNodesKeepsDistinct(d: Dom, ns: seq<Node>)
    requires NoDups(ns) && forall n :: n in ns ==> Addable(d, n)
    ensures AddNodes(d, [], ns) == ns
    decreases |ns|
  {
    if ns != [] {
      var init := ns[..|ns| - 1];
      AddNodesKeepsDistinct(d, init);
      assert ns == init + [ns[|ns| - 1]];
    }
  }

  /**
   * Without attributes, `Pablo` wraps what it is given and leaves the tree alone: nothing
   * for a falsy or unwrappable non-string value, the node itself for an element or a
   * document, nothing for a text node, and the same nodes for a collection.
   */
  lemma PabloWraps(d: Dom, x: Item)
    requires Valid(d) && ItemIn(d, x) && !x.Str? && !x.List?
    requires x.Wrapped? ==> NoDups(x.nodes)
    ensures Pablo(d, x, None) == (d, Refs(d, x), None)
  {
    match x
    case Wrapped(ns) =>
      AddNodesKeepsDistinct(d, ns);
      assert CreatePablo(d, x, None) == (d, ns, None);
    case Ref(n) =>
      assert Added(d, [], x, false) == (d, Refs(d, x)) by {
        if Addable(d, n) {
          assert Put([], n, false) == [n];
        }
      }
    case Other =>
      assert Pablo(d, x, None) == SelectPablo(d, x);
    case Undefined =>
  }

  /**
   * A non-empty string without attributes is a query of the whole document: the tree is
   * left alone, and the collection holds, once each, exactly the elements below the
   * document that match the selector.
   */
  lemma PabloSelects(d: Dom, s: string)
    requires Valid(d) && s != ""
    ensures var r := Pablo(d, Str(s), None);
            && r.0 == d && r.2.None? && NoDups(r.1)
            && forall m :: m in r.1 <==>
                 m in d.kind && Matches(d, ParseSelector(s), m) && d.document in AncSet(d.parent, m)
  {
    PabloQueries(d, s);
    FoundExactly(d, [d.document], ParseSelector(s));
  }

  /** A selector string without attributes runs one query from the document and adds its result. */
  lemma PabloQueries(d: Dom, s: string)
    requires Valid(d) && s != ""
    ensures Pablo(d, Str(s), None) == (d, Found(d, [d.document], ParseSelector(s)), None)
  {
    var x := Str(s);
    assert Truthy(x) && !CanBeWrapped(d, x);
    assert Pablo(d, x, None) == SelectPablo(d, x);
    SelectQueries(d, s);
  }

  /** The query branch: the matches below the document, gathered as `find` gathers them. */
  lemma SelectQueries(d: Dom, s: string)
    requires Valid(d) && s != ""
    ensures SelectPablo(d, Str(s)) == (d, Found(d, [d.document], ParseSelector(s)), None)
  {
    var sel := ParseSelector(s);
    var q := QuerySelectorAll(d, d.document, sel);
    QueryKnown(d, d.document, sel);
    PushNodeList(d, [], q);
    assert CreatePablo(d, List(RefItems(q)), None) == (d, AddNodes(d, [], q), None);
    assert [d.document][..0] == [];
    assert Found(d, [d.document], sel) == AddNodes(d, [], q);
  }

  /**
   * A string with an attribute object creates one fresh SVG element with that tag name
   * and puts it, alone, in the collection.
   */
  lemma PabloCreates(d: Dom, s: string, props: Props)
    requires Valid(d) && s != ""
    ensures var r := Pablo(d, Str(s), Some(props));
            && r.1 == [d.next] && d.next !in d.kind
            && r.0.kind[d.next] == Element(Some(SvgNs), s)
            && (props == [] ==> r == (Added(d, [], Str(s), false).0, [d.next], None))
  {
    AddedString(d, [], s, false);
    var a := Added(d, [], Str(s), false);
    var w := SetEach(a.0, a.1, 0, props, None);
    assert Pablo(d, Str(s), Some(props)) == CreatePablo(d, Str(s), Some(props)) == (w.0, a.1, w.1);
    if props == [] {
      assert w == SetEach(a.0, a.1, 1, props, None) == (a.0, None);
    }
  }

}
