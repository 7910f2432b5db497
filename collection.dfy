/**
 * The collection core: the values the engine accepts, how `addElementIfUnique`
 * normalises them into an identity-deduplicated node list, the `Collection` object
 * whose node array `push`/`unshift`/`pop`/`shift`/`reverse` change in place, and the
 * read-only array rules (`eq`, `first`, `last`, `slice`, `indexOf`, `some`, `every`,
 * `select` with a callback).
 */
module Collections {
  import opened Wrappers
  import opened Seqs
  import opened Dom

  /** A JavaScript value handed to the engine. */
  datatype Item =
    | Undefined                  // `undefined` or `null`
    | Str(s: string)
    | Ref(node: Node)            // a host node
    | Wrapped(nodes: seq<Node>)  // a Pablo collection
    | List(items: seq<Item>)     // an array, a NodeList or another array-like object
    | Other                      // any other value: numbers, booleans, plain objects, functions

  /** JavaScript truthiness; `Other` stands for the truthy objects. */
  predicate Truthy(x: Item) {
    match x
    case Undefined => false
    case Str(s) => s != ""
    case _ => true
  }

  /** A node `push` keeps: elements and documents (a text node is array-like with no entries). */
  predicate Addable(d: Dom, n: Node) {
    n in d.kind && !d.kind[n].Text?
  }

  /** Every node the value mentions exists in `d`, and a collection holds addable nodes only. */
  predicate ItemIn(d: Dom, x: Item) {
    match x
    case Ref(n) => n in d.kind
    case Wrapped(ns) => forall n :: n in ns ==> Addable(d, n)
    case List(items) => forall i :: 0 <= i < |items| ==> ItemIn(d, items[i])
    case _ => true
  }

  lemma ItemInExtends(d: Dom, d2: Dom, x: Item)
    requires ItemIn(d, x) && Extends(d, d2)
    ensures ItemIn(d2, x)
  {
    match x
    case List(items) =>
      forall i | 0 <= i < |items| ensures ItemIn(d2, items[i]) {
        ItemInExtends(d, d2, items[i]);
      }
    case _ =>
  }

  /** `isArrayLike`: an object with a numeric `length` (text nodes, arrays, node lists, collections). */
  function IsArrayLike(d: Dom, x: Item): (r: bool)
    requires ItemIn(d, x)
    ensures r <==> x.List? || x.Wrapped? || (x.Ref? && d.kind[x.node].Text?)
  {
    match x
    case Ref(n) => d.kind[n].Text?
    case Wrapped(_) => true
    case List(_) => true
    case _ => false
  }

  /** `canBeWrapped`: a collection, an element, a node list, a document, an array or array-like. */
  function CanBeWrapped(d: Dom, x: Item): (r: bool)
    requires ItemIn(d, x)
    ensures r <==> x.Ref? || x.Wrapped? || x.List?
    ensures IsArrayLike(d, x) ==> r
  {
    x.Wrapped? || (x.Ref? && IsElement(d, x.node)) || (x.Ref? && d.kind[x.node].Document?)
    || x.List? || IsArrayLike(d, x)
  }

  /** `make(name)`: a new SVG element for a string, `null` for anything else. */
  function Make(d: Dom, x: Item): (r: (Dom, Option<Node>))
    requires Valid(d)
    ensures Valid(r.0) && Extends(d, r.0)
    ensures r.1.Some? <==> x.Str?
    ensures x.Str? ==> r.1.value !in d.kind && r.1.value in r.0.kind && r.0.kind[r.1.value] == Element(Some(SvgNs), x.s)
    ensures !x.Str? ==> r.0 == d
  {
    match x
    case Str(s) =>
      var (d1, n) := CreateElementNS(d, SvgNs, s);
      (d1, Some(n))
    case _ => (d, None)
  }

  /** `acc` with `n` added at the front or at the end. */
  function Put(acc: seq<Node>, n: Node, prepend: bool): seq<Node> {
    if prepend then [n] + acc else acc + [n]
  }

  /** The collection's node list after adding the nodes of `ns` one by one, skipping those present. */
  function AddNodes(d: Dom, acc: seq<Node>, ns: seq<Node>): seq<Node>
    decreases |ns|
  {
    if ns == [] then acc
    else
      var acc1 := AddNodes(d, acc, ns[..|ns| - 1]);
      var n := ns[|ns| - 1];
      if !Addable(d, n) || n in acc1 then acc1 else acc1 + [n]
  }

  /**
   * `addElementIfUnique(x, collection, prepend)` as a value: the host tree (strings
   * allocate an element) and the node list afterwards.  A list is flattened in order
   * and its entries are always appended, whatever `prepend` says.
   */
  function Added(d: Dom, acc: seq<Node>, x: Item, prepend: bool): (r: (Dom, seq<Node>))
    requires Valid(d) && ItemIn(d, x)
    ensures Valid(r.0) && Extends(d, r.0)
    decreases x, 1
  {
    match x
    case Str(s) =>
      var (d1, n) := CreateElementNS(d, SvgNs, s);
      (d1, Put(acc, n, prepend))
    case Ref(n) =>
      if !Addable(d, n) || n in acc then (d, acc) else (d, Put(acc, n, prepend))
    case Wrapped(ns) => (d, AddNodes(d, acc, ns))
    case List(items) => AddedAll(d, acc, items)
    case _ => (d, acc)
  }

  /** The entries of a list added one after the other (`toPush.forEach(...)`). */
  function AddedAll(d: Dom, acc: seq<Node>, items: seq<Item>): (r: (Dom, seq<Node>))
    requires Valid(d) && forall i :: 0 <= i < |items| ==> ItemIn(d, items[i])
    ensures Valid(r.0) && Extends(d, r.0)
    decreases items, 0
  {
    if items == [] then (d, acc)
    else
      var (d1, acc1) := AddedAll(d, acc, items[..|items| - 1]);
      var x := items[|items| - 1];
      ItemInExtends(d, d1, x);
      Added(d1, acc1, x, false)
  }

  /** Adding one more entry of a list continues from what the earlier entries gave. */
  lemma AddedAllStep(d: Dom, acc: seq<Node>, items: seq<Item>, i: nat)
    requires Valid(d) && i < |items| && forall k :: 0 <= k < |items| ==> ItemIn(d, items[k])
    ensures forall k :: 0 <= k < i + 1 ==> items[..i + 1][k] == items[k] && (k < i ==> items[..i][k] == items[k])
    ensures ItemIn(AddedAll(d, acc, items[..i]).0, items[i])
    ensures AddedAll(d, acc, items[..i + 1])
            == Added(AddedAll(d, acc, items[..i]).0, AddedAll(d, acc, items[..i]).1, items[i], false)
  {
    assert items[..i + 1][..i] == items[..i];
    var p := AddedAll(d, acc, items[..i]);
    ItemInExtends(d, p.0, items[i]);
  }

  /** The nodes a value contributes once it is flattened: its addable nodes, in order. */
  function Refs(d: Dom, x: Item): seq<Node>
    decreases x, 1
  {
    match x
    case Ref(n) => if Addable(d, n) then [n] else []
    case Wrapped(ns) => ns
    case List(items) => RefsAll(d, items)
    case _ => []
  }

  function RefsAll(d: Dom, items: seq<Item>): seq<Node>
    decreases items, 0
  {
    if items == [] then [] else RefsAll(d, items[..|items| - 1]) + Refs(d, items[|items| - 1])
  }

  /** The entries of a node list as values (a `NodeList` handed to `push`). */
  function RefItems(ns: seq<Node>): (r: seq<Item>)
    ensures |r| == |ns| && forall i :: 0 <= i < |ns| ==> r[i] == Ref(ns[i])
  {
    seq(|ns|, i requires 0 <= i < |ns| => Ref(ns[i]))
  }

  lemma {:induction false} RefsAllAppend(d: Dom, a: seq<Item>, b: seq<Item>)
    requires forall i :: 0 <= i < |a| ==> ItemIn(d, a[i])
    requires forall i :: 0 <= i < |b| ==> ItemIn(d, b[i])
    ensures RefsAll(d, a + b) == RefsAll(d, a) + RefsAll(d, b)
    decreases |b|
  {
    if b == [] {
      assert a + b == a;
    } else {
      var b0 := b[..|b| - 1];
      assert (a + b)[..|a + b| - 1] == a + b0;
      assert (a + b)[|a + b| - 1] == b[|b| - 1];
      RefsAllAppend(d, a, b0);
    }
  }

  /** Flattening a value followed by more values: the value's nodes, then theirs. */
  lemma RefsCons(d: Dom, x: Item, rest: seq<Item>)
    requires ItemIn(d, x) && forall i :: 0 <= i < |rest| ==> ItemIn(d, rest[i])
    ensures RefsAll(d, [x] + rest) == Refs(d, x) + RefsAll(d, rest)
  {
    RefsAllAppend(d, [x], rest);
    assert RefsAll(d, [x]) == RefsAll(d, []) + Refs(d, x);
  }

  /** A node list contributes exactly its addable nodes. */
  lemma {:induction false} RefItemsRefs(d: Dom, ns: seq<Node>)
    requires forall n :: n in ns ==> n in d.kind
    ensures forall i :: 0 <= i < |RefItems(ns)| ==> ItemIn(d, RefItems(ns)[i]) && NoStrings(RefItems(ns)[i])
    ensures forall y :: y in RefsAll(d, RefItems(ns)) <==> y in ns && Addable(d, y)
    decreases |ns|
  {
    if ns != [] {
      var init := ns[..|ns| - 1];
      assert RefItems(ns)[..|ns| - 1] == RefItems(init);
      RefItemsRefs(d, init);
      assert ns == init + [ns[|ns| - 1]];
    }
  }

  /** A value without strings allocates nothing. */
  predicate NoStrings(x: Item) {
    match x
    case Str(_) => false
    case List(items) => forall i :: 0 <= i < |items| ==> NoStrings(items[i])
    case _ => true
  }

  /** Adding two node lists one after the other is adding their concatenation. */
  lemma {:induction false} AddNodesAppend(d: Dom, acc: seq<Node>, a: seq<Node>, b: seq<Node>)
    ensures AddNodes(d, acc, a + b) == AddNodes(d, AddNodes(d, acc, a), b)
    decreases |b|
  {
    if b == [] {
      assert a + b == a;
    } else {
      var b1 := b[..|b| - 1];
      assert (a + b)[..|a + b| - 1] == a + b1;
      AddNodesAppend(d, acc, a, b1);
    }
  }

  /**
   * A value without strings allocates nothing: pushing it adds its nodes as a plain
   * node list would, the flattened lists included.
   */
  lemma {:induction false} AddedIsAddNodes(d: Dom, acc: seq<Node>, x: Item)
    requires Valid(d) && ItemIn(d, x) && NoStrings(x)
    ensures Added(d, acc, x, false) == (d, AddNodes(d, acc, Refs(d, x)))
    decreases x, 1
  {
    match x
    case Ref(n) =>
      assert [n][..0] == [];
    case List(items) =>
      AddedAllIsAddNodes(d, acc, items);
    case _ =>
  }

  lemma {:induction false} AddedAllIsAddNodes(d: Dom, acc: seq<Node>, items: seq<Item>)
    requires Valid(d) && forall i :: 0 <= i < |items| ==> ItemIn(d, items[i]) && NoStrings(items[i])
    ensures AddedAll(d, acc, items) == (d, AddNodes(d, acc, RefsAll(d, items)))
    decreases items, 0
  {
    if items != [] {
      var init := items[..|items| - 1];
      var x := items[|items| - 1];
      AddedAllIsAddNodes(d, acc, init);
      AddedIsAddNodes(d, AddNodes(d, acc, RefsAll(d, init)), x);
      AddNodesAppend(d, acc, RefsAll(d, init), Refs(d, x));
    }
  }

  lemma {:induction false} AddNodesMembers(d: Dom, acc: seq<Node>, ns: seq<Node>)
    ensures forall y :: y in AddNodes(d, acc, ns) <==> y in acc || (y in ns && Addable(d, y))
    ensures NoDups(acc) ==> NoDups(AddNodes(d, acc, ns))
    ensures acc <= AddNodes(d, acc, ns)
    decreases |ns|
  {
    if ns != [] {
      var init := ns[..|ns| - 1];
      AddNodesMembers(d, acc, init);
      assert ns == init + [ns[|ns| - 1]];
    }
  }

  /**
   * Adding a value without strings leaves the tree alone, keeps the old nodes as a
   * prefix when appending (always for lists and collections), keeps the list free of
   * duplicates, and adds exactly the value's addable nodes that were missing.
   */
  lemma {:induction false} AddedRefs(d: Dom, acc: seq<Node>, x: Item, prepend: bool)
    requires Valid(d) && ItemIn(d, x) && NoStrings(x)
    ensures Added(d, acc, x, prepend).0 == d
    ensures forall y :: y in Added(d, acc, x, prepend).1 <==> y in acc || y in Refs(d, x)
    ensures NoDups(acc) ==> NoDups(Added(d, acc, x, prepend).1)
    ensures (!prepend || !x.Ref?) ==> acc <= Added(d, acc, x, prepend).1
    decreases x, 1
  {
    match x
    case Wrapped(ns) => AddNodesMembers(d, acc, ns);
    case List(items) => AddedAllRefs(d, acc, items);
    case _ =>
  }

  lemma {:induction false} AddedAllRefs(d: Dom, acc: seq<Node>, items: seq<Item>)
    requires Valid(d) && forall i :: 0 <= i < |items| ==> ItemIn(d, items[i]) && NoStrings(items[i])
    ensures AddedAll(d, acc, items).0 == d
    ensures forall y :: y in AddedAll(d, acc, items).1 <==> y in acc || y in RefsAll(d, items)
    ensures NoDups(acc) ==> NoDups(AddedAll(d, acc, items).1)
    ensures acc <= AddedAll(d, acc, items).1
    decreases items, 0
  {
    if items != [] {
      var init := items[..|items| - 1];
      AddedAllRefs(d, acc, init);
      var acc1 := AddedAll(d, acc, init).1;
      AddedRefs(d, acc1, items[|items| - 1], false);
    }
  }

  /** Pushing one more value of nodes continues from what the earlier values gave, on the same tree. */
  lemma AddedAllSnoc(d: Dom, acc: seq<Node>, items: seq<Item>, x: Item)
    requires Valid(d) && ItemIn(d, x) && forall i :: 0 <= i < |items| ==> ItemIn(d, items[i]) && NoStrings(items[i])
    ensures AddedAll(d, acc, items + [x]) == Added(d, AddedAll(d, acc, items).1, x, false)
  {
    var all := items + [x];
    assert all[..|all| - 1] == items;
    AddedAllRefs(d, acc, items);
  }

  /** Strings allocate: each adds one fresh element, so nothing already present is lost or repeated. */
  lemma {:induction false} AddedDistinct(d: Dom, acc: seq<Node>, x: Item, prepend: bool)
    requires Valid(d) && ItemIn(d, x) && NoDups(acc) && forall a :: a in acc ==> Addable(d, a)
    ensures var r := Added(d, acc, x, prepend);
            NoDups(r.1) && (forall a :: a in acc ==> a in r.1) && forall a :: a in r.1 ==> Addable(r.0, a)
    decreases x, 1
  {
    match x
    case Str(s) => CreatedDistinct(d, acc, s, prepend);
    case Wrapped(ns) => AddNodesMembers(d, acc, ns);
    case List(items) => AddedAllDistinct(d, acc, items);
    case _ =>
  }

  lemma CreatedDistinct(d: Dom, acc: seq<Node>, s: string, prepend: bool)
    requires Valid(d) && NoDups(acc) && forall a :: a in acc ==> Addable(d, a)
    ensures var r := Added(d, acc, Str(s), prepend);
            NoDups(r.1) && (forall a :: a in acc ==> a in r.1) && forall a :: a in r.1 ==> Addable(r.0, a)
  {
    var (d1, n) := CreateElementNS(d, SvgNs, s);
    assert n !in acc;
    assert forall a :: a in acc ==> Addable(d1, a);
  }

  lemma {:induction false} AddedAllDistinct(d: Dom, acc: seq<Node>, items: seq<Item>)
    requires Valid(d) && (forall i :: 0 <= i < |items| ==> ItemIn(d, items[i]))
    requires NoDups(acc) && forall a :: a in acc ==> Addable(d, a)
    ensures var r := AddedAll(d, acc, items);
            NoDups(r.1) && (forall a :: a in acc ==> a in r.1) && forall a :: a in r.1 ==> Addable(r.0, a)
    decreases items, 0
  {
    if items != [] {
      var init := items[..|items| - 1];
      AddedAllDistinct(d, acc, init);
      var (d1, acc1) := AddedAll(d, acc, init);
      ItemInExtends(d, d1, items[|items| - 1]);
      AddedDistinct(d1, acc1, items[|items| - 1], false);
    }
  }

  /** A string always creates a fresh element, at the end for `push` and at the front for `unshift`. */
  lemma AddedString(d: Dom, acc: seq<Node>, s: string, prepend: bool)
    requires Valid(d)
    ensures var r := Added(d, acc, Str(s), prepend);
            r.0.next == d.next + 1 && r.0.kind[d.next] == Element(Some(SvgNs), s)
            && r.1 == (if prepend then [d.next] + acc else acc + [d.next])
  {
  }

  /** Passing a list to `unshift` appends its entries exactly as `push` does. */
  lemma UnshiftListAppends(d: Dom, acc: seq<Node>, items: seq<Item>)
    requires Valid(d) && forall i :: 0 <= i < |items| ==> ItemIn(d, items[i]) && NoStrings(items[i])
    ensures Added(d, acc, List(items), true) == Added(d, acc, List(items), false)
    ensures acc <= Added(d, acc, List(items), true).1
  {
    assert Added(d, acc, List(items), true) == AddedAll(d, acc, items);
    assert Added(d, acc, List(items), false) == AddedAll(d, acc, items);
    AddedAllRefs(d, acc, items);
  }

  /** The node array of a Pablo collection; it never holds the same node twice. */
  class Collection {
    var nodes: seq<Node>

    ghost predicate WellFormed(d: Dom)
      reads this
    {
      NoDups(nodes) && forall n :: n in nodes ==> Addable(d, n)
    }

    /** An empty collection (`new PabloCollection()` without arguments). */
    constructor ()
      ensures nodes == []
    {
      nodes := [];
    }

    /** `addElementIfUnique(x, this, prepend)`. */
    method AddIfUnique(d: Dom, x: Item, prepend: bool) returns (d': Dom)
      requires Valid(d) && ItemIn(d, x)
      modifies this
      ensures (d', nodes) == Added(d, old(nodes), x, prepend)
      decreases x, 1
    {
      match x {
        case Str(s) =>
          var (d1, n) := CreateElementNS(d, SvgNs, s);
          d' := d1;
          nodes := Put(nodes, n, prepend);
        case Ref(n) =>
          d' := d;
          if Addable(d, n) && n !in nodes {
            nodes := Put(nodes, n, prepend);
          }
        case Wrapped(ns) =>
          d' := d;
          AddNodesAtEnd(d, ns);
        case List(items) =>
          d' := AddAll(d, items);
        case Undefined =>
          d' := d;
        case Other =>
          d' := d;
      }
    }

    /** The nodes of a collection added one by one at the end. */
    method AddNodesAtEnd(d: Dom, ns: seq<Node>)
      modifies this
      ensures nodes == AddNodes(d, old(nodes), ns)
    {
      var i := 0;
      while i < |ns|
        invariant 0 <= i <= |ns|
        invariant nodes == AddNodes(d, old(nodes), ns[..i])
      {
        assert ns[..i + 1][..i] == ns[..i];
        var n := ns[i];
        if Addable(d, n) && n !in nodes {
          nodes := nodes + [n];
        }
        i := i + 1;
      }
      assert ns[..|ns|] == ns;
    }

    /** The entries of a list added one by one, each as by `push`. */
    method AddAll(d: Dom, items: seq<Item>) returns (d': Dom)
      requires Valid(d) && forall i :: 0 <= i < |items| ==> ItemIn(d, items[i])
      modifies this
      ensures (d', nodes) == AddedAll(d, old(nodes), items)
      decreases items, 0
    {
      d' := d;
      var i := 0;
      while i < |items|
        invariant 0 <= i <= |items|
        invariant (d', nodes) == AddedAll(d, old(nodes), items[..i])
        invariant Valid(d') && Extends(d, d')
      {
        AddedAllStep(d, old(nodes), items, i);
        d' := AddIfUnique(d', items[i], false);
        i := i + 1;
      }
      assert items[..|items|] == items;
    }

    /** `push(x)`: adds the value's nodes at the end, skipping those already present. */
    method Push(d: Dom, x: Item) returns (d': Dom)
      requires Valid(d) && ItemIn(d, x) && WellFormed(d)
      modifies this
      ensures (d', nodes) == Added(d, old(nodes), x, false)
      ensures WellFormed(d') && old(nodes) <= nodes
    {
      AddedDistinct(d, nodes, x, false);
      if NoStrings(x) {
        AddedRefs(d, nodes, x, false);
      }
      d' := AddIfUnique(d, x, false);
      PushKeepsPrefix(d, old(nodes), x);
    }

    /** `unshift(x)`: a single node or string goes to the front; a list is appended. */
    method Unshift(d: Dom, x: Item) returns (d': Dom)
      requires Valid(d) && ItemIn(d, x) && WellFormed(d)
      modifies this
      ensures (d', nodes) == Added(d, old(nodes), x, true)
      ensures WellFormed(d')
    {
      AddedDistinct(d, nodes, x, true);
      d' := AddIfUnique(d, x, true);
    }

    /** `pop()`: removes the last node and returns it wrapped (empty when there is none). */
    method Pop() returns (r: seq<Node>)
      modifies this
      ensures old(nodes) == [] ==> nodes == [] && r == []
      ensures old(nodes) != [] ==> nodes + r == old(nodes) && |r| == 1
    {
      if nodes == [] {
        r := [];
      } else {
        r := [nodes[|nodes| - 1]];
        nodes := nodes[..|nodes| - 1];
      }
    }

    /** `shift()`: removes the first node and returns it wrapped (empty when there is none). */
    method Shift() returns (r: seq<Node>)
      modifies this
      ensures old(nodes) == [] ==> nodes == [] && r == []
      ensures old(nodes) != [] ==> r + nodes == old(nodes) && |r| == 1
    {
      if nodes == [] {
        r := [];
      } else {
        r := [nodes[0]];
        nodes := nodes[1..];
      }
    }

    /** `reverse()`: the same nodes in the opposite order. */
    method ReverseInPlace()
      modifies this
      ensures nodes == Reverse(old(nodes))
    {
      nodes := Reverse(nodes);
    }
  }

  /** Appending never drops or reorders what was already there. */
  lemma {:induction false} PushKeepsPrefix(d: Dom, acc: seq<Node>, x: Item)
    requires Valid(d) && ItemIn(d, x)
    ensures acc <= Added(d, acc, x, false).1
    decreases x, 1
  {
    match x
    case Wrapped(ns) => AddNodesMembers(d, acc, ns);
    case List(items) => AddedAllKeepsPrefix(d, acc, items);
    case _ =>
  }

  lemma {:induction false} AddedAllKeepsPrefix(d: Dom, acc: seq<Node>, items: seq<Item>)
    requires Valid(d) && forall i :: 0 <= i < |items| ==> ItemIn(d, items[i])
    ensures acc <= AddedAll(d, acc, items).1
    decreases items, 0
  {
    if items != [] {
      var init := items[..|items| - 1];
      AddedAllKeepsPrefix(d, acc, init);
      var (d1, acc1) := AddedAll(d, acc, init);
      ItemInExtends(d, d1, items[|items| - 1]);
      PushKeepsPrefix(d1, acc1, items[|items| - 1]);
    }
  }

  // ---------------------------------------------------------------------------
  // Read-only array rules

  /** JavaScript's clamping of a relative index into `0..len`. */
  function RelativeIndex(i: int, len: nat): (r: nat)
    ensures r <= len
    ensures i >= 0 ==> r == if i < len then i else len
    ensures i < 0 ==> r == if len + i > 0 then len + i else 0
  {
    if i < 0 then (if len + i > 0 then len + i else 0) else (if i < len then i else len)
  }

  /**
   * `slice(begin, end)` on integer arguments; an absent bound is the start or the end,
   * and a negative bound counts from the end.
   */
  function Slice(s: seq<Node>, begin: Option<int>, end: Option<int>): (r: seq<Node>)
    ensures begin.None? && end.None? ==> r == s
    ensures begin.Some? && -|s| <= begin.value < 0 && end.None? ==> r == s[|s| + begin.value..]
    ensures begin.Some? && end.Some? && 0 <= begin.value <= end.value <= |s| ==> r == s[begin.value..end.value]
    ensures begin.Some? && end.Some? && begin.value >= end.value && (begin.value >= 0) == (end.value >= 0) ==> r == []
    ensures exists b, e :: 0 <= b <= e <= |s| && r == s[b..e]
    ensures NoDups(s) ==> NoDups(r)
  {
    var b := RelativeIndex(begin.GetOr(0), |s|);
    var e := RelativeIndex(end.GetOr(|s|), |s|);
    if b < e then s[b..e] else s[b..b]
  }

  /** `eq(i)`: the node at `i`, counting from the end when `i` is negative; empty when out of range. */
  function Eq(s: seq<Node>, i: int): (r: seq<Node>)
    ensures |r| <= 1
    ensures r != [] <==> -|s| <= i < |s|
    ensures r != [] ==> r[0] == s[if i >= 0 then i else |s| + i]
  {
    if i >= 0 then (if i < |s| then [s[i]] else [])
    else if i < -1 then Slice(s, Some(i), Some(i + 1))
    else Slice(s, Some(i), None)
  }

  /** `first()`. */
  function First(s: seq<Node>): (r: seq<Node>)
    ensures r == if s == [] then [] else [s[0]]
  {
    Eq(s, 0)
  }

  /** `last()`: `eq(length - 1)`, which is `eq(-1)` and so empty on an empty collection. */
  function Last(s: seq<Node>): (r: seq<Node>)
    ensures r == if s == [] then [] else [s[|s| - 1]]
  {
    Eq(s, |s| - 1)
  }

  /** `indexOf(x)`: a collection stands for its first node; anything but a node is not found. */
  function IndexOf(s: seq<Node>, x: Item): (r: int)
    ensures -1 <= r < |s|
    ensures r >= 0 ==> (x.Ref? && s[r] == x.node) || (x.Wrapped? && x.nodes != [] && s[r] == x.nodes[0])
    ensures r >= 0 ==> s[r] !in s[..r]
    ensures r == -1 <==> !((x.Ref? && x.node in s) || (x.Wrapped? && x.nodes != [] && x.nodes[0] in s))
  {
    var target := match x
      case Ref(n) => Some(n)
      case Wrapped(ns) => if ns == [] then None else Some(ns[0])
      case _ => None;
    match target
    case None => -1
    case Some(n) => var i := Position(s, n); if i < |s| then i else -1
  }

  /** `some(fn)`: whether the callback holds for some (node, index). */
  function SomeWith(s: seq<Node>, f: (Node, nat) -> bool): (r: bool)
    ensures r <==> exists i :: 0 <= i < |s| && f(s[i], i)
  {
    SomeFrom(s, f, 0)
  }

  function SomeFrom(s: seq<Node>, f: (Node, nat) -> bool, k: nat): (r: bool)
    requires k <= |s|
    ensures r <==> exists i :: k <= i < |s| && f(s[i], i)
    decreases |s| - k
  {
    if k == |s| then false else f(s[k], k) || SomeFrom(s, f, k + 1)
  }

  /** `every(fn)`: whether the callback holds for every (node, index). */
  function EveryWith(s: seq<Node>, f: (Node, nat) -> bool): (r: bool)
    ensures r <==> forall i :: 0 <= i < |s| ==> f(s[i], i)
  {
    !SomeWith(s, (n: Node, i: nat) => !f(n, i))
  }

  /** `select(fn)`: the nodes the callback keeps, in order. */
  function SelectWith(s: seq<Node>, f: (Node, nat) -> bool): (r: seq<Node>)
    ensures Subseq(r, s) && forall y :: y in r ==> y in s
    ensures forall i :: 0 <= i < |s| && f(s[i], i) ==> s[i] in r
    ensures NoDups(s) ==> NoDups(r) && forall i :: 0 <= i < |s| ==> (s[i] in r <==> f(s[i], i))
  {
    assert s[0..] == s;
    SelectFrom(s, f, 0)
  }

  function SelectFrom(s: seq<Node>, f: (Node, nat) -> bool, k: nat): (r: seq<Node>)
    requires k <= |s|
    ensures Subseq(r, s[k..])
    ensures forall y :: y in r ==> y in s[k..]
    ensures forall i :: k <= i < |s| && f(s[i], i) ==> s[i] in r
    ensures NoDups(s) ==> NoDups(r) && forall i :: k <= i < |s| ==> (s[i] in r <==> f(s[i], i))
    decreases |s| - k
  {
    if k == |s| then []
    else
      var rest := SelectFrom(s, f, k + 1);
      assert forall y :: y in s[k + 1..] ==> y in s[k..];
      assert NoDups(s) ==> s[k] !in s[k + 1..];
      SuffixCons(s, k);
      SubseqCons(s[k], rest, s[k + 1..]);
      if f(s[k], k) then [s[k]] + rest else rest
  }

  /** When the callback ignores the index, `select(fn)` is the order-keeping filter of the selector form. */
  lemma {:induction false} SelectWithFilter(s: seq<Node>, f: (Node, nat) -> bool, p: Node -> bool, k: nat)
    requires k <= |s|
    requires forall i :: k <= i < |s| ==> f(s[i], i) == p(s[i])
    ensures SelectFrom(s, f, k) == Filter(s[k..], p)
    decreases |s| - k
  {
    if k < |s| {
      SelectWithFilter(s, f, p, k + 1);
      assert s[k..][0] == s[k] && s[k..][1..] == s[k + 1..];
    }
  }
}
