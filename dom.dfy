/**
 * The host document tree that the collection engine works on.  The engine owns none
 * of it: nodes are abstract ids, and the tree is a parent map, an ordered list of
 * child nodes per node and an ordered attribute list per node.  The host facilities
 * the engine calls (createElementNS, insertBefore, removeChild, cloneNode,
 * querySelectorAll, the attribute accessors and the relation properties) are given
 * here as functions on that value.
 */
module Dom {
  import opened Wrappers
  import opened Seqs
  import opened Strings

  type Node = nat

  const SvgNs: string := "http://www.w3.org/2000/svg"
  const XlinkNs: string := "http://www.w3.org/1999/xlink"
  const XmlNs: string := "http://www.w3.org/XML/1998/namespace"
  const XmlnsNs: string := "http://www.w3.org/2000/xmlns/"

  /** What a node is; this never changes once the node exists. */
  datatype Kind =
    | Element(ns: Option<string>, tag: string)
    | Document
    | Text

  /** One attribute: namespace, prefix, local name and value. */
  datatype Attr = Attr(ns: Option<string>, prefix: Option<string>, local: string, value: string)

  /**
   * The exceptions a host call can raise; `TypeError` is calling a method the node
   * does not have (a document has no attribute methods).
   */
  datatype DomError = HierarchyRequestError | NotFoundError | NamespaceError | TypeError

  datatype Dom = Dom(
    kind: map<Node, Kind>,
    parent: map<Node, Node>,
    childNodes: map<Node, seq<Node>>,
    attrs: map<Node, seq<Attr>>,
    document: Node,
    next: Node)

  predicate IsElement(d: Dom, n: Node) {
    n in d.kind && d.kind[n].Element?
  }

  /** Every node of `s` from index `k` on is an element. */
  predicate ElementsFrom(d: Dom, s: seq<Node>, k: nat) {
    forall j :: k <= j < |s| ==> IsElement(d, s[j])
  }

  /** Peeling the node at `k` off `ElementsFrom`, in a tree with the same node kinds. */
  lemma ElementsStep(d: Dom, d1: Dom, s: seq<Node>, k: nat)
    requires k < |s| && d1.kind == d.kind
    ensures ElementsFrom(d, s, k) <==> IsElement(d, s[k]) && ElementsFrom(d1, s, k + 1)
  {
  }

  /** What lies outside `s[k..]` lies outside `s[k + 1..]` and is not `s[k]`. */
  lemma OutsideStep<T>(s: seq<T>, k: nat)
    requires k < |s|
    ensures forall m :: m !in s[k..] ==> m != s[k] && m !in s[k + 1..]
  {
    assert s[k..] == [s[k]] + s[k + 1..];
  }

  predicate IsSvgElement(d: Dom, n: Node) {
    IsElement(d, n) && d.kind[n].ns == Some(SvgNs)
  }

  // ---------------------------------------------------------------------------
  // Well-formedness

  ghost predicate WellKeyed(d: Dom) {
    && d.childNodes.Keys == d.kind.Keys
    && d.attrs.Keys == d.kind.Keys
    && d.parent.Keys <= d.kind.Keys
    && (forall n :: n in d.kind ==> n < d.next)
    && d.document in d.kind && d.kind[d.document] == Document
  }

  /** Every parent link is matched by an entry in the parent's child list. */
  ghost predicate ParentsListed(d: Dom)
    requires WellKeyed(d)
  {
    forall c :: c in d.parent ==> d.parent[c] in d.kind && c in d.childNodes[d.parent[c]]
  }

  /** Every entry of a child list is matched by a parent link. */
  ghost predicate ChildrenLinked(d: Dom)
    requires WellKeyed(d)
  {
    forall p, c :: p in d.childNodes && c in d.childNodes[p] ==> c in d.parent && d.parent[c] == p
  }

  ghost predicate ListsDistinct(d: Dom) {
    forall p :: p in d.childNodes ==> NoDups(d.childNodes[p])
  }

  /** Parent links and child lists describe the same edges, child lists are distinct. */
  ghost predicate Linked(d: Dom)
    requires WellKeyed(d)
  {
    ParentsListed(d) && ChildrenLinked(d) && ListsDistinct(d)
  }

  /** Documents are never children and text nodes are never parents. */
  ghost predicate Shaped(d: Dom)
    requires WellKeyed(d) && Linked(d)
  {
    forall c :: c in d.parent ==> !d.kind[c].Document? && !d.kind[d.parent[c]].Text?
  }

  /** Following parent links from `n` reaches a node without a parent in exactly `k` hops. */
  ghost predicate ChainLen(parent: map<Node, Node>, n: Node, k: nat)
    decreases k
  {
    if n !in parent then k == 0 else k > 0 && ChainLen(parent, parent[n], k - 1)
  }

  ghost predicate Rooted(parent: map<Node, Node>, n: Node) {
    exists k :: ChainLen(parent, n, k)
  }

  /** The parent relation has no cycle: every chain of parents ends. */
  ghost predicate Acyclic(d: Dom) {
    forall n :: n in d.kind ==> Rooted(d.parent, n)
  }

  ghost predicate Valid(d: Dom) {
    WellKeyed(d) && Linked(d) && Shaped(d) && Acyclic(d)
  }

  /** `d2` is a later state of `d`: no node disappeared or changed kind. */
  ghost predicate Extends(d: Dom, d2: Dom) {
    && d2.document == d.document
    && d.next <= d2.next
    && forall n :: n in d.kind ==> n in d2.kind && d2.kind[n] == d.kind[n]
  }

  lemma ExtendsTransitive(d1: Dom, d2: Dom, d3: Dom)
    requires Extends(d1, d2) && Extends(d2, d3)
    ensures Extends(d1, d3)
  {}

  // ---------------------------------------------------------------------------
  // Depth and ancestors

  lemma ChainLenUnique(parent: map<Node, Node>, n: Node, k1: nat, k2: nat)
    requires ChainLen(parent, n, k1) && ChainLen(parent, n, k2)
    ensures k1 == k2
    decreases k1
  {
    if n in parent {
      ChainLenUnique(parent, parent[n], k1 - 1, k2 - 1);
    }
  }

  /** Number of parent hops from `n` to the root of its tree. */
  ghost function Depth(parent: map<Node, Node>, n: Node): nat
    requires Rooted(parent, n)
  {
    var k :| ChainLen(parent, n, k); k
  }

  lemma DepthOfParent(parent: map<Node, Node>, n: Node)
    requires Rooted(parent, n) && n in parent
    ensures Rooted(parent, parent[n])
    ensures Depth(parent, parent[n]) == Depth(parent, n) - 1
  {
    var k := Depth(parent, n);
    assert ChainLen(parent, parent[n], k - 1);
    ChainLenUnique(parent, parent[n], k - 1, Depth(parent, parent[n]));
  }

  /** The proper ancestors of `n`. */
  ghost function AncSet(parent: map<Node, Node>, n: Node): (r: set<Node>)
    requires Rooted(parent, n)
    ensures forall a :: a in r ==> Rooted(parent, a) && Depth(parent, a) < Depth(parent, n)
    decreases Depth(parent, n)
  {
    if n !in parent then {}
    else
      DepthOfParent(parent, n);
      {parent[n]} + AncSet(parent, parent[n])
  }

  /** True when `a` is `n` or one of its ancestors; walks the parent chain as the host does. */
  function IsInclusiveAncestor(d: Dom, a: Node, n: Node): (r: bool)
    requires Rooted(d.parent, n)
    ensures r <==> a == n || a in AncSet(d.parent, n)
    decreases Depth(d.parent, n)
  {
    a == n || (n in d.parent && (DepthOfParent(d.parent, n); IsInclusiveAncestor(d, a, d.parent[n])))
  }

  /** The ancestors of an ancestor of `n` are ancestors of `n`. */
  lemma {:induction false} AncestorTransitive(parent: map<Node, Node>, n: Node, a: Node)
    requires Rooted(parent, n) && a in AncSet(parent, n)
    ensures AncSet(parent, a) <= AncSet(parent, n)
    decreases Depth(parent, n)
  {
    DepthOfParent(parent, n);
    if a != parent[n] {
      AncestorTransitive(parent, parent[n], a);
    }
  }

  lemma AncestorsKnown(d: Dom, n: Node)
    requires Valid(d) && n in d.kind
    ensures AncSet(d.parent, n) <= d.kind.Keys
    ensures n !in AncSet(d.parent, n)
    decreases Depth(d.parent, n)
  {
    if n in d.parent {
      DepthOfParent(d.parent, n);
      AncestorsKnown(d, d.parent[n]);
    }
  }

  /** What lies outside the ancestors of `n`; it shrinks strictly from a node to its child. */
  ghost function Below(d: Dom, n: Node): set<Node>
    requires Valid(d) && n in d.kind
  {
    d.kind.Keys - AncSet(d.parent, n)
  }

  lemma BelowShrinks(d: Dom, p: Node, c: Node)
    requires Valid(d) && p in d.kind && c in d.childNodes[p]
    ensures c in d.kind && Below(d, c) < Below(d, p)
  {
    assert d.parent[c] == p;
    AncestorsKnown(d, p);
    assert AncSet(d.parent, c) == {p} + AncSet(d.parent, p);
  }

  // ---------------------------------------------------------------------------
  // Reading the tree

  function ChildrenOf(d: Dom, n: Node): seq<Node> {
    if n in d.childNodes then d.childNodes[n] else []
  }

  function ParentNode(d: Dom, n: Node): Option<Node> {
    if n in d.parent then Some(d.parent[n]) else None
  }

  /** The child list `n` belongs to, or the empty list for a detached node. */
  function Siblings(d: Dom, n: Node): seq<Node> {
    if n in d.parent then ChildrenOf(d, d.parent[n]) else []
  }

  function FirstChild(d: Dom, n: Node): Option<Node> {
    var cs := ChildrenOf(d, n);
    if cs == [] then None else Some(cs[0])
  }

  function LastChild(d: Dom, n: Node): Option<Node> {
    var cs := ChildrenOf(d, n);
    if cs == [] then None else Some(cs[|cs| - 1])
  }

  /** The node right after `n` among its siblings (any kind). */
  function NextSibling(d: Dom, n: Node): Option<Node> {
    var s := Siblings(d, n);
    var i := Position(s, n);
    if i + 1 < |s| then Some(s[i + 1]) else None
  }

  /** Index of the first element of `s` at or after `from`, if any. */
  function FirstElementFrom(d: Dom, s: seq<Node>, from: nat): (r: Option<nat>)
    ensures r.Some? ==> from <= r.value < |s| && IsElement(d, s[r.value])
    ensures r.Some? ==> forall j :: from <= j < r.value ==> !IsElement(d, s[j])
    ensures r.None? ==> forall j :: from <= j < |s| ==> !IsElement(d, s[j])
    decreases |s| - from
  {
    if from >= |s| then None
    else if IsElement(d, s[from]) then Some(from)
    else FirstElementFrom(d, s, from + 1)
  }

  /** Index of the last element of `s` strictly before `upto`, if any. */
  function LastElementBefore(d: Dom, s: seq<Node>, upto: nat): (r: Option<nat>)
    requires upto <= |s|
    ensures r.Some? ==> r.value < upto && IsElement(d, s[r.value])
    ensures r.Some? ==> forall j :: r.value < j < upto ==> !IsElement(d, s[j])
    ensures r.None? ==> forall j :: 0 <= j < upto ==> !IsElement(d, s[j])
  {
    if upto == 0 then None
    else if IsElement(d, s[upto - 1]) then Some(upto - 1)
    else LastElementBefore(d, s, upto - 1)
  }

  function NextElementSibling(d: Dom, n: Node): Option<Node> {
    var s := Siblings(d, n);
    var i := Position(s, n);
    if i >= |s| then None
    else match FirstElementFrom(d, s, i + 1)
      case Some(j) => Some(s[j])
      case None => None
  }

  function PreviousElementSibling(d: Dom, n: Node): Option<Node> {
    var s := Siblings(d, n);
    var i := Position(s, n);
    if i >= |s| then None
    else match LastElementBefore(d, s, i)
      case Some(j) => Some(s[j])
      case None => None
  }

  /** An `svg` element in the SVG namespace (an `SVGSVGElement`). */
  predicate IsSvgSvgElement(d: Dom, n: Node) {
    IsSvgElement(d, n) && d.kind[n].tag == "svg"
  }

  /** No proper ancestor of `n` is an SVG `svg` element. */
  ghost predicate NoSvgAncestor(d: Dom, n: Node)
    requires Rooted(d.parent, n)
  {
    forall a :: a in AncSet(d.parent, n) ==> !IsSvgSvgElement(d, a)
  }

  /** `a` is an SVG `svg` ancestor of `n`, and every other one lies above it. */
  ghost predicate IsNearestSvg(d: Dom, n: Node, a: Node)
    requires Rooted(d.parent, n)
  {
    && a in AncSet(d.parent, n) && IsSvgSvgElement(d, a)
    && forall b :: b in AncSet(d.parent, n) && IsSvgSvgElement(d, b) ==> b == a || b in AncSet(d.parent, a)
  }

  /** The nearest proper ancestor that is an SVG `svg` element. */
  function NearestSvgAncestor(d: Dom, n: Node): (r: Option<Node>)
    requires Rooted(d.parent, n)
    ensures r.Some? ==> IsNearestSvg(d, n, r.value)
    ensures r.None? <==> NoSvgAncestor(d, n)
    decreases Depth(d.parent, n)
  {
    if n !in d.parent then None
    else
      var p := d.parent[n];
      DepthOfParent(d.parent, n);
      if IsSvgSvgElement(d, p) then Some(p)
      else NearestSvgAncestor(d, p)
  }

  /**
   * `ownerSVGElement`: defined on SVG elements only (JavaScript `undefined` elsewhere,
   * modelled as absent), the nearest `svg` ancestor, absent for an outermost `svg`.
   */
  function OwnerSvgElement(d: Dom, n: Node): (r: Option<Node>)
    requires Rooted(d.parent, n)
    ensures r.Some? ==> IsSvgElement(d, n) && IsNearestSvg(d, n, r.value)
    ensures r.None? <==> !IsSvgElement(d, n) || NoSvgAncestor(d, n)
  {
    if IsSvgElement(d, n) then NearestSvgAncestor(d, n) else None
  }

  /** `viewportElement`: the element that establishes the viewport, taken as the nearest `svg` ancestor. */
  function ViewportElement(d: Dom, n: Node): (r: Option<Node>)
    requires Rooted(d.parent, n)
    ensures r.Some? ==> IsSvgElement(d, n) && IsNearestSvg(d, n, r.value)
    ensures r.None? <==> !IsSvgElement(d, n) || NoSvgAncestor(d, n)
  {
    if IsSvgElement(d, n) then NearestSvgAncestor(d, n) else None
  }

  function HasElementChild(d: Dom, p: Node): bool {
    exists i :: 0 <= i < |ChildrenOf(d, p)| && IsElement(d, ChildrenOf(d, p)[i])
  }

  // ---------------------------------------------------------------------------
  // Changing the tree

  /** If the parent chain of `m` avoids `c`, changing only `c`'s link leaves it intact. */
  lemma ChainKeptAway(parent: map<Node, Node>, parent2: map<Node, Node>, c: Node, m: Node)
    requires Rooted(parent, m)
    requires forall x :: x != c ==> (x in parent2 <==> x in parent)
    requires forall x :: x != c && x in parent ==> parent2[x] == parent[x]
    requires c != m && c !in AncSet(parent, m)
    ensures ChainLen(parent2, m, Depth(parent, m))
    decreases Depth(parent, m)
  {
    if m in parent {
      DepthOfParent(parent, m);
      ChainKeptAway(parent, parent2, c, parent[m]);
    }
  }

  /** Re-linking `c` under a node that `c` is not an inclusive ancestor of keeps every chain finite. */
  lemma RootedAfterRelink(parent: map<Node, Node>, parent2: map<Node, Node>, c: Node, n: Node)
    requires Rooted(parent, n)
    requires forall x :: x != c ==> (x in parent2 <==> x in parent)
    requires forall x :: x != c && x in parent ==> parent2[x] == parent[x]
    requires c in parent2 ==> Rooted(parent, parent2[c]) && c != parent2[c] && c !in AncSet(parent, parent2[c])
    ensures Rooted(parent2, n)
    decreases Depth(parent, n)
  {
    if n == c {
      if c in parent2 {
        var p := parent2[c];
        ChainKeptAway(parent, parent2, c, p);
        assert ChainLen(parent2, c, Depth(parent, p) + 1);
      } else {
        assert ChainLen(parent2, c, 0);
      }
    } else if n in parent {
      DepthOfParent(parent, n);
      RootedAfterRelink(parent, parent2, c, parent[n]);
      var k: nat :| ChainLen(parent2, parent[n], k);
      assert ChainLen(parent2, n, k + 1);
    } else {
      assert ChainLen(parent2, n, 0);
    }
  }

  /** Every node of `d2` is rooted when `d2` only re-links `c` as `RootedAfterRelink` allows. */
  lemma AcyclicAfterRelink(d: Dom, d2: Dom, c: Node)
    requires Acyclic(d) && d2.kind.Keys <= d.kind.Keys
    requires forall x :: x != c ==> (x in d2.parent <==> x in d.parent)
    requires forall x :: x != c && x in d.parent ==> d2.parent[x] == d.parent[x]
    requires c in d2.parent ==> d2.parent[c] in d.kind && c != d2.parent[c] && c !in AncSet(d.parent, d2.parent[c])
    ensures Acyclic(d2)
  {
    forall n | n in d2.kind ensures Rooted(d2.parent, n) {
      RootedAfterRelink(d.parent, d2.parent, c, n);
    }
  }

  /** Linking the detached `c` under `p`, which `c` is not an ancestor of, keeps the tree acyclic. */
  lemma AcyclicAfterLink(d: Dom, r: Dom, p: Node, c: Node)
    requires WellKeyed(d) && Acyclic(d) && p in d.kind && c !in d.parent
    requires !IsInclusiveAncestor(d, c, p)
    requires r.kind == d.kind && r.parent == d.parent[c := p]
    ensures Acyclic(r)
  {
    AcyclicAfterRelink(d, r, c);
  }

  /** Unlinking `c` keeps the tree acyclic. */
  lemma AcyclicAfterUnlink(d: Dom, r: Dom, c: Node)
    requires WellKeyed(d) && Acyclic(d)
    requires r.kind == d.kind && r.parent == d.parent - {c}
    ensures Acyclic(r)
  {
    AcyclicAfterRelink(d, r, c);
  }

  /** Allocation of a fresh, detached, childless node. */
  function CreateNode(d: Dom, k: Kind, attrs: seq<Attr>): (r: (Dom, Node))
    requires Valid(d)
    ensures r.1 == d.next && r.1 !in d.kind
    ensures r.0 == Dom(d.kind[r.1 := k], d.parent, d.childNodes[r.1 := []], d.attrs[r.1 := attrs], d.document, r.1 + 1)
    ensures Valid(r.0) && Extends(d, r.0)
  {
    var n := d.next;
    var d2 := Dom(d.kind[n := k], d.parent, d.childNodes[n := []], d.attrs[n := attrs], d.document, n + 1);
    CreateValid(d, d2, n);
    (d2, n)
  }

  lemma CreateValid(d: Dom, d2: Dom, n: Node)
    requires Valid(d) && n == d.next
    requires d2.kind.Keys == d.kind.Keys + {n} && d2.parent == d.parent && d2.document == d.document
    requires d2.childNodes == d.childNodes[n := []] && d2.attrs.Keys == d2.kind.Keys && d2.next == n + 1
    requires forall m :: m in d.kind ==> d2.kind[m] == d.kind[m]
    ensures Valid(d2) && Extends(d, d2)
  {
    assert WellKeyed(d2);
    assert Linked(d2) by {
      forall p, c | p in d2.childNodes && c in d2.childNodes[p] ensures c in d2.parent && d2.parent[c] == p {
        assert p in d.childNodes && c in d.childNodes[p];
      }
    }
    assert Acyclic(d2) by {
      forall m | m in d2.kind ensures Rooted(d2.parent, m) {
        if m == n { assert ChainLen(d2.parent, m, 0); }
      }
    }
  }

  /** A fresh element in namespace `ns` without attributes or children (`createElementNS`). */
  function CreateElementNS(d: Dom, ns: string, tag: string): (r: (Dom, Node))
    requires Valid(d)
    ensures Valid(r.0) && Extends(d, r.0) && r.1 !in d.kind && r.1 in r.0.kind && r.1 !in r.0.parent
    ensures r.1 == d.next && r.0.next == d.next + 1
    ensures r.0.kind[r.1] == Element(Some(ns), tag) && r.0.childNodes[r.1] == [] && r.0.attrs[r.1] == []
    ensures r.0.parent == d.parent
    ensures forall m :: m in d.kind ==> r.0.childNodes[m] == d.childNodes[m] && r.0.attrs[m] == d.attrs[m]
  {
    CreateNode(d, Element(Some(ns), tag), [])
  }

  /** Unlinks `c` from its parent, if it has one (`parentNode.removeChild(c)`). */
  function Detach(d: Dom, c: Node): (r: Dom)
    requires c in d.parent ==> d.parent[c] in d.childNodes
  {
    if c !in d.parent then d
    else
      var p := d.parent[c];
      d.(parent := d.parent - {c}, childNodes := d.childNodes[p := Without(d.childNodes[p], c)])
  }

  lemma DetachValid(d: Dom, c: Node)
    requires Valid(d)
    ensures Valid(Detach(d, c)) && Extends(d, Detach(d, c))
  {
    if c in d.parent {
      var r := Detach(d, c);
      DetachLinked(d, r, c);
      AcyclicAfterUnlink(d, r, c);
    }
  }

  lemma DetachLinked(d: Dom, r: Dom, c: Node)
    requires WellKeyed(d) && Linked(d) && c in d.parent
    requires r == d.(parent := d.parent - {c}, childNodes := d.childNodes[d.parent[c] := Without(d.childNodes[d.parent[c]], c)])
    ensures WellKeyed(r) && Linked(r)
  {
    DetachParentsListed(d, r, c);
    DetachChildrenLinked(d, r, c);
    DetachListsDistinct(d, r, c);
  }

  lemma DetachParentsListed(d: Dom, r: Dom, c: Node)
    requires WellKeyed(d) && ParentsListed(d) && c in d.parent
    requires r == d.(parent := d.parent - {c}, childNodes := d.childNodes[d.parent[c] := Without(d.childNodes[d.parent[c]], c)])
    ensures WellKeyed(r) && ParentsListed(r)
  {
    forall x | x in r.parent ensures r.parent[x] in r.kind && x in r.childNodes[r.parent[x]] {
      assert x in d.childNodes[d.parent[x]];
    }
  }

  lemma DetachChildrenLinked(d: Dom, r: Dom, c: Node)
    requires WellKeyed(d) && ChildrenLinked(d) && c in d.parent && d.parent[c] in d.kind && WellKeyed(r)
    requires r.parent == d.parent - {c}
    requires r.childNodes == d.childNodes[d.parent[c] := Without(d.childNodes[d.parent[c]], c)]
    ensures ChildrenLinked(r)
  {
    forall q | q in r.childNodes ensures forall x :: x in r.childNodes[q] ==> x in r.parent && r.parent[x] == q {
      var kids := if q == d.parent[c] then Without(d.childNodes[q], c) else d.childNodes[q];
      assert r.childNodes[q] == kids;
      forall x | x in kids ensures x in r.parent && r.parent[x] == q {
        DetachLink(d, c, q, x);
      }
    }
  }

  /** An entry of a child list after `removeChild(c)` is an old entry other than `c`. */
  lemma DetachLink(d: Dom, c: Node, q: Node, x: Node)
    requires WellKeyed(d) && ChildrenLinked(d) && c in d.parent && q in d.childNodes
    requires x in (if q == d.parent[c] then Without(d.childNodes[q], c) else d.childNodes[q])
    ensures x != c && x in d.parent && d.parent[x] == q
  {
  }

  lemma DetachListsDistinct(d: Dom, r: Dom, c: Node)
    requires WellKeyed(d) && ListsDistinct(d) && c in d.parent && d.parent[c] in d.kind
    requires r == d.(parent := d.parent - {c}, childNodes := d.childNodes[d.parent[c] := Without(d.childNodes[d.parent[c]], c)])
    ensures ListsDistinct(r)
  {
  }

  /** Links `c` into `p`'s children before `ref` (at the end when `ref` is absent). */
  function Attach(d: Dom, p: Node, c: Node, ref: Option<Node>): (r: Dom)
    requires p in d.childNodes
  {
    var kids := d.childNodes[p];
    d.(parent := d.parent[c := p], childNodes := d.childNodes[p := InsertAt(kids, InsertionIndex(kids, ref), c)])
  }

  /** Where a node inserted before `ref` lands in `kids`: at `ref`, or at the end. */
  function InsertionIndex(kids: seq<Node>, ref: Option<Node>): (i: nat)
    ensures i <= |kids|
    ensures ref.Some? && ref.value in kids ==> i < |kids| && kids[i] == ref.value
    ensures ref.None? ==> i == |kids|
  {
    if ref.Some? then Position(kids, ref.value) else |kids|
  }

  lemma AttachValid(d: Dom, p: Node, c: Node, ref: Option<Node>)
    requires Valid(d) && p in d.kind && c in d.kind && c !in d.parent
    requires !IsInclusiveAncestor(d, c, p)
    requires !d.kind[c].Document? && !d.kind[p].Text?
    ensures Valid(Attach(d, p, c, ref)) && Extends(d, Attach(d, p, c, ref))
  {
    var r := Attach(d, p, c, ref);
    var kids := d.childNodes[p];
    assert c !in kids;
    var nk := InsertAt(kids, InsertionIndex(kids, ref), c);
    AttachParentsListed(d, r, p, c, nk);
    AttachChildrenLinked(d, r, p, c, nk);
    AttachListsDistinct(d, r, p, c, nk);
    AttachShaped(d, r, p, c);
    AcyclicAfterLink(d, r, p, c);
  }

  lemma AttachParentsListed(d: Dom, r: Dom, p: Node, c: Node, nk: seq<Node>)
    requires WellKeyed(d) && ParentsListed(d) && p in d.kind && c in d.kind
    requires forall y :: y in nk <==> y in d.childNodes[p] || y == c
    requires r == d.(parent := d.parent[c := p], childNodes := d.childNodes[p := nk])
    ensures WellKeyed(r) && ParentsListed(r)
  {
    forall x | x in r.parent ensures r.parent[x] in r.kind && x in r.childNodes[r.parent[x]] {
      if x != c { assert x in d.childNodes[d.parent[x]]; }
    }
  }

  lemma AttachChildrenLinked(d: Dom, r: Dom, p: Node, c: Node, nk: seq<Node>)
    requires WellKeyed(d) && ChildrenLinked(d) && p in d.kind && c in d.kind && c !in d.parent
    requires forall y :: y in nk <==> y in d.childNodes[p] || y == c
    requires r == d.(parent := d.parent[c := p], childNodes := d.childNodes[p := nk])
    ensures WellKeyed(r) && ChildrenLinked(r)
  {
    forall q, x | q in r.childNodes && x in r.childNodes[q] ensures x in r.parent && r.parent[x] == q {
      if x != c {
        assert x in d.childNodes[q];
      }
    }
  }

  lemma AttachListsDistinct(d: Dom, r: Dom, p: Node, c: Node, nk: seq<Node>)
    requires ListsDistinct(d) && NoDups(nk)
    requires r == d.(parent := d.parent[c := p], childNodes := d.childNodes[p := nk])
    ensures ListsDistinct(r)
  {
  }

  lemma AttachShaped(d: Dom, r: Dom, p: Node, c: Node)
    requires WellKeyed(d) && Linked(d) && Shaped(d) && WellKeyed(r) && Linked(r)
    requires p in d.kind && c in d.kind && !d.kind[c].Document? && !d.kind[p].Text?
    requires r.kind == d.kind && r.parent == d.parent[c := p]
    ensures Shaped(r)
  {
  }

  /** Detaching `c` cannot make it an ancestor of a node it was not an ancestor of. */
  lemma DetachKeepsNonAncestor(d: Dom, c: Node, m: Node)
    requires Valid(d) && c in d.kind && m in d.kind
    requires !IsInclusiveAncestor(d, c, m)
    ensures Rooted(Detach(d, c).parent, m) && !IsInclusiveAncestor(Detach(d, c), c, m)
    decreases Depth(d.parent, m)
  {
    DetachValid(d, c);
    var d1 := Detach(d, c);
    if m in d.parent {
      DepthOfParent(d.parent, m);
      DetachKeepsNonAncestor(d, c, d.parent[m]);
      DepthOfParent(d1.parent, m);
    }
  }

  /** The DOM's pre-insertion validity check, or `None` when the insertion may go ahead. */
  function PreInsertError(d: Dom, p: Node, c: Node, ref: Option<Node>): Option<DomError>
    requires Valid(d) && p in d.kind && c in d.kind
  {
    if !(d.kind[p].Document? || d.kind[p].Element?) then Some(HierarchyRequestError)
    else if IsInclusiveAncestor(d, c, p) then Some(HierarchyRequestError)
    else if ref.Some? && ParentNode(d, ref.value) != Some(p) then Some(NotFoundError)
    else if d.kind[c].Document? then Some(HierarchyRequestError)
    else if d.kind[p].Document? && (d.kind[c].Text? || HasElementChild(d, p)) then Some(HierarchyRequestError)
    else None
  }

  /** The child `c` is inserted before: `ref`, or the node after `c` when `ref` is `c` itself. */
  function ReferenceChild(d: Dom, c: Node, ref: Option<Node>): Option<Node> {
    if ref == Some(c) then NextSibling(d, c) else ref
  }

  /** When the pre-insertion check passes, the detached `c` may be linked under `p`. */
  lemma InsertionAllowed(d: Dom, p: Node, c: Node, ref: Option<Node>)
    requires Valid(d) && p in d.kind && c in d.kind
    requires PreInsertError(d, p, c, ref).None?
    ensures Valid(Detach(d, c))
    ensures Valid(Attach(Detach(d, c), p, c, ReferenceChild(d, c, ref)))
    ensures Extends(d, Attach(Detach(d, c), p, c, ReferenceChild(d, c, ref)))
  {
    DetachValid(d, c);
    var d1 := Detach(d, c);
    DetachKeepsNonAncestor(d, c, p);
    AttachValid(d1, p, c, ReferenceChild(d, c, ref));
  }

  /** `p.insertBefore(c, ref)`: moves `c` (out of its old parent) to just before `ref` in `p`. */
  function InsertBefore(d: Dom, p: Node, c: Node, ref: Option<Node>): (r: Result<Dom, DomError>)
    requires Valid(d) && p in d.kind && c in d.kind
    ensures r.Failure? <==> PreInsertError(d, p, c, ref).Some?
    ensures r.Success? ==> Valid(r.value) && Extends(d, r.value)
  {
    if PreInsertError(d, p, c, ref).Some? then Failure(PreInsertError(d, p, c, ref).value)
    else
      InsertionAllowed(d, p, c, ref);
      Success(Attach(Detach(d, c), p, c, ReferenceChild(d, c, ref)))
  }

  /** `p.appendChild(c)`. */
  function AppendChild(d: Dom, p: Node, c: Node): (r: Result<Dom, DomError>)
    requires Valid(d) && p in d.kind && c in d.kind
    ensures r.Success? ==> Valid(r.value) && Extends(d, r.value)
  {
    InsertBefore(d, p, c, None)
  }

  // ---------------------------------------------------------------------------
  // Cloning

  /** Nothing recorded about the nodes of `d` other than `except` changed on the way to `r`. */
  ghost predicate Untouched(d: Dom, r: Dom, except: Node) {
    && (forall x :: x in d.kind && x != except ==> (x in r.parent <==> x in d.parent))
    && (forall x :: x in d.parent && x != except ==> x in r.parent && r.parent[x] == d.parent[x])
    && (forall x :: x in d.childNodes && x != except ==> x in r.childNodes && r.childNodes[x] == d.childNodes[x])
    && (forall x :: x in d.attrs && x != except ==> x in r.attrs && r.attrs[x] == d.attrs[x])
  }

  /** Leaving a node untouched twice leaves it untouched. */
  lemma UntouchedTransitive(d: Dom, d2: Dom, r: Dom, except: Node)
    requires WellKeyed(d) && Extends(d, d2) && Untouched(d, d2, except) && Untouched(d2, r, except)
    ensures Untouched(d, r, except)
  {
    forall x | x in d.kind && x != except ensures x in r.parent <==> x in d.parent {
      assert x in d2.kind;
    }
  }

  /** One step of deep cloning leaves every node of `dst` but `copy` as it was. */
  lemma CloneStepUntouched(dst: Dom, d1: Dom, d2: Dom, r: Dom, copy: Node, cc: Node)
    requires WellKeyed(dst) && WellKeyed(d1) && Extends(dst, d1) && cc !in dst.kind && copy in d1.childNodes
    requires Untouched(dst, d1, cc) && d2 == Attach(d1, copy, cc, None) && Untouched(d2, r, copy)
    ensures Untouched(dst, r, copy)
  {
    AttachUntouched(dst, d1, copy, cc);
    UntouchedTransitive(dst, d2, r, copy);
  }

  /** Attaching a node new to `d` under `p` touches only `p` among the nodes of `d`. */
  lemma AttachUntouched(d: Dom, d1: Dom, p: Node, c: Node)
    requires WellKeyed(d) && c !in d.kind && p in d1.childNodes && Untouched(d, d1, c)
    ensures Untouched(d, Attach(d1, p, c, None), p)
  {
    var d2 := Attach(d1, p, c, None);
    assert d2.parent == d1.parent[c := p] && d2.attrs == d1.attrs;
    forall x | x in d.kind && x != p ensures x in d2.parent <==> x in d.parent {
      assert x != c;
    }
    forall x | x in d.parent && x != p ensures x in d2.parent && d2.parent[x] == d.parent[x] {
      assert x != c;
    }
    forall x | x in d.childNodes && x != p ensures x in d2.childNodes && d2.childNodes[x] == d.childNodes[x] {
      assert x != c;
    }
  }

  /**
   * `cloneNode(deep)` of the node `n` of `src`, allocating in `dst`: a fresh detached node
   * of the same kind with the same attributes and, when `deep`, a copy of every child.
   */
  function CloneInto(src: Dom, dst: Dom, n: Node, deep: bool): (r: (Dom, Node))
    requires Valid(src) && n in src.kind && Valid(dst)
    ensures Valid(r.0) && Extends(dst, r.0) && Untouched(dst, r.0, r.1)
    ensures r.1 !in dst.kind && r.1 in r.0.kind && r.1 !in r.0.parent
    ensures r.0.kind[r.1] == src.kind[n] && r.0.attrs[r.1] == src.attrs[n]
    ensures |r.0.childNodes[r.1]| == if deep then |src.childNodes[n]| else 0
    decreases Below(src, n), 1, 0
  {
    var (d1, copy) := CreateNode(dst, src.kind[n], src.attrs[n]);
    CreateUntouched(dst, d1, copy, src.kind[n], src.attrs[n]);
    if deep then
      var d2 := CloneChildren(src, d1, n, copy, src.childNodes[n]);
      ClonedChildCount(src, d1, n, copy);
      ExtendsTransitive(dst, d1, d2);
      UntouchedTransitive(dst, d1, d2, copy);
      (d2, copy)
    else
      (d1, copy)
  }

  /** A deep clone starts with no children and gets one copy per child of the original. */
  lemma ClonedChildCount(src: Dom, d1: Dom, n: Node, copy: Node)
    requires Valid(src) && n in src.kind && Valid(d1)
    requires copy in d1.kind && copy !in d1.parent && d1.kind[copy] == src.kind[n] && d1.childNodes[copy] == []
    ensures |CloneChildren(src, d1, n, copy, src.childNodes[n]).childNodes[copy]| == |src.childNodes[n]|
    decreases Below(src, n), 0, |src.childNodes[n]| + 1
  {
  }

  /** Allocating a node touches no other node. */
  lemma CreateUntouched(dst: Dom, d1: Dom, copy: Node, k: Kind, a: seq<Attr>)
    requires WellKeyed(dst) && copy !in dst.kind
    requires d1 == Dom(dst.kind[copy := k], dst.parent, dst.childNodes[copy := []], dst.attrs[copy := a], dst.document, copy + 1)
    ensures Untouched(dst, d1, copy) && copy !in d1.parent && d1.childNodes[copy] == []
  {
    assert copy !in dst.parent;
  }

  /** Deep copies of `cs`, children of `n` in `src`, appended in order to the detached `copy`. */
  function CloneChildren(src: Dom, dst: Dom, n: Node, copy: Node, cs: seq<Node>): (r: Dom)
    requires Valid(src) && n in src.kind && Valid(dst)
    requires forall c :: c in cs ==> c in src.childNodes[n]
    requires copy in dst.kind && copy !in dst.parent && dst.kind[copy] == src.kind[n]
    ensures Valid(r) && Extends(dst, r) && Untouched(dst, r, copy)
    ensures copy !in r.parent && r.attrs[copy] == dst.attrs[copy]
    ensures |r.childNodes[copy]| == |dst.childNodes[copy]| + |cs|
    decreases Below(src, n), 0, |cs|
  {
    if cs == [] then dst
    else
      var c := cs[0];
      BelowShrinks(src, n, c);
      var (d1, cc) := CloneInto(src, dst, c, true);
      AttachCloneAllowed(src, d1, n, copy, c, cc);
      AttachValid(d1, copy, cc, None);
      var d2 := Attach(d1, copy, cc, None);
      var r := CloneChildren(src, d2, n, copy, cs[1..]);
      CloneStepUntouched(dst, d1, d2, r, copy, cc);
      r
  }

  /** The children copied under a fresh node make it a copy of the whole subtree. */
  lemma CopiesUnderCopy(src: Dom, dst: Dom, d1: Dom, d2: Dom, n: Node, copy: Node)
    requires n in src.kind && n in src.attrs && n in src.childNodes && dst.kind.Keys <= d1.kind.Keys && Extends(d1, d2)
    requires copy !in dst.kind && copy in d1.kind && d1.kind[copy] == src.kind[n]
    requires copy in d2.childNodes && copy in d2.attrs && d2.attrs[copy] == src.attrs[n]
    requires |d2.childNodes[copy]| == |src.childNodes[n]|
    requires copy in d1.childNodes && d1.childNodes[copy] == []
    requires forall i :: 0 <= i < |src.childNodes[n]| ==>
               src.childNodes[n][i] in src.kind
               && SubtreeCopy(src, d1.kind.Keys, d2, src.childNodes[n][i], d2.childNodes[copy][|d1.childNodes[copy]| + i])
    ensures SubtreeCopy(src, dst.kind.Keys, d2, n, copy)
  {
    forall h: nat ensures CopiedTo(src, dst.kind.Keys, d2, n, copy, h) {
      if h > 0 {
        forall i | 0 <= i < |src.childNodes[n]|
          ensures CopiedTo(src, dst.kind.Keys, d2, src.childNodes[n][i], d2.childNodes[copy][i], h - 1)
        {
          CopiedToFewer(src, d1.kind.Keys, dst.kind.Keys, d2, src.childNodes[n][i], d2.childNodes[copy][i], h - 1);
        }
      }
    }
  }

  /**
   * One round of `CloneChildren`: the copy `cc` of `cs[0]` was attached under `copy` and
   * the rest copied after it, so `copy` gains copies of all of `cs`, in order.
   */
  lemma CopiesJoin(dst: Dom, d1: Dom, d2: Dom, r: Dom, src: Dom, copy: Node, cs: seq<Node>, cc: Node)
    requires cs != [] && copy in dst.kind && copy in dst.childNodes && dst.kind.Keys <= d2.kind.Keys
    requires Extends(d1, d2) && Extends(d2, r) && copy in d1.childNodes
    requires cs[0] in src.kind && SubtreeCopy(src, dst.kind.Keys, d1, cs[0], cc)
    requires d1.childNodes[copy] == dst.childNodes[copy] && d2 == Attach(d1, copy, cc, None)
    requires copy in r.childNodes && SameBelow(d2, r, copy) && |r.childNodes[copy]| == |d2.childNodes[copy]| + |cs[1..]|
    requires r.childNodes[copy][..|d2.childNodes[copy]|] == d2.childNodes[copy]
    requires forall i :: 0 <= i < |cs[1..]| ==>
               cs[1..][i] in src.kind && SubtreeCopy(src, d2.kind.Keys, r, cs[1..][i], r.childNodes[copy][|d2.childNodes[copy]| + i])
    ensures |r.childNodes[copy]| == |dst.childNodes[copy]| + |cs|
    ensures r.childNodes[copy][..|dst.childNodes[copy]|] == dst.childNodes[copy]
    ensures forall i :: 0 <= i < |cs| ==>
              cs[i] in src.kind && SubtreeCopy(src, dst.kind.Keys, r, cs[i], r.childNodes[copy][|dst.childNodes[copy]| + i])
  {
    var k := |dst.childNodes[copy]|;
    assert d2.childNodes[copy] == dst.childNodes[copy] + [cc];
    PrefixStep(r.childNodes[copy], dst.childNodes[copy], cc);
    assert SameBelow(d1, d2, copy);
    SubtreeCopyLasts(src, dst.kind.Keys, d1, d2, cs[0], cc, copy);
    SubtreeCopyLasts(src, dst.kind.Keys, d2, r, cs[0], cc, copy);
    forall i | 0 < i < |cs|
      ensures cs[i] in src.kind && SubtreeCopy(src, dst.kind.Keys, r, cs[i], r.childNodes[copy][k + i])
    {
      assert cs[i] == cs[1..][i - 1];
      SubtreeCopyFewer(src, d2.kind.Keys, dst.kind.Keys, r, cs[i], r.childNodes[copy][k + i]);
    }
  }

  /** `CloneInto` with `deep` copies the whole subtree of `n`, with nodes new to `dst`. */
  lemma {:induction false} CloneIntoCopies(src: Dom, dst: Dom, n: Node)
    requires Valid(src) && n in src.kind && Valid(dst)
    ensures var r := CloneInto(src, dst, n, true); SubtreeCopy(src, dst.kind.Keys, r.0, n, r.1)
    decreases Below(src, n), 1, 0
  {
    var d1, copy, d2 := CloneIntoUnfold(src, dst, n);
    CloneChildrenCopies(src, d1, n, copy, src.childNodes[n]);
    CopiesUnderCopy(src, dst, d1, d2, n, copy);
  }

  /** A deep `CloneInto`: allocate the detached `copy`, then copy the children under it. */
  lemma CloneIntoUnfold(src: Dom, dst: Dom, n: Node) returns (d1: Dom, copy: Node, d2: Dom)
    requires Valid(src) && n in src.kind && Valid(dst)
    ensures Valid(d1) && dst.kind.Keys <= d1.kind.Keys && copy !in dst.kind
    ensures copy in d1.kind && copy !in d1.parent && d1.kind[copy] == src.kind[n] && d1.childNodes[copy] == []
    ensures d2 == CloneChildren(src, d1, n, copy, src.childNodes[n])
    ensures CloneInto(src, dst, n, true) == (d2, copy)
  {
    d1, copy := CreateNode(dst, src.kind[n], src.attrs[n]).0, CreateNode(dst, src.kind[n], src.attrs[n]).1;
    CreateUntouched(dst, d1, copy, src.kind[n], src.attrs[n]);
    d2 := CloneChildren(src, d1, n, copy, src.childNodes[n]);
  }

  /**
   * `CloneChildren` keeps the children `copy` had and appends, in order, a copy of the
   * subtree of each node of `cs`, with nodes new to `dst`.
   */
  lemma {:induction false} CloneChildrenCopies(src: Dom, dst: Dom, n: Node, copy: Node, cs: seq<Node>)
    requires Valid(src) && n in src.kind && Valid(dst)
    requires forall c :: c in cs ==> c in src.childNodes[n]
    requires copy in dst.kind && copy !in dst.parent && dst.kind[copy] == src.kind[n]
    ensures var r := CloneChildren(src, dst, n, copy, cs);
            && copy in r.childNodes
            && r.childNodes[copy][..|dst.childNodes[copy]|] == dst.childNodes[copy]
            && forall i :: 0 <= i < |cs| ==>
                 cs[i] in src.kind && SubtreeCopy(src, dst.kind.Keys, r, cs[i], r.childNodes[copy][|dst.childNodes[copy]| + i])
    decreases Below(src, n), 0, |cs|
  {
    if cs != [] {
      BelowShrinks(src, n, cs[0]);
      CloneIntoCopies(src, dst, cs[0]);
      var d1, cc, d2 := CloneChildrenUnfold(src, dst, n, copy, cs);
      CloneChildrenCopies(src, d2, n, copy, cs[1..]);
      CopiesJoin(dst, d1, d2, CloneChildren(src, d2, n, copy, cs[1..]), src, copy, cs, cc);
    }
  }

  /** The first round of `CloneChildren`: copy `cs[0]` into `cc`, attach it under `copy`, copy the rest. */
  lemma CloneChildrenUnfold(src: Dom, dst: Dom, n: Node, copy: Node, cs: seq<Node>) returns (d1: Dom, cc: Node, d2: Dom)
    requires Valid(src) && n in src.kind && Valid(dst) && cs != []
    requires forall c :: c in cs ==> c in src.childNodes[n]
    requires copy in dst.kind && copy !in dst.parent && dst.kind[copy] == src.kind[n]
    ensures cs[0] in src.kind && (d1, cc) == CloneInto(src, dst, cs[0], true) && copy in d1.childNodes
    ensures d2 == Attach(d1, copy, cc, None) && Valid(d2) && Extends(d1, d2) && dst.kind.Keys <= d2.kind.Keys
    ensures d1.childNodes[copy] == dst.childNodes[copy]
    ensures copy in d2.kind && copy !in d2.parent && d2.kind[copy] == src.kind[n]
    ensures forall c :: c in cs[1..] ==> c in src.childNodes[n]
    ensures CloneChildren(src, dst, n, copy, cs) == CloneChildren(src, d2, n, copy, cs[1..])
  {
    BelowShrinks(src, n, cs[0]);
    d1, cc := CloneInto(src, dst, cs[0], true).0, CloneInto(src, dst, cs[0], true).1;
    AttachCloneAllowed(src, d1, n, copy, cs[0], cc);
    AttachValid(d1, copy, cc, None);
    d2 := Attach(d1, copy, cc, None);
    assert forall c :: c in cs[1..] ==> c in cs;
  }

  /** A list that starts with `b + [x]` starts with `b`, followed by `x`. */
  lemma PrefixStep(a: seq<Node>, b: seq<Node>, x: Node)
    requires |b| + 1 <= |a| && a[..|b| + 1] == b + [x]
    ensures a[..|b|] == b && a[|b|] == x
  {
    assert a[..|b|] == a[..|b| + 1][..|b|];
    assert a[|b|] == a[..|b| + 1][|b|];
  }

  /** A fresh copy may be linked under the detached copy of its source's parent. */
  lemma AttachCloneAllowed(src: Dom, d: Dom, n: Node, copy: Node, c: Node, cc: Node)
    requires Valid(src) && n in src.kind && c in src.childNodes[n] && Valid(d)
    requires copy in d.kind && copy !in d.parent && d.kind[copy] == src.kind[n]
    requires cc in d.kind && cc !in d.parent && cc != copy && d.kind[cc] == src.kind[c]
    ensures !IsInclusiveAncestor(d, cc, copy)
    ensures !d.kind[cc].Document? && !d.kind[copy].Text?
  {
    assert src.parent[c] == n;
  }

  /** `n.cloneNode(deep)`: a deep clone copies the whole subtree of `n`, a shallow one only `n`. */
  function CloneNode(d: Dom, n: Node, deep: bool): (r: (Dom, Node))
    requires Valid(d) && n in d.kind
    ensures Valid(r.0) && Extends(d, r.0) && Untouched(d, r.0, r.1)
    ensures r.1 !in d.kind && r.1 in r.0.kind && r.1 !in r.0.parent
    ensures r.0.kind[r.1] == d.kind[n] && r.0.attrs[r.1] == d.attrs[n]
    ensures |r.0.childNodes[r.1]| == if deep then |d.childNodes[n]| else 0
    ensures deep ==> SubtreeCopy(d, d.kind.Keys, r.0, n, r.1)
  {
    if deep then
      CloneIntoCopies(d, d, n);
      CloneInto(d, d, n, true)
    else
      CloneInto(d, d, n, false)
  }

  /**
   * In `r`, `c` heads a copy of the subtree of `n` in `src` down to depth `h`: every copied
   * node is new (outside `known`) and has the kind and attributes of its original, and
   * its children are, position by position, copies of the original's children.
   */
  ghost predicate CopiedTo(src: Dom, known: set<Node>, r: Dom, n: Node, c: Node, h: nat)
    decreases h
  {
    && n in src.kind && n in src.attrs && n in src.childNodes
    && c !in known && c in r.kind && c in r.attrs && c in r.childNodes
    && r.kind[c] == src.kind[n] && r.attrs[c] == src.attrs[n]
    && |r.childNodes[c]| == |src.childNodes[n]|
    && (h > 0 ==> forall i :: 0 <= i < |src.childNodes[n]| ==>
          CopiedTo(src, known, r, src.childNodes[n][i], r.childNodes[c][i], h - 1))
  }

  /** `c` heads a copy of the whole subtree of `n`: the two agree to every depth. */
  ghost predicate SubtreeCopy(src: Dom, known: set<Node>, r: Dom, n: Node, c: Node) {
    forall h: nat :: CopiedTo(src, known, r, n, c, h)
  }

  /** Every node of `r` but `except` has the same children and attributes in `r2`. */
  ghost predicate SameBelow(r: Dom, r2: Dom, except: Node) {
    && (forall x :: x in r.childNodes && x != except ==> x in r2.childNodes && r2.childNodes[x] == r.childNodes[x])
    && (forall x :: x in r.attrs && x != except ==> x in r2.attrs && r2.attrs[x] == r.attrs[x])
  }

  lemma {:induction false} CopiedToLasts(src: Dom, known: set<Node>, r: Dom, r2: Dom, n: Node, c: Node, except: Node, h: nat)
    requires Extends(r, r2) && SameBelow(r, r2, except) && except in known
    requires CopiedTo(src, known, r, n, c, h)
    ensures CopiedTo(src, known, r2, n, c, h)
    decreases h
  {
    if h > 0 {
      forall i | 0 <= i < |src.childNodes[n]|
        ensures CopiedTo(src, known, r2, src.childNodes[n][i], r2.childNodes[c][i], h - 1)
      {
        CopiedToLasts(src, known, r, r2, src.childNodes[n][i], r.childNodes[c][i], except, h - 1);
      }
    }
  }

  /** A copy stays a copy in a later tree that changed none of its nodes. */
  lemma SubtreeCopyLasts(src: Dom, known: set<Node>, r: Dom, r2: Dom, n: Node, c: Node, except: Node)
    requires Extends(r, r2) && SameBelow(r, r2, except) && except in known
    requires SubtreeCopy(src, known, r, n, c)
    ensures SubtreeCopy(src, known, r2, n, c)
  {
    forall h: nat ensures CopiedTo(src, known, r2, n, c, h) {
      CopiedToLasts(src, known, r, r2, n, c, except, h);
    }
  }

  lemma {:induction false} CopiedToFewer(src: Dom, known: set<Node>, fewer: set<Node>, r: Dom, n: Node, c: Node, h: nat)
    requires fewer <= known && CopiedTo(src, known, r, n, c, h)
    ensures CopiedTo(src, fewer, r, n, c, h)
    decreases h
  {
    if h > 0 {
      forall i | 0 <= i < |src.childNodes[n]|
        ensures CopiedTo(src, fewer, r, src.childNodes[n][i], r.childNodes[c][i], h - 1)
      {
        CopiedToFewer(src, known, fewer, r, src.childNodes[n][i], r.childNodes[c][i], h - 1);
      }
    }
  }

  /** A copy made outside `known` is made outside any smaller set. */
  lemma SubtreeCopyFewer(src: Dom, known: set<Node>, fewer: set<Node>, r: Dom, n: Node, c: Node)
    requires fewer <= known && SubtreeCopy(src, known, r, n, c)
    ensures SubtreeCopy(src, fewer, r, n, c)
  {
    forall h: nat ensures CopiedTo(src, fewer, r, n, c, h) {
      CopiedToFewer(src, known, fewer, r, n, c, h);
    }
  }

  lemma {:induction false} CopiedToOfKept(d: Dom, d1: Dom, known: set<Node>, r: Dom, n: Node, c: Node, h: nat)
    requires Valid(d) && n in d.kind && Extends(d, d1)
    requires forall x :: x in d.kind ==> x in d1.childNodes && d1.childNodes[x] == d.childNodes[x] && x in d1.attrs && d1.attrs[x] == d.attrs[x]
    requires CopiedTo(d1, known, r, n, c, h)
    ensures CopiedTo(d, known, r, n, c, h)
    decreases h
  {
    if h > 0 {
      forall i | 0 <= i < |d.childNodes[n]|
        ensures CopiedTo(d, known, r, d.childNodes[n][i], r.childNodes[c][i], h - 1)
      {
        assert d.childNodes[n][i] in d.childNodes[n];
        CopiedToOfKept(d, d1, known, r, d.childNodes[n][i], r.childNodes[c][i], h - 1);
      }
    }
  }

  /** A copy of the subtree of `n` in a later tree that kept every node's children and attributes is a copy of it in the earlier one. */
  lemma SubtreeCopyOfKept(d: Dom, d1: Dom, known: set<Node>, r: Dom, n: Node, c: Node)
    requires Valid(d) && n in d.kind && Extends(d, d1)
    requires forall x :: x in d.kind ==> x in d1.childNodes && d1.childNodes[x] == d.childNodes[x] && x in d1.attrs && d1.attrs[x] == d.attrs[x]
    requires SubtreeCopy(d1, known, r, n, c)
    ensures SubtreeCopy(d, known, r, n, c)
  {
    forall h: nat ensures CopiedTo(d, known, r, n, c, h) {
      CopiedToOfKept(d, d1, known, r, n, c, h);
    }
  }

  // ---------------------------------------------------------------------------
  // Attributes

  function QualifiedName(a: Attr): string {
    match a.prefix
    case Some(p) => p + ":" + a.local
    case None => a.local
  }

  function AttrsOf(d: Dom, n: Node): seq<Attr> {
    if n in d.attrs then d.attrs[n] else []
  }

  /** Index of the first attribute whose qualified name is `q`, or the list's length. */
  function IndexByName(list: seq<Attr>, q: string): (i: nat)
    ensures i <= |list|
    ensures i < |list| ==> QualifiedName(list[i]) == q
    ensures forall j :: 0 <= j < i ==> QualifiedName(list[j]) != q
  {
    if list == [] then 0
    else if QualifiedName(list[0]) == q then 0
    else 1 + IndexByName(list[1..], q)
  }

  /** Index of the first attribute with namespace `ns` and local name `local`, or the list's length. */
  function IndexByNs(list: seq<Attr>, ns: Option<string>, local: string): (i: nat)
    ensures i <= |list|
    ensures i < |list| ==> list[i].ns == ns && list[i].local == local
    ensures forall j :: 0 <= j < i ==> !(list[j].ns == ns && list[j].local == local)
  {
    if list == [] then 0
    else if list[0].ns == ns && list[0].local == local then 0
    else 1 + IndexByNs(list[1..], ns, local)
  }

  /** `getAttribute(q)`: the value of the first attribute whose qualified name is `q`. */
  function GetAttribute(d: Dom, n: Node, q: string): Option<string> {
    var list := AttrsOf(d, n);
    var i := IndexByName(list, q);
    if i < |list| then Some(list[i].value) else None
  }

  /** The value of the first attribute of `list` with namespace `ns` and local name `local`. */
  function LookupNs(list: seq<Attr>, ns: Option<string>, local: string): Option<string> {
    var i := IndexByNs(list, ns, local);
    if i < |list| then Some(list[i].value) else None
  }

  /** `getAttributeNS(ns, local)`. */
  function GetAttributeNS(d: Dom, n: Node, ns: Option<string>, local: string): Option<string> {
    LookupNs(AttrsOf(d, n), ns, local)
  }

  /** Splits a qualified name at its first colon into prefix and local name. */
  function SplitQualifiedName(q: string): (r: (Option<string>, string))
    ensures r.0.Some? ==> q == r.0.value + ":" + r.1 && ':' !in r.0.value
    ensures r.0.None? ==> r.1 == q && ':' !in q
  {
    var i := Position(q, ':');
    if i < |q| then
      assert q == q[..i] + ":" + q[i + 1..];
      (Some(q[..i]), q[i + 1..])
    else (None, q)
  }

  /** The namespace checks `setAttributeNS` makes before it changes anything. */
  predicate NamespaceRefused(ns: Option<string>, q: string) {
    var (prefix, _) := SplitQualifiedName(q);
    || (prefix.Some? && ns.None?)
    || (prefix == Some("xml") && ns != Some(XmlNs))
    || ((q == "xmlns" || prefix == Some("xmlns")) && ns != Some(XmlnsNs))
    || (ns == Some(XmlnsNs) && q != "xmlns" && prefix != Some("xmlns"))
  }

  /** No two attributes of a list share namespace and local name. */
  ghost predicate AttrsDistinct(list: seq<Attr>) {
    forall i, j :: 0 <= i < j < |list| ==> !(list[i].ns == list[j].ns && list[i].local == list[j].local)
  }

  /** The attribute list after setting (`ns`, `local`) to `v`: the value changes in place, or a new entry is appended. */
  function UpdateAttrs(list: seq<Attr>, ns: Option<string>, prefix: Option<string>, local: string, v: string): (r: seq<Attr>)
    ensures LookupNs(r, ns, local) == Some(v)
    ensures forall ns2, l2 :: !(ns2 == ns && l2 == local) ==> LookupNs(r, ns2, l2) == LookupNs(list, ns2, l2)
    ensures AttrsDistinct(list) ==> AttrsDistinct(r)
  {
    var i := IndexByNs(list, ns, local);
    var r := if i < |list| then list[i := list[i].(value := v)] else list + [Attr(ns, prefix, local, v)];
    assert forall j :: 0 <= j < i ==> r[j] == list[j];
    IndexByNsExact(r, ns, local, i);
    forall ns2, l2 | !(ns2 == ns && l2 == local) ensures LookupNs(r, ns2, l2) == LookupNs(list, ns2, l2) {
      IndexByNsOfUpdate(list, r, i, ns2, l2);
    }
    r
  }

  /**
   * `setAttributeNS(ns, q, v)`: updates the value of the attribute with namespace `ns`
   * and the local name of `q` (its prefix stays), or appends a new one.
   */
  function SetAttributeNS(d: Dom, n: Node, ns: Option<string>, q: string, v: string): (r: Result<Dom, DomError>)
    requires n in d.attrs
    ensures r.Failure? <==> NamespaceRefused(ns, q)
    ensures r.Failure? ==> r.error == NamespaceError
    ensures r.Success? ==> r.value == d.(attrs := d.attrs[n := UpdateAttrs(d.attrs[n], ns, SplitQualifiedName(q).0, SplitQualifiedName(q).1, v)])
  {
    if NamespaceRefused(ns, q) then Failure(NamespaceError)
    else
      var (prefix, local) := SplitQualifiedName(q);
      Success(d.(attrs := d.attrs[n := UpdateAttrs(d.attrs[n], ns, prefix, local, v)]))
  }

  /** Changing or appending an entry that does not match (`ns2`, `l2`) leaves that search's answer alone. */
  lemma IndexByNsOfUpdate(list: seq<Attr>, list2: seq<Attr>, i: nat, ns2: Option<string>, l2: string)
    requires i <= |list| && |list2| == if i < |list| then |list| else |list| + 1
    requires forall j :: 0 <= j < |list| && j != i ==> list2[j] == list[j]
    requires !(list2[i].ns == ns2 && list2[i].local == l2)
    requires i < |list| ==> !(list[i].ns == ns2 && list[i].local == l2)
    ensures var k := IndexByNs(list, ns2, l2);
            (k < |list| ==> IndexByNs(list2, ns2, l2) == k && list2[k] == list[k])
            && (k == |list| ==> IndexByNs(list2, ns2, l2) == |list2|)
  {
    var k := IndexByNs(list, ns2, l2);
    forall j | 0 <= j < k && j < |list2| ensures !(list2[j].ns == ns2 && list2[j].local == l2) {
      if j != i { assert list2[j] == list[j]; }
    }
    if k < |list| {
      assert k != i && list2[k] == list[k];
      IndexByNsExact(list2, ns2, l2, k);
    } else {
      forall j | 0 <= j < |list2| ensures !(list2[j].ns == ns2 && list2[j].local == l2) {
        if j != i { assert list2[j] == list[j]; }
      }
      IndexByNsNone(list2, ns2, l2);
    }
  }

  /** The search answers the list's length when nothing matches. */
  lemma IndexByNsNone(list: seq<Attr>, ns: Option<string>, local: string)
    requires forall j :: 0 <= j < |list| ==> !(list[j].ns == ns && list[j].local == local)
    ensures IndexByNs(list, ns, local) == |list|
  {
  }

  /** The search answers `i` when `i` is the first matching index. */
  lemma IndexByNsExact(list: seq<Attr>, ns: Option<string>, local: string, i: nat)
    requires i < |list| && list[i].ns == ns && list[i].local == local
    requires forall j :: 0 <= j < i ==> !(list[j].ns == ns && list[j].local == local)
    ensures IndexByNs(list, ns, local) == i
  {
  }

  /** The attribute list without the first entry for (`ns`, `local`), if there is one. */
  function RemoveFromAttrs(list: seq<Attr>, ns: Option<string>, local: string): (r: seq<Attr>)
    ensures AttrsDistinct(list) ==> LookupNs(r, ns, local).None? && AttrsDistinct(r)
  {
    var i := IndexByNs(list, ns, local);
    if i < |list| then
      var r := list[..i] + list[i + 1..];
      assert AttrsDistinct(list) ==> IndexByNs(r, ns, local) == |r| by {
        if AttrsDistinct(list) {
          forall j | 0 <= j < |r| ensures !(r[j].ns == ns && r[j].local == local) {
            if j < i { assert r[j] == list[j]; } else { assert r[j] == list[j + 1]; }
          }
          IndexByNsNone(r, ns, local);
        }
      }
      r
    else list
  }

  /** `removeAttributeNS(ns, local)`: drops the matching attribute, if any; nothing else changes. */
  function RemoveAttributeNS(d: Dom, n: Node, ns: Option<string>, local: string): (r: Dom)
    requires n in d.attrs
    ensures n in r.attrs && r == d.(attrs := d.attrs[n := r.attrs[n]])
    ensures AttrsDistinct(d.attrs[n]) ==> GetAttributeNS(r, n, ns, local).None? && AttrsDistinct(r.attrs[n])
  {
    d.(attrs := d.attrs[n := RemoveFromAttrs(d.attrs[n], ns, local)])
  }

  // ---------------------------------------------------------------------------
  // Selectors and querySelectorAll

  /** The selectors the host understands: simple selectors and compounds of them. */
  datatype Selector =
    | Universal
    | Type(tag: string)
    | Class(name: string)
    | Id(id: string)
    | HasAttr(attr: string)
    | AttrEquals(attr: string, value: string)
    | Compound(left: Selector, right: Selector)

  /** ASCII white space, which separates the classes of a `class` attribute: tab, line feed, form feed, carriage return, space. */
  predicate IsAsciiWhitespace(ch: char) {
    ch == '\t' || ch == '\n' || ch == '\U{000C}' || ch == '\r' || ch == ' '
  }

  /** The position of the first ASCII white-space character of `s`, or `|s|` when there is none. */
  function FirstWhitespace(s: string): (i: nat)
    ensures i <= |s| && (i < |s| ==> IsAsciiWhitespace(s[i]))
    ensures forall j :: 0 <= j < i ==> !IsAsciiWhitespace(s[j])
  {
    if s == [] || IsAsciiWhitespace(s[0]) then 0 else 1 + FirstWhitespace(s[1..])
  }

  /** The `class` attribute cut at every ASCII white-space character; a run of white space leaves empty pieces. */
  function ClassTokens(s: string): (r: seq<string>)
    ensures |r| >= 1
    ensures forall k, ch :: 0 <= k < |r| && ch in r[k] ==> !IsAsciiWhitespace(ch)
    decreases |s|
  {
    var i := FirstWhitespace(s);
    if i == |s| then [s] else [s[..i]] + ClassTokens(s[i + 1..])
  }

  /** When spaces are its only white space, the classes are the pieces of a split at `' '`. */
  lemma {:induction false} ClassTokensSpaced(s: string)
    requires forall ch :: ch in s && IsAsciiWhitespace(ch) ==> ch == ' '
    ensures ClassTokens(s) == Split(s, ' ')
    decreases |s|
  {
    var i := FirstWhitespace(s);
    if i < |s| {
      assert s[i] in s;
      PositionIs(s, ' ', i);
      assert forall ch :: ch in s[i + 1..] ==> ch in s;
      ClassTokensSpaced(s[i + 1..]);
    } else {
      assert ' ' !in s;
    }
  }

  /** A tab separates classes as a space does: `class="a\tb"` holds the classes `a` and `b`. */
  lemma TabSeparates()
    ensures ClassTokens("a\tb") == ["a", "b"]
  {
    assert FirstWhitespace("a\tb") == 1;
    assert "a\tb"[..1] == "a" && "a\tb"[2..] == "b";
    assert FirstWhitespace("b") == 1;
    assert ClassTokens("b") == ["b"];
  }

  /** Whether element `m` satisfies `sel`; attributes are looked up in no namespace. */
  predicate Matches(d: Dom, sel: Selector, m: Node) {
    IsElement(d, m) &&
    match sel
    case Universal => true
    case Type(t) => d.kind[m].tag == t
    case Class(c) =>
      var cls := GetAttributeNS(d, m, None, "class");
      c != "" && cls.Some? && c in ClassTokens(cls.value)
    case Id(i) => GetAttributeNS(d, m, None, "id") == Some(i)
    case HasAttr(a) => GetAttributeNS(d, m, None, a).Some?
    case AttrEquals(a, v) => GetAttributeNS(d, m, None, a) == Some(v)
    case Compound(l, r) => Matches(d, l, m) && Matches(d, r, m)
  }

  /** The characters that open the next simple selector of a compound one. */
  predicate Opens(c: char) {
    c == '.' || c == '#' || c == '['
  }

  /** The length of the name at the start of `s`: everything before the next `.`, `#` or `[`. */
  function NameLength(s: string): (k: nat)
    ensures k <= |s| && (forall i :: 0 <= i < k ==> !Opens(s[i])) && (k < |s| ==> Opens(s[k]))
  {
    if s == [] || Opens(s[0]) then 0 else 1 + NameLength(s[1..])
  }

  /** `l` narrowed by `r`; a universal left part adds nothing. */
  function Both(l: Selector, r: Selector): Selector {
    if l == Universal then r else Compound(l, r)
  }

  /** `v` without one pair of enclosing quotes. */
  function Unquote(v: string): string {
    if |v| >= 2 && (v[0] == '"' || v[0] == '\'') && v[|v| - 1] == v[0] then v[1..|v| - 1] else v
  }

  /** The inside of `[...]`: `name` or `name=value`. */
  function AttrSelector(inner: string): Selector {
    var eq := Position(inner, '=');
    if eq == |inner| then HasAttr(inner) else AttrEquals(inner[..eq], Unquote(inner[eq + 1..]))
  }

  /**
   * Reads a selector string the way the host does for one compound selector: a tag name
   * or `*` (or nothing), then any number of `.class`, `#id`, `[name]` and `[name=value]`.
   */
  function ParseSelector(s: string): Selector {
    var k := NameLength(s);
    var head := s[..k];
    ParseRest(if head == "" || head == "*" then Universal else Type(head), s[k..])
  }

  /** The simple selectors of `s`, which starts with `.`, `#` or `[` when it is not empty, added to `acc`. */
  function ParseRest(acc: Selector, s: string): Selector
    decreases |s|
  {
    if s == [] then acc
    else if s[0] == '[' then
      var close := Position(s, ']');
      if close == |s| then Both(acc, AttrSelector(s[1..]))
      else ParseRest(Both(acc, AttrSelector(s[1..close])), s[close + 1..])
    else
      var k := NameLength(s[1..]);
      var name := s[1..k + 1];
      ParseRest(Both(acc, if s[0] == '.' then Class(name) else Id(name)), s[k + 1..])
  }

  /** A name holding none of the characters that open a simple selector. */
  predicate PlainSelectorName(t: string) {
    forall i :: 0 <= i < |t| ==> !Opens(t[i])
  }

  /** `tag.class` reads as the tag narrowed by the class (`Pablo('g.map')`). */
  lemma ParseTagClass(t: string, c: string)
    requires t != "" && t != "*" && PlainSelectorName(t) && PlainSelectorName(c)
    ensures ParseSelector(t + "." + c) == Compound(Type(t), Class(c))
  {
    var rest := "." + c;
    var s := t + rest;
    assert t + "." + c == s;
    NameLengthOfPlain(t, rest);
    assert s[..|t|] == t && s[|t|..] == rest;
    assert ParseSelector(s) == ParseRest(Type(t), rest);
    ParseClassLast(Type(t), c);
  }

  /** A last `.class` narrows what precedes it. */
  lemma ParseClassLast(acc: Selector, c: string)
    requires PlainSelectorName(c)
    ensures ParseRest(acc, "." + c) == Both(acc, Class(c))
  {
    var rest := "." + c;
    assert rest[1..] == c;
    NameLengthOfPlain(c, "");
    assert c + "" == c;
    assert rest[1..|c| + 1] == c;
    assert rest[|c| + 1..] == [];
  }

  /** `#id.class` reads as the id narrowed by the class. */
  lemma ParseIdClass(i: string, c: string)
    requires PlainSelectorName(i) && PlainSelectorName(c)
    ensures ParseSelector("#" + i + "." + c) == Compound(Id(i), Class(c))
  {
    var rest := "." + c;
    assert "#" + i + "." + c == "#" + i + rest;
    ParseOpened("#" + i + rest);
    ParseIdFirst(i, rest);
    ParseClassLast(Id(i), c);
  }

  /** A selector that starts with `.`, `#` or `[` has no type part. */
  lemma ParseOpened(s: string)
    requires s != [] && Opens(s[0])
    ensures ParseSelector(s) == ParseRest(Universal, s)
  {
    assert NameLength(s) == 0;
    assert s[..0] == "" && s[0..] == s;
  }

  /** A leading `#id` becomes the first simple selector. */
  lemma ParseIdFirst(i: string, rest: string)
    requires PlainSelectorName(i) && rest != [] && Opens(rest[0])
    ensures ParseRest(Universal, "#" + i + rest) == ParseRest(Id(i), rest)
  {
    var s := "#" + i + rest;
    NameLengthOfPlain(i, rest);
    assert s[1..] == i + rest;
    assert s[1..|i| + 1] == i;
    assert s[|i| + 1..] == rest;
  }

  /** `[name=value]` reads as an attribute test. */
  lemma ParseAttrEquals(a: string, v: string)
    requires PlainSelectorName(a) && '=' !in a && ']' !in a && ']' !in v && |v| > 0 && v[0] != '"' && v[0] != '\''
    ensures ParseSelector("[" + a + "=" + v + "]") == AttrEquals(a, v)
  {
    var inner := a + "=" + v;
    var s := "[" + inner + "]";
    assert "[" + a + "=" + v + "]" == s;
    assert NameLength(s) == 0;
    assert s[..0] == "" && s[0..] == s;
    assert ParseSelector(s) == ParseRest(Universal, s);
    ParseAttrLast(Universal, inner);
    EqualsAt(a, v);
  }

  /** A last `[...]` narrows what precedes it. */
  lemma ParseAttrLast(acc: Selector, inner: string)
    requires ']' !in inner
    ensures ParseRest(acc, "[" + inner + "]") == Both(acc, AttrSelector(inner))
  {
    var s := "[" + inner + "]";
    var close := |inner| + 1;
    ClosingAt(inner);
    assert s[1..close] == inner && s[close + 1..] == [];
  }

  lemma ClosingAt(inner: string)
    requires ']' !in inner
    ensures Position("[" + inner + "]", ']') == |inner| + 1
  {
    var s := "[" + inner + "]";
    forall j | 0 <= j < |inner| + 1 ensures s[j] != ']' {
      if j > 0 { assert s[j] == inner[j - 1]; }
    }
    PositionIs(s, ']', |inner| + 1);
  }

  lemma EqualsAt(a: string, v: string)
    requires '=' !in a && |v| > 0 && v[0] != '"' && v[0] != '\''
    ensures AttrSelector(a + "=" + v) == AttrEquals(a, v)
  {
    var inner := a + "=" + v;
    forall j | 0 <= j < |a| ensures inner[j] != '=' {
      assert inner[j] == a[j];
    }
    PositionIs(inner, '=', |a|);
    assert inner[..|a|] == a && inner[|a| + 1..] == v;
  }

  /** A plain name is read whole, up to what follows it. */
  lemma NameLengthOfPlain(t: string, rest: string)
    requires PlainSelectorName(t) && (rest == [] || Opens(rest[0]))
    ensures NameLength(t + rest) == |t|
    decreases |t|
  {
    if t != [] {
      assert (t + rest)[1..] == t[1..] + rest;
      NameLengthOfPlain(t[1..], rest);
    }
  }

  /** The proper descendants of `n`, in document order. */
  function Descendants(d: Dom, n: Node): seq<Node>
    requires Valid(d) && n in d.kind
    decreases Below(d, n), 1, 0
  {
    ChildTrees(d, n, d.childNodes[n])
  }

  /** Each node of `cs` (children of `p`) followed by its descendants. */
  function ChildTrees(d: Dom, p: Node, cs: seq<Node>): seq<Node>
    requires Valid(d) && p in d.kind
    requires forall c :: c in cs ==> c in d.childNodes[p]
    decreases Below(d, p), 0, |cs|
  {
    if cs == [] then []
    else
      BelowShrinks(d, p, cs[0]);
      [cs[0]] + Descendants(d, cs[0]) + ChildTrees(d, p, cs[1..])
  }

  /** An ancestor's ancestors are ancestors. */
  lemma AncSetTransitive(parent: map<Node, Node>, m: Node, a: Node)
    requires Rooted(parent, m) && a in AncSet(parent, m)
    ensures Rooted(parent, a) && AncSet(parent, a) <= AncSet(parent, m)
    decreases Depth(parent, m)
  {
    DepthOfParent(parent, m);
    if a != parent[m] {
      AncSetTransitive(parent, parent[m], a);
    }
  }

  lemma {:induction false} DescendantsSound(d: Dom, n: Node, m: Node)
    requires Valid(d) && n in d.kind && m in Descendants(d, n)
    ensures m in d.kind && n in AncSet(d.parent, m)
    decreases Below(d, n), 1, 0
  {
    ChildTreesSound(d, n, d.childNodes[n], m);
  }

  lemma {:induction false} ChildTreesSound(d: Dom, p: Node, cs: seq<Node>, m: Node)
    requires Valid(d) && p in d.kind
    requires forall c :: c in cs ==> c in d.childNodes[p]
    requires m in ChildTrees(d, p, cs)
    ensures m in d.kind && p in AncSet(d.parent, m)
    decreases Below(d, p), 0, |cs|
  {
    var c := cs[0];
    BelowShrinks(d, p, c);
    assert d.parent[c] == p;
    if m == c {
    } else if m in Descendants(d, c) {
      DescendantsSound(d, c, m);
      AncSetTransitive(d.parent, m, c);
    } else {
      ChildTreesSound(d, p, cs[1..], m);
    }
  }

  /** The child of `n` on the way down to its descendant `m`. */
  lemma ChildToward(d: Dom, n: Node, m: Node) returns (c: Node)
    requires Valid(d) && m in d.kind && n in AncSet(d.parent, m)
    ensures n in d.childNodes && c in d.childNodes[n] && (c == m || (c in d.kind && c in AncSet(d.parent, m)))
    decreases Depth(d.parent, m)
  {
    DepthOfParent(d.parent, m);
    var q := d.parent[m];
    if q == n {
      c := m;
    } else {
      c := ChildToward(d, n, q);
      AncSetTransitive(d.parent, m, q);
    }
  }

  lemma {:induction false} ChildTreesCover(d: Dom, p: Node, cs: seq<Node>, c: Node, m: Node)
    requires Valid(d) && p in d.kind
    requires forall x :: x in cs ==> x in d.childNodes[p]
    requires c in cs
    requires c == m || (BelowShrinks(d, p, c); m in Descendants(d, c))
    ensures m in ChildTrees(d, p, cs)
    decreases |cs|
  {
    BelowShrinks(d, p, cs[0]);
    if cs[0] != c {
      ChildTreesCover(d, p, cs[1..], c, m);
    }
  }

  lemma {:induction false} DescendantsComplete(d: Dom, n: Node, m: Node)
    requires Valid(d) && n in d.kind && m in d.kind && n in AncSet(d.parent, m)
    ensures m in Descendants(d, n)
    decreases Below(d, n)
  {
    var c := ChildToward(d, n, m);
    BelowShrinks(d, n, c);
    if c != m {
      DescendantsComplete(d, c, m);
    }
    ChildTreesCover(d, n, d.childNodes[n], c, m);
  }

  /** A node lies below `n` exactly when `n` is one of its ancestors. */
  lemma DescendantsExactly(d: Dom, n: Node, m: Node)
    requires Valid(d) && n in d.kind
    ensures m in Descendants(d, n) <==> m in d.kind && n in AncSet(d.parent, m)
  {
    if m in Descendants(d, n) {
      DescendantsSound(d, n, m);
    }
    if m in d.kind && n in AncSet(d.parent, m) {
      DescendantsComplete(d, n, m);
    }
  }

  /** `n.querySelectorAll(sel)`: the descendant elements of `n` that match, in document order. */
  function QuerySelectorAll(d: Dom, n: Node, sel: Selector): (r: seq<Node>)
    requires Valid(d) && n in d.kind
  {
    Filter(Descendants(d, n), m => Matches(d, sel, m))
  }

  /** What `querySelectorAll` finds: exactly the matching elements that `n` is an ancestor of. */
  lemma QuerySelectorAllExactly(d: Dom, n: Node, sel: Selector, m: Node)
    requires Valid(d) && n in d.kind
    ensures m in QuerySelectorAll(d, n, sel) <==> m in d.kind && n in AncSet(d.parent, m) && Matches(d, sel, m)
  {
    DescendantsExactly(d, n, m);
  }
}
