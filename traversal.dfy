/**
 * Traversal: `relations` (one host property followed once, repeatedly, or while a test
 * holds), the shortcuts built on it, `find`, and the selector matching behind
 * `some`/`every`/`select` with a selector string.
 */
module Traversal {
  import opened Wrappers
  import opened Seqs
  import opened Dom
  import opened Collections

  /** The host properties `relations` follows. */
  datatype Relation =
    | Children  // childNodes
    | First     // firstChild
    | Last      // lastChild
    | Previous  // previousElementSibling
    | Next      // nextElementSibling
    | Viewport  // viewportElement
    | Owner     // ownerSVGElement
    | Parent    // parentNode

  /** The `doWhile` argument: falsy (one step), `true` (repeat), or a test function. */
  datatype Continuation = Once | Repeat | While(test: (Dom, Item) -> bool)

  /** `isElement` and `isSVGElement` as `doWhile` tests. */
  const IsElementTest: (Dom, Item) -> bool := (d: Dom, x: Item) => x.Ref? && IsElement(d, x.node)
  const IsSvgElementTest: (Dom, Item) -> bool := (d: Dom, x: Item) => x.Ref? && IsSvgElement(d, x.node)

  function OptRef(o: Option<Node>): Item {
    match o
    case Some(n) => Ref(n)
    case None => Undefined
  }

  /** `x[prop]`: the property of a node; anything else (a node list, `undefined`) has none. */
  function Step(d: Dom, rel: Relation, x: Item): (r: Item)
    requires x.Ref? ==> Rooted(d.parent, x.node)
    ensures r.Ref? || r.Undefined? || (r.List? && x.Ref? && rel.Children?)
    ensures !x.Ref? ==> r.Undefined?
  {
    match x
    case Ref(n) =>
      (match rel
       case Children => List(RefItems(ChildrenOf(d, n)))
       case First => OptRef(FirstChild(d, n))
       case Last => OptRef(LastChild(d, n))
       case Previous => OptRef(PreviousElementSibling(d, n))
       case Next => OptRef(NextElementSibling(d, n))
       case Viewport => OptRef(ViewportElement(d, n))
       case Owner => OptRef(OwnerSvgElement(d, n))
       case Parent => OptRef(ParentNode(d, n)))
    case _ => Undefined
  }

  lemma ChildrenKnown(d: Dom, p: Node)
    requires Valid(d) && p in d.kind
    ensures forall c :: c in d.childNodes[p] ==> c in d.kind && c in d.parent && d.parent[c] == p
  {
  }

  lemma SiblingsKnown(d: Dom, n: Node)
    requires Valid(d) && n in d.kind
    ensures forall m :: m in Siblings(d, n) ==> m in d.kind && m in d.parent && d.parent[m] == d.parent[n]
    ensures n in d.parent ==> Siblings(d, n) == d.childNodes[d.parent[n]] && n in Siblings(d, n)
    ensures NoDups(Siblings(d, n))
  {
    if n in d.parent {
      ChildrenKnown(d, d.parent[n]);
    }
  }

  /** A step stays inside the tree and never yields a string. */
  lemma StepInDom(d: Dom, rel: Relation, x: Item)
    requires Valid(d) && ItemIn(d, x)
    ensures ItemIn(d, Step(d, rel, x)) && NoStrings(Step(d, rel, x))
  {
    if x.Ref? {
      var n := x.node;
      match rel
      case Children =>
        ChildrenKnown(d, n);
        RefItemsRefs(d, d.childNodes[n]);
      case First =>
        ChildrenKnown(d, n);
      case Last =>
        ChildrenKnown(d, n);
      case Previous =>
        SiblingsKnown(d, n);
      case Next =>
        SiblingsKnown(d, n);
      case _ =>
        AncestorsKnown(d, n);
    }
  }

  /** What decreases along a walk: the depth, the nodes outside the ancestors, the sibling index. */
  ghost function Rank(d: Dom, rel: Relation, x: Item): nat
    requires Valid(d) && ItemIn(d, x)
  {
    match x
    case Ref(n) =>
      assert Rooted(d.parent, n);
      2 + (match rel
           case Children => 0
           case First => |Below(d, n)|
           case Last => |Below(d, n)|
           case Previous => Position(Siblings(d, n), n)
           case Next => |Siblings(d, n)| - Position(Siblings(d, n), n)
           case _ => Depth(d.parent, n))
    case List(_) => 1
    case _ => 0
  }

  lemma {:induction false} SubsetNotLarger<T>(a: set<T>, b: set<T>)
    requires a <= b
    ensures |a| <= |b|
    decreases |a|
  {
    if a != {} {
      var x :| x in a;
      SubsetNotLarger(a - {x}, b - {x});
    }
  }

  lemma StrictSubsetSmaller<T>(a: set<T>, b: set<T>)
    requires a < b
    ensures |a| < |b|
  {
    var x :| x in b && x !in a;
    SubsetNotLarger(a, b - {x});
  }

  /** Going down to a child shrinks the nodes outside the ancestors. */
  lemma ChildRank(d: Dom, rel: Relation, n: Node, c: Node)
    requires Valid(d) && n in d.kind && c in d.childNodes[n] && (rel.First? || rel.Last?)
    ensures c in d.kind && Rank(d, rel, Ref(c)) < Rank(d, rel, Ref(n))
  {
    BelowShrinks(d, n, c);
    StrictSubsetSmaller(Below(d, c), Below(d, n));
  }

  /** Going up to an ancestor lowers the depth. */
  lemma AncestorRank(d: Dom, rel: Relation, n: Node, a: Node)
    requires Valid(d) && n in d.kind && (rel.Viewport? || rel.Owner? || rel.Parent?)
    requires Rooted(d.parent, n) && a in AncSet(d.parent, n)
    ensures a in d.kind && Rank(d, rel, Ref(a)) < Rank(d, rel, Ref(n))
  {
    AncestorsKnown(d, n);
  }

  lemma SiblingRank(d: Dom, n: Node, j: nat)
    requires Valid(d) && n in d.kind && j < |Siblings(d, n)|
    ensures Siblings(d, n)[j] in d.kind
    ensures Siblings(d, Siblings(d, n)[j]) == Siblings(d, n)
    ensures Position(Siblings(d, n), Siblings(d, n)[j]) == j
  {
    SiblingsKnown(d, n);
    var s := Siblings(d, n);
    SiblingsKnown(d, s[j]);
    PositionOfDistinct(s, j);
  }

  /** Every property followed leads strictly down the rank, so every walk ends. */
  lemma StepDecreases(d: Dom, rel: Relation, x: Item)
    requires Valid(d) && ItemIn(d, x) && Truthy(Step(d, rel, x))
    ensures ItemIn(d, Step(d, rel, x))
    ensures Rank(d, rel, Step(d, rel, x)) < Rank(d, rel, x)
  {
    StepInDom(d, rel, x);
    if rel.First? || rel.Last? {
      ChildStepRank(d, rel, x.node);
    } else if rel.Previous? || rel.Next? {
      SiblingStepRank(d, rel, x.node);
    } else if !rel.Children? {
      AncestorStepRank(d, rel, x.node);
    }
  }

  lemma ChildStepRank(d: Dom, rel: Relation, n: Node)
    requires Valid(d) && n in d.kind && (rel.First? || rel.Last?) && Truthy(Step(d, rel, Ref(n)))
    ensures ItemIn(d, Step(d, rel, Ref(n))) && Rank(d, rel, Step(d, rel, Ref(n))) < Rank(d, rel, Ref(n))
  {
    StepInDom(d, rel, Ref(n));
    var cs := d.childNodes[n];
    var c := if rel.First? then cs[0] else cs[|cs| - 1];
    assert Step(d, rel, Ref(n)) == Ref(c);
    ChildRank(d, rel, n, c);
  }

  lemma SiblingStepRank(d: Dom, rel: Relation, n: Node)
    requires Valid(d) && n in d.kind && (rel.Previous? || rel.Next?) && Truthy(Step(d, rel, Ref(n)))
    ensures ItemIn(d, Step(d, rel, Ref(n))) && Rank(d, rel, Step(d, rel, Ref(n))) < Rank(d, rel, Ref(n))
  {
    StepInDom(d, rel, Ref(n));
    var s := Siblings(d, n);
    var j := if rel.Previous? then LastElementBefore(d, s, Position(s, n)).value
             else FirstElementFrom(d, s, Position(s, n) + 1).value;
    assert Step(d, rel, Ref(n)) == Ref(s[j]);
    SiblingRank(d, n, j);
  }

  lemma AncestorStepRank(d: Dom, rel: Relation, n: Node)
    requires Valid(d) && n in d.kind && (rel.Viewport? || rel.Owner? || rel.Parent?) && Truthy(Step(d, rel, Ref(n)))
    ensures ItemIn(d, Step(d, rel, Ref(n))) && Rank(d, rel, Step(d, rel, Ref(n))) < Rank(d, rel, Ref(n))
  {
    StepInDom(d, rel, Ref(n));
    assert Rooted(d.parent, n);
    match rel
    case Viewport =>
      AncestorRank(d, rel, n, ViewportElement(d, n).value);
    case Owner =>
      AncestorRank(d, rel, n, OwnerSvgElement(d, n).value);
    case Parent =>
      assert d.parent[n] in AncSet(d.parent, n);
      AncestorRank(d, rel, n, d.parent[n]);
  }

  predicate Passes(d: Dom, cont: Continuation, x: Item) {
    match cont
    case While(test) => test(d, x)
    case _ => true
  }

  /**
   * The values one node contributes to `relations`, starting from `x = el[prop]`:
   * `x` while it is truthy and passes the test, then `x[prop]` unless one step was asked for.
   */
  function Walk(d: Dom, rel: Relation, cont: Continuation, x: Item): (r: seq<Item>)
    requires Valid(d) && ItemIn(d, x) && NoStrings(x)
    ensures forall i :: 0 <= i < |r| ==> ItemIn(d, r[i]) && NoStrings(r[i])
    decreases Rank(d, rel, x)
  {
    if !Truthy(x) || !Passes(d, cont, x) then []
    else if cont.Once? then [x]
    else
      var y := Step(d, rel, x);
      StepInDom(d, rel, x);
      if !Truthy(y) then [x]
      else
        StepDecreases(d, rel, x);
        [x] + Walk(d, rel, cont, y)
  }

  /** The values pushed for the first `i` nodes of `s`, in order. */
  function WalkPrefix(d: Dom, s: seq<Node>, i: nat, rel: Relation, cont: Continuation): seq<Item>
    requires Valid(d) && (forall n :: n in s ==> n in d.kind) && i <= |s|
  {
    if i == 0 then []
    else
      StepInDom(d, rel, Ref(s[i - 1]));
      WalkPrefix(d, s, i - 1, rel, cont) + Walk(d, rel, cont, Step(d, rel, Ref(s[i - 1])))
  }

  /** The values pushed for the nodes of `s`, in order. */
  function WalkAll(d: Dom, s: seq<Node>, rel: Relation, cont: Continuation): seq<Item>
    requires Valid(d) && forall n :: n in s ==> n in d.kind
  {
    WalkPrefix(d, s, |s|, rel, cont)
  }

  /** Every value pushed is a node, a node list or a collection of the document. */
  lemma {:induction false} WalkPrefixIn(d: Dom, s: seq<Node>, i: nat, rel: Relation, cont: Continuation)
    requires Valid(d) && (forall n :: n in s ==> n in d.kind) && i <= |s|
    ensures forall k :: 0 <= k < |WalkPrefix(d, s, i, rel, cont)| ==>
              ItemIn(d, WalkPrefix(d, s, i, rel, cont)[k]) && NoStrings(WalkPrefix(d, s, i, rel, cont)[k])
  {
    if i > 0 {
      WalkPrefixIn(d, s, i - 1, rel, cont);
      StepInDom(d, rel, Ref(s[i - 1]));
      var a := WalkPrefix(d, s, i - 1, rel, cont);
      var b := Walk(d, rel, cont, Step(d, rel, Ref(s[i - 1])));
      assert WalkPrefix(d, s, i, rel, cont) == a + b;
      forall k | 0 <= k < |a + b|
        ensures ItemIn(d, (a + b)[k]) && NoStrings((a + b)[k])
      {
        if k < |a| {
          assert (a + b)[k] == a[k];
        } else {
          assert (a + b)[k] == b[k - |a|];
        }
      }
    }
  }

  /** The values pushed for the first `i + 1` nodes of `s`: those for the first `i`, then the walk from `s[i]`. */
  lemma WalkPrefixStep(d: Dom, s: seq<Node>, i: nat, rel: Relation, cont: Continuation)
    requires Valid(d) && (forall n :: n in s ==> n in d.kind) && i < |s|
    ensures var x := Step(d, rel, Ref(s[i]));
            && ItemIn(d, x) && NoStrings(x) && (x.Ref? || x.List? || x.Undefined?)
            && WalkPrefix(d, s, i + 1, rel, cont) == WalkPrefix(d, s, i, rel, cont) + Walk(d, rel, cont, x)
  {
    StepInDom(d, rel, Ref(s[i]));
  }

  /** The collection `relations(prop, null, doWhile)` builds: every value pushed, deduplicated. */
  function Related(d: Dom, s: seq<Node>, rel: Relation, cont: Continuation): seq<Node>
    requires Valid(d) && forall n :: n in s ==> n in d.kind
  {
    AddNodes(d, [], RefsAll(d, WalkAll(d, s, rel, cont)))
  }

  /** The collection holds each node reached exactly once, and every one is an element or a document. */
  lemma RelatedNodes(d: Dom, s: seq<Node>, rel: Relation, cont: Continuation)
    requires Valid(d) && forall n :: n in s ==> n in d.kind
    ensures NoDups(Related(d, s, rel, cont))
    ensures forall y :: y in Related(d, s, rel, cont) <==> y in RefsAll(d, WalkAll(d, s, rel, cont))
    ensures forall y :: y in Related(d, s, rel, cont) ==> Addable(d, y)
  {
    var w := WalkAll(d, s, rel, cont);
    WalkPrefixIn(d, s, |s|, rel, cont);
    AddedAllIsAddNodes(d, [], w);
    AddedAllRefs(d, [], w);
    AddNodesMembers(d, [], RefsAll(d, w));
  }

  /** The value the walk moves on to: `doWhile ? el[prop] : null`. */
  function Follow(d: Dom, rel: Relation, cont: Continuation, x: Item): Item
    requires Valid(d) && ItemIn(d, x)
  {
    if cont.Once? then Undefined else Step(d, rel, x)
  }

  /** One turn of the walk: a value that is pushed is followed by the walk from the value it moves on to. */
  lemma WalkStep(d: Dom, rel: Relation, cont: Continuation, x: Item)
    requires Valid(d) && ItemIn(d, x) && NoStrings(x) && (x.Ref? || x.List?) && Passes(d, cont, x)
    ensures ItemIn(d, Follow(d, rel, cont, x)) && NoStrings(Follow(d, rel, cont, x))
    ensures Walk(d, rel, cont, x) == [x] + Walk(d, rel, cont, Follow(d, rel, cont, x))
  {
    FollowInDom(d, rel, cont, x);
    if cont.Once? {
      assert Walk(d, rel, cont, Undefined) == [];
    } else {
      var y := Step(d, rel, x);
      if Truthy(y) {
        StepDecreases(d, rel, x);
      } else {
        assert Walk(d, rel, cont, y) == [];
      }
    }
  }

  /** The value the walk moves on to stays inside the tree, holds no strings, and ranks lower. */
  lemma FollowInDom(d: Dom, rel: Relation, cont: Continuation, x: Item)
    requires Valid(d) && ItemIn(d, x) && NoStrings(x) && (x.Ref? || x.List?)
    ensures var y := Follow(d, rel, cont, x);
            && ItemIn(d, y) && NoStrings(y) && (y.Ref? || y.List? || y.Undefined?)
            && Rank(d, rel, y) < Rank(d, rel, x)
  {
    StepInDom(d, rel, x);
    if Truthy(Step(d, rel, x)) {
      StepDecreases(d, rel, x);
    }
  }

  /**
   * One turn of the inner loop of `relations`: after the values pushed so far and `x`, the
   * walk goes on from the value `x` leads to.
   */
  lemma WalkAdvance(d: Dom, rel: Relation, cont: Continuation, x0: Item, pushed: seq<Item>, x: Item)
    requires Valid(d) && ItemIn(d, x0) && NoStrings(x0) && ItemIn(d, x) && NoStrings(x)
    requires (x.Ref? || x.List?) && Passes(d, cont, x)
    requires Walk(d, rel, cont, x0) == pushed + Walk(d, rel, cont, x)
    ensures var y := Follow(d, rel, cont, x);
            && ItemIn(d, y) && NoStrings(y) && (y.Ref? || y.List? || y.Undefined?)
            && Rank(d, rel, y) < Rank(d, rel, x)
            && Walk(d, rel, cont, x0) == (pushed + [x]) + Walk(d, rel, cont, y)
  {
    FollowInDom(d, rel, cont, x);
    WalkStep(d, rel, cont, x);
    AppendAssoc(pushed, [x], Walk(d, rel, cont, Follow(d, rel, cont, x)));
  }

  /**
   * The inner loop of `relations`: pushes `x = el[prop]` into `c`, then its property in
   * turn while the continuation allows.
   */
  method PushWalk(d: Dom, c: Collection, rel: Relation, cont: Continuation, x0: Item, ghost before: seq<Item>)
    requires Valid(d) && ItemIn(d, x0) && NoStrings(x0) && (x0.Ref? || x0.List? || x0.Undefined?)
    requires c.nodes == AddNodes(d, [], RefsAll(d, before)) && c.WellFormed(d)
    modifies c
    ensures c.nodes == AddNodes(d, [], RefsAll(d, before + Walk(d, rel, cont, x0))) && c.WellFormed(d)
  {
    var x := x0;
    ghost var pushed: seq<Item> := [];
    assert before + pushed == before;
    while Truthy(x) && Passes(d, cont, x)
      invariant ItemIn(d, x) && NoStrings(x) && (x.Ref? || x.List? || x.Undefined?)
      invariant Walk(d, rel, cont, x0) == pushed + Walk(d, rel, cont, x)
      invariant c.nodes == AddNodes(d, [], RefsAll(d, before + pushed)) && c.WellFormed(d)
      decreases Rank(d, rel, x)
    {
      WalkAdvance(d, rel, cont, x0, pushed, x);
      PushedMore(d, before, pushed, x);
      var d' := c.Push(d, x);
      pushed := pushed + [x];
      x := Follow(d, rel, cont, x);
    }
    assert Walk(d, rel, cont, x) == [];
    assert Walk(d, rel, cont, x0) == pushed;
  }

  /** `PushedRefs` for the values pushed after `before`. */
  lemma PushedMore(d: Dom, before: seq<Item>, pushed: seq<Item>, x: Item)
    requires Valid(d) && ItemIn(d, x) && NoStrings(x)
    ensures Added(d, AddNodes(d, [], RefsAll(d, before + pushed)), x, false)
            == (d, AddNodes(d, [], RefsAll(d, before + (pushed + [x]))))
  {
    PushedRefs(d, before + pushed, x);
    AppendAssoc(before, pushed, [x]);
  }

  /** Pushing one more value without strings onto the collection of `items` gives the collection of `items + [x]`. */
  lemma PushedRefs(d: Dom, items: seq<Item>, x: Item)
    requires Valid(d) && ItemIn(d, x) && NoStrings(x)
    ensures Added(d, AddNodes(d, [], RefsAll(d, items)), x, false) == (d, AddNodes(d, [], RefsAll(d, items + [x])))
  {
    assert (items + [x])[..|items|] == items;
    AddNodesAppend(d, [], RefsAll(d, items), Refs(d, x));
    AddedIsAddNodes(d, AddNodes(d, [], RefsAll(d, items)), x);
  }

  /** `collection.select(selectors)` as `relations` applies it: the matching nodes, or the error raised. */
  function Selected(d: Dom, ns: seq<Node>, selectors: string): Result<seq<Node>, DomError> {
    var m := Judged(d, ns, ParseSelector(selectors), Keep, []);
    if m.Success? then Success(m.value.ns) else Failure(m.error)
  }

  /** The first half of `relations`: the walk from every node, pushed into a new collection. */
  method Gather(d: Dom, s: seq<Node>, rel: Relation, cont: Continuation) returns (related: seq<Node>)
    requires Valid(d) && forall n :: n in s ==> n in d.kind
    ensures related == Related(d, s, rel, cont)
  {
    var c := new Collection();
    var i := 0;
    while i < |s|
      invariant 0 <= i <= |s|
      invariant c.nodes == AddNodes(d, [], RefsAll(d, WalkPrefix(d, s, i, rel, cont))) && c.WellFormed(d)
    {
      PushFrom(d, c, s, i, rel, cont);
      i := i + 1;
    }
    related := c.nodes;
  }

  /** One turn of the outer loop of `relations`: the walk from `s[i]`, pushed into `c`. */
  method PushFrom(d: Dom, c: Collection, s: seq<Node>, i: nat, rel: Relation, cont: Continuation)
    requires Valid(d) && (forall n :: n in s ==> n in d.kind) && i < |s|
    requires c.nodes == AddNodes(d, [], RefsAll(d, WalkPrefix(d, s, i, rel, cont))) && c.WellFormed(d)
    modifies c
    ensures c.nodes == AddNodes(d, [], RefsAll(d, WalkPrefix(d, s, i + 1, rel, cont))) && c.WellFormed(d)
  {
    WalkPrefixStep(d, s, i, rel, cont);
    PushWalk(d, c, rel, cont, Step(d, rel, Ref(s[i])), WalkPrefix(d, s, i, rel, cont));
  }

  /**
   * `relations(prop, selectors, doWhile)`: for each node, pushes `el[prop]`, then its
   * property in turn while the continuation allows; with selectors, keeps the matching
   * nodes as `select(selectors)` does.
   */
  method Relations(d: Dom, s: seq<Node>, rel: Relation, cont: Continuation, selectors: string)
    returns (r: Result<seq<Node>, DomError>)
    requires Valid(d) && forall n :: n in s ==> n in d.kind
    ensures selectors == "" ==> r == Success(Related(d, s, rel, cont))
    ensures selectors != "" ==> r == Selected(d, Related(d, s, rel, cont), selectors)
  {
    var related := Gather(d, s, rel, cont);
    if selectors == "" {
      r := Success(related);
    } else {
      RelatedNodes(d, s, rel, cont);
      var m := MatchSelectors(d, related, selectors, Keep);
      r := if m.Success? then Success(m.value.ns) else Failure(m.error);
    }
  }

  /** The walk shortcuts: each method name with the property and continuation it uses. */
  function Shortcut(name: string): Option<(Relation, Continuation)> {
    if name == "children" then Some((Children, Once))
    else if name == "firstChild" then Some((First, Once))
    else if name == "lastChild" then Some((Last, Once))
    else if name == "prev" then Some((Previous, Once))
    else if name == "prevSiblings" then Some((Previous, Repeat))
    else if name == "next" then Some((Next, Once))
    else if name == "nextSiblings" then Some((Next, Repeat))
    else if name == "viewport" then Some((Viewport, Once))
    else if name == "viewports" then Some((Viewport, Repeat))
    else if name == "owner" then Some((Owner, Once))
    else if name == "owners" then Some((Owner, Repeat))
    else if name == "parent" then Some((Parent, Once))
    else if name == "parents" then Some((Parent, While(IsElementTest)))
    else if name == "parentsSvg" then Some((Parent, While(IsSvgElementTest)))
    else None
  }

  // ---------------------------------------------------------------------------
  // What the shortcuts reach

  lemma WalkAllSingle(d: Dom, n: Node, rel: Relation, cont: Continuation)
    requires Valid(d) && n in d.kind
    requires ItemIn(d, Step(d, rel, Ref(n))) && NoStrings(Step(d, rel, Ref(n)))
    ensures WalkAll(d, [n], rel, cont) == Walk(d, rel, cont, Step(d, rel, Ref(n)))
  {
    assert [n][0] == n;
    WalkPrefixStep(d, [n], 0, rel, cont);
    var w := Walk(d, rel, cont, Step(d, rel, Ref(n)));
    assert WalkPrefix(d, [n], 0, rel, cont) == [];
    AppendEmptyFront(w);
  }

  /** From a node that is not text, `parents` reaches the node and its ancestors that are elements. */
  lemma {:induction false} ParentWalk(d: Dom, m: Node)
    requires Valid(d) && m in d.kind && !d.kind[m].Text?
    ensures forall y :: y in RefsAll(d, Walk(d, Parent, While(IsElementTest), Ref(m)))
                     <==> IsElement(d, y) && (y == m || y in AncSet(d.parent, m))
    decreases Depth(d.parent, m)
  {
    var cont := While(IsElementTest);
    var w := Walk(d, Parent, cont, Ref(m));
    if !IsElement(d, m) {
      assert w == [];
      assert m !in d.parent;
    } else if m !in d.parent {
      assert w == [Ref(m)];
      assert RefsAll(d, w) == RefsAll(d, []) + Refs(d, Ref(m));
    } else {
      var p := d.parent[m];
      DepthOfParent(d.parent, m);
      StepInDom(d, Parent, Ref(m));
      assert Step(d, Parent, Ref(m)) == Ref(p);
      StepDecreases(d, Parent, Ref(m));
      var rest := Walk(d, Parent, cont, Ref(p));
      assert w == [Ref(m)] + rest;
      ParentWalk(d, p);
      RefsAllAppend(d, [Ref(m)], rest);
      assert RefsAll(d, [Ref(m)]) == RefsAll(d, []) + Refs(d, Ref(m));
      assert AncSet(d.parent, m) == {p} + AncSet(d.parent, p);
    }
  }

  /** The collection built for one node holds the nodes its walk reaches. */
  lemma RelatedSingle(d: Dom, n: Node, rel: Relation, cont: Continuation)
    requires Valid(d) && n in d.kind
    ensures ItemIn(d, Step(d, rel, Ref(n))) && NoStrings(Step(d, rel, Ref(n)))
    ensures forall y :: y in Related(d, [n], rel, cont) <==> y in RefsAll(d, Walk(d, rel, cont, Step(d, rel, Ref(n))))
  {
    RelatedNodes(d, [n], rel, cont);
    StepInDom(d, rel, Ref(n));
    WalkAllSingle(d, n, rel, cont);
  }

  lemma StepParent(d: Dom, n: Node)
    requires Valid(d) && n in d.kind
    ensures Step(d, Parent, Ref(n)) == OptRef(ParentNode(d, n))
  {
  }

  /** `parents()` of one node: exactly its ancestors that are elements (the document is left out). */
  lemma ParentsExactly(d: Dom, n: Node)
    requires Valid(d) && n in d.kind
    ensures forall y :: y in Related(d, [n], Parent, While(IsElementTest))
                     <==> IsElement(d, y) && y in AncSet(d.parent, n)
  {
    var cont := While(IsElementTest);
    StepParent(d, n);
    if n in d.parent {
      var p := d.parent[n];
      ParentWalk(d, p);
      assert AncSet(d.parent, n) == {p} + AncSet(d.parent, p);
    } else {
      assert Walk(d, Parent, cont, Undefined) == [];
      assert AncSet(d.parent, n) == {};
    }
    RelatedSingle(d, n, Parent, cont);
  }

  /** `parents()` of a node, as `matchSelectors` asks for it. */
  function Parents(d: Dom, n: Node): seq<Node>
    requires Valid(d) && n in d.kind
  {
    Related(d, [n], Parent, While(IsElementTest))
  }

  lemma ParentsMember(d: Dom, n: Node, y: Node)
    requires Valid(d) && n in d.kind
    ensures y in Parents(d, n) <==> IsElement(d, y) && y in AncSet(d.parent, n)
  {
    ParentsExactly(d, n);
  }

  /** The parent is an element. */
  predicate ElementParent(d: Dom, n: Node) {
    n in d.parent && IsElement(d, d.parent[n])
  }

  /** A node with an element ancestor has an element parent: only the document parents without a parent of its own. */
  lemma ElementAncestorGivesParent(d: Dom, n: Node, a: Node)
    requires Valid(d) && n in d.kind && a in AncSet(d.parent, n) && IsElement(d, a)
    ensures ElementParent(d, n)
  {
    var p := d.parent[n];
    if p != a {
      DepthOfParent(d.parent, n);
      assert a in AncSet(d.parent, p);
      assert p in d.parent;
    }
  }

  /** A node strictly below an element has an element parent. */
  lemma BelowElement(d: Dom, a: Node, m: Node)
    requires Valid(d) && m in d.kind && IsElement(d, a) && a in AncSet(d.parent, m)
    ensures ElementParent(d, m)
  {
    var p := d.parent[m];
    if p != a {
      DepthOfParent(d.parent, m);
      assert a in AncSet(d.parent, p);
      assert p in d.parent;
    }
  }

  /** `parents().last()` of a node: empty exactly when its parent is not an element, else an element ancestor. */
  lemma TopElementAncestor(d: Dom, n: Node)
    requires Valid(d) && n in d.kind
    ensures var top := Collections.Last(Parents(d, n));
            (top != [] <==> ElementParent(d, n))
            && (top != [] ==> |top| == 1 && IsElement(d, top[0]) && top[0] in AncSet(d.parent, n))
  {
    var ps := Parents(d, n);
    if ps != [] {
      TopIsElementAncestor(d, n, ps[|ps| - 1]);
    }
    if ElementParent(d, n) {
      assert d.parent[n] in AncSet(d.parent, n);
      ParentsMember(d, n, d.parent[n]);
    }
  }

  lemma TopIsElementAncestor(d: Dom, n: Node, t: Node)
    requires Valid(d) && n in d.kind && t in Parents(d, n)
    ensures IsElement(d, t) && t in AncSet(d.parent, n) && ElementParent(d, n)
  {
    ParentsMember(d, n, t);
    ElementAncestorGivesParent(d, n, t);
  }

  /**
   * `ns` climbs from `m` through SVG `svg` ancestors; the last one has no owner SVG element of
   * its own and occurs nowhere earlier.
   */
  ghost predicate OwnerChain(d: Dom, m: Node, ns: seq<Node>)
    requires Valid(d) && m in d.kind
  {
    && (forall y :: y in ns ==> y in AncSet(d.parent, m) && IsSvgElement(d, y) && d.kind[y].tag == "svg")
    && (ns != [] ==> ns[|ns| - 1] in ns && OwnerSvgElement(d, ns[|ns| - 1]).None? && ns[|ns| - 1] !in ns[..|ns| - 1])
  }

  /** The nodes a walk from `m` pushes, before duplicates are dropped. */
  function Reached(d: Dom, rel: Relation, cont: Continuation, m: Node): seq<Node>
    requires Valid(d) && m in d.kind
  {
    StepInDom(d, rel, Ref(m));
    RefsAll(d, Walk(d, rel, cont, Step(d, rel, Ref(m))))
  }

  /** `owners()` from a node: its owner SVG element, then that element's owners. */
  lemma OwnersStep(d: Dom, m: Node)
    requires Valid(d) && m in d.kind
    ensures var o := OwnerSvgElement(d, m);
            && (o.None? ==> Reached(d, Owner, Repeat, m) == [])
            && (o.Some? ==> o.value in d.kind && Reached(d, Owner, Repeat, m) == [o.value] + Reached(d, Owner, Repeat, o.value))
  {
    assert Rooted(d.parent, m);
    StepInDom(d, Owner, Ref(m));
    var o := OwnerSvgElement(d, m);
    assert Step(d, Owner, Ref(m)) == OptRef(o);
    if o.None? {
      assert Walk(d, Owner, Repeat, Undefined) == [];
    } else {
      AncestorsKnown(d, m);
      WalkCons(d, Owner, Repeat, o.value);
    }
  }

  /** A repeated walk through a node: the node, then the walk from its property. */
  lemma WalkCons(d: Dom, rel: Relation, cont: Continuation, p: Node)
    requires Valid(d) && p in d.kind && !cont.Once? && Passes(d, cont, Ref(p))
    ensures ItemIn(d, Step(d, rel, Ref(p))) && NoStrings(Step(d, rel, Ref(p)))
    ensures RefsAll(d, Walk(d, rel, cont, Ref(p))) == Refs(d, Ref(p)) + RefsAll(d, Walk(d, rel, cont, Step(d, rel, Ref(p))))
  {
    WalkStep(d, rel, cont, Ref(p));
    RefsCons(d, Ref(p), Walk(d, rel, cont, Follow(d, rel, cont, Ref(p))));
  }

  /** Putting `m`'s owner in front of the owner's chain gives a chain for `m`. */
  lemma OwnerChainCons(d: Dom, m: Node, p: Node, tail: seq<Node>)
    requires Valid(d) && m in d.kind && p in d.kind
    requires Rooted(d.parent, m) && OwnerSvgElement(d, m) == Some(p)
    requires OwnerChain(d, p, tail) && (tail == [] <==> OwnerSvgElement(d, p).None?)
    ensures OwnerChain(d, m, [p] + tail)
  {
    var ns := [p] + tail;
    OwnerMembersCons(d, m, p, tail);
    if tail != [] {
      var t := tail[|tail| - 1];
      AncestorsKnown(d, p);
      assert t != p;
      assert ns[|ns| - 1] == t;
      assert ns[..|ns| - 1] == [p] + tail[..|tail| - 1];
    }
  }

  lemma OwnerMembersCons(d: Dom, m: Node, p: Node, tail: seq<Node>)
    requires Valid(d) && m in d.kind && p in d.kind
    requires Rooted(d.parent, m) && OwnerSvgElement(d, m) == Some(p)
    requires forall y :: y in tail ==> y in AncSet(d.parent, p) && IsSvgElement(d, y) && d.kind[y].tag == "svg"
    ensures forall y :: y in [p] + tail ==> y in AncSet(d.parent, m) && IsSvgElement(d, y) && d.kind[y].tag == "svg"
  {
    AncestorTransitive(d.parent, m, p);
  }

  /**
   * `owners()` from a node: SVG `svg` ancestors only, none exactly when the node has no owner
   * SVG element, each later one above all earlier ones, and the last one outermost.
   */
  lemma {:induction false} OwnerWalk(d: Dom, m: Node)
    requires Valid(d) && m in d.kind
    ensures OwnerChain(d, m, Reached(d, Owner, Repeat, m))
    ensures Reached(d, Owner, Repeat, m) != [] <==> OwnerSvgElement(d, m).Some?
    decreases Depth(d.parent, m)
  {
    assert Rooted(d.parent, m);
    OwnersStep(d, m);
    var o := OwnerSvgElement(d, m);
    if o.Some? {
      OwnerWalk(d, o.value);
      OwnerChainCons(d, m, o.value, Reached(d, Owner, Repeat, o.value));
    }
  }

  /** `nextElementSibling` of an attached node, as an index among its siblings. */
  lemma NextValue(d: Dom, m: Node)
    requires Valid(d) && m in d.kind && m in d.parent
    ensures var s := Siblings(d, m);
            var f := FirstElementFrom(d, s, Position(s, m) + 1);
            && Position(s, m) < |s|
            && Step(d, Next, Ref(m)) == if f.Some? then Ref(s[f.value]) else Undefined
  {
    StepNext(d, m);
    SiblingsKnown(d, m);
    NextElementSiblingAt(d, m);
  }

  lemma NextElementSiblingAt(d: Dom, m: Node)
    requires m in Siblings(d, m)
    ensures var s := Siblings(d, m);
            var f := FirstElementFrom(d, s, Position(s, m) + 1);
            NextElementSibling(d, m) == if f.Some? then Some(s[f.value]) else None
  {
  }

  lemma StepNext(d: Dom, n: Node)
    requires Rooted(d.parent, n)
    ensures Step(d, Next, Ref(n)) == OptRef(NextElementSibling(d, n))
  {
  }

  /** A property that is null: a repeated walk pushes nothing. */
  lemma ReachedNone(d: Dom, rel: Relation, m: Node)
    requires Valid(d) && m in d.kind && Step(d, rel, Ref(m)) == Undefined
    ensures Reached(d, rel, Repeat, m) == []
  {
    assert Walk(d, rel, Repeat, Undefined) == [];
  }

  /** An element sibling at `j`: the sibling walk pushes it, then goes on from it. */
  lemma SiblingSome(d: Dom, rel: Relation, m: Node, j: nat)
    requires Valid(d) && m in d.kind && m in d.parent && (rel.Previous? || rel.Next?)
    requires j < |Siblings(d, m)| && Step(d, rel, Ref(m)) == Ref(Siblings(d, m)[j])
    ensures var s := Siblings(d, m);
            && s[j] in d.parent && Siblings(d, s[j]) == s && Position(s, s[j]) == j
            && Reached(d, rel, Repeat, m) == [s[j]] + Reached(d, rel, Repeat, s[j])
  {
    var s := Siblings(d, m);
    SiblingRank(d, m, j);
    SiblingsKnown(d, s[j]);
    ReachedStep(d, rel, m, s[j]);
  }

  /** Following `rel` on to `y` without stopping: `y`, then everything reached from `y`. */
  lemma ReachedStep(d: Dom, rel: Relation, m: Node, y: Node)
    requires Valid(d) && m in d.kind && y in d.kind && Step(d, rel, Ref(m)) == Ref(y) && Addable(d, y)
    ensures Reached(d, rel, Repeat, m) == [y] + Reached(d, rel, Repeat, y)
  {
    assert Reached(d, rel, Repeat, m) == RefsAll(d, Walk(d, rel, Repeat, Ref(y)));
    WalkCons(d, rel, Repeat, y);
    assert Refs(d, Ref(y)) == [y];
  }

  /** `nextSiblings()` from an attached node: exactly the elements after it among its siblings. */
  lemma {:induction false} NextWalk(d: Dom, m: Node)
    requires Valid(d) && m in d.kind && m in d.parent
    ensures var s := Siblings(d, m);
            Position(s, m) < |s| &&
            forall y :: y in Reached(d, Next, Repeat, m) <==> y in s[Position(s, m) + 1..] && IsElement(d, y)
    decreases |Siblings(d, m)| - Position(Siblings(d, m), m)
  {
    NextValue(d, m);
    var s := Siblings(d, m);
    var k := Position(s, m);
    match FirstElementFrom(d, s, k + 1)
    case None =>
      ReachedNone(d, Next, m);
    case Some(j) =>
      SiblingSome(d, Next, m, j);
      NextWalk(d, s[j]);
      forall y
        ensures y in Reached(d, Next, Repeat, m) <==> y in s[k + 1..] && IsElement(d, y)
      {
        SplitAfter(d, s, k, j, y);
      }
  }

  /** `previousElementSibling` of an attached node, as an index among its siblings. */
  lemma PreviousValue(d: Dom, m: Node)
    requires Valid(d) && m in d.kind && m in d.parent
    ensures var s := Siblings(d, m);
            var f := LastElementBefore(d, s, Position(s, m));
            && Position(s, m) < |s|
            && Step(d, Previous, Ref(m)) == if f.Some? then Ref(s[f.value]) else Undefined
  {
    StepPrevious(d, m);
    SiblingsKnown(d, m);
    PreviousElementSiblingAt(d, m);
  }

  lemma StepPrevious(d: Dom, n: Node)
    requires Rooted(d.parent, n)
    ensures Step(d, Previous, Ref(n)) == OptRef(PreviousElementSibling(d, n))
  {
  }

  lemma PreviousElementSiblingAt(d: Dom, m: Node)
    requires m in Siblings(d, m)
    ensures var s := Siblings(d, m);
            var f := LastElementBefore(d, s, Position(s, m));
            PreviousElementSibling(d, m) == if f.Some? then Some(s[f.value]) else None
  {
  }

  /** `prevSiblings()` from an attached node: exactly the elements before it among its siblings. */
  lemma {:induction false} PreviousWalk(d: Dom, m: Node)
    requires Valid(d) && m in d.kind && m in d.parent
    ensures var s := Siblings(d, m);
            Position(s, m) < |s| &&
            forall y :: y in Reached(d, Previous, Repeat, m) <==> y in s[..Position(s, m)] && IsElement(d, y)
    decreases Position(Siblings(d, m), m)
  {
    PreviousValue(d, m);
    var s := Siblings(d, m);
    var k := Position(s, m);
    match LastElementBefore(d, s, k)
    case None =>
      ReachedNone(d, Previous, m);
    case Some(j) =>
      SiblingSome(d, Previous, m, j);
      PreviousWalk(d, s[j]);
      forall y
        ensures y in Reached(d, Previous, Repeat, m) <==> y in s[..k] && IsElement(d, y)
      {
        SplitBefore(d, s, k, j, y);
      }
  }

  /** With no element strictly between `j` and `k`, the elements before `k` are `s[j]` and those before `j`. */
  lemma SplitBefore(d: Dom, s: seq<Node>, k: nat, j: nat, y: Node)
    requires j < k <= |s| && forall i :: j < i < k ==> !IsElement(d, s[i])
    requires IsElement(d, s[j])
    ensures y in s[..k] && IsElement(d, y) <==> y == s[j] || (y in s[..j] && IsElement(d, y))
  {
    if y in s[..k] && IsElement(d, y) {
      var i :| 0 <= i < k && s[i] == y;
      if i < j {
        assert s[..j][i] == y;
      }
    }
    if y in s[..j] {
      var i :| 0 <= i < j && s[i] == y;
      assert s[..k][i] == y;
    }
    assert s[..k][j] == s[j];
  }

  /** With no element strictly between `k` and `j`, the elements after `k` are `s[j]` and those after `j`. */
  lemma SplitAfter(d: Dom, s: seq<Node>, k: nat, j: nat, y: Node)
    requires k < j < |s| && forall i :: k + 1 <= i < j ==> !IsElement(d, s[i])
    requires IsElement(d, s[j])
    ensures y in s[k + 1..] && IsElement(d, y) <==> y == s[j] || (y in s[j + 1..] && IsElement(d, y))
  {
    if y in s[k + 1..] && IsElement(d, y) {
      var i :| k + 1 <= i < |s| && s[i] == y;
      if i > j {
        assert s[j + 1..][i - j - 1] == y;
      }
    }
    if y in s[j + 1..] {
      var i :| j + 1 <= i < |s| && s[i] == y;
      assert s[k + 1..][i - k - 1] == y;
    }
    assert s[k + 1..][j - k - 1] == s[j];
  }

  /** `siblings()` of one node, without selectors: exactly its element siblings, the node itself left out. */
  lemma SiblingsSingle(d: Dom, n: Node)
    requires Valid(d) && n in d.kind
    ensures forall y :: y in AddNodes(d, Related(d, [n], Previous, Repeat), Related(d, [n], Next, Repeat))
                     <==> n in d.parent && y in Siblings(d, n) && y != n && IsElement(d, y)
  {
    RelatedSingle(d, n, Previous, Repeat);
    RelatedSingle(d, n, Next, Repeat);
    assert Reached(d, Previous, Repeat, n) == RefsAll(d, Walk(d, Previous, Repeat, Step(d, Previous, Ref(n))));
    assert Reached(d, Next, Repeat, n) == RefsAll(d, Walk(d, Next, Repeat, Step(d, Next, Ref(n))));
    AddNodesMembers(d, Related(d, [n], Previous, Repeat), Related(d, [n], Next, Repeat));
    if n in d.parent {
      SiblingsKnown(d, n);
      PreviousWalk(d, n);
      NextWalk(d, n);
      var s := Siblings(d, n);
      forall y
        ensures y in s[..Position(s, n)] || y in s[Position(s, n) + 1..] <==> y in s && y != n
      {
        AroundPosition(s, Position(s, n), y);
      }
    } else {
      StepPrevious(d, n);
      StepNext(d, n);
      ReachedNone(d, Previous, n);
      ReachedNone(d, Next, n);
    }
  }

  /** One step (`doWhile` null): the collection holds the addable nodes of `el[prop]` and nothing more. */
  lemma OnceSingle(d: Dom, n: Node, rel: Relation)
    requires Valid(d) && n in d.kind
    ensures ItemIn(d, Step(d, rel, Ref(n)))
    ensures forall y :: y in Related(d, [n], rel, Once) <==> y in Refs(d, Step(d, rel, Ref(n)))
  {
    RelatedSingle(d, n, rel, Once);
    var x := Step(d, rel, Ref(n));
    if Truthy(x) {
      assert Walk(d, rel, Once, x) == [x];
      assert RefsAll(d, [x]) == RefsAll(d, []) + Refs(d, x);
    } else {
      assert Walk(d, rel, Once, x) == [];
      assert Refs(d, x) == [];
    }
  }

  /** `children()` of one node: exactly its child nodes that are not text. */
  lemma ChildrenSingle(d: Dom, n: Node)
    requires Valid(d) && n in d.kind
    ensures forall y :: y in Related(d, [n], Children, Once) <==> y in d.childNodes[n] && !d.kind[y].Text?
  {
    OnceSingle(d, n, Children);
    ChildrenKnown(d, n);
    assert Step(d, Children, Ref(n)) == List(RefItems(d.childNodes[n]));
    RefItemsRefs(d, d.childNodes[n]);
  }

  /** The last node of a list that does not occur earlier is the last node once duplicates are dropped. */
  lemma LastOfAdded(d: Dom, ns: seq<Node>)
    requires ns != [] && Addable(d, ns[|ns| - 1]) && ns[|ns| - 1] !in ns[..|ns| - 1]
    ensures Collections.Last(AddNodes(d, [], ns)) == [ns[|ns| - 1]]
  {
    AddNodesMembers(d, [], ns[..|ns| - 1]);
  }

  /**
   * `root()` of one node, without selectors: empty exactly when the node has no owner SVG
   * element; otherwise one SVG `svg` ancestor that has no owner SVG element itself.
   */
  lemma RootSingle(d: Dom, n: Node)
    requires Valid(d) && n in d.kind
    ensures var top := Collections.Last(Related(d, [n], Owner, Repeat));
            && (top == [] <==> OwnerSvgElement(d, n).None?)
            && (top != [] ==> |top| == 1 && top[0] in AncSet(d.parent, n) && IsSvgElement(d, top[0])
                              && d.kind[top[0]].tag == "svg" && OwnerSvgElement(d, top[0]).None?)
  {
    StepInDom(d, Owner, Ref(n));
    WalkAllSingle(d, n, Owner, Repeat);
    OwnerWalk(d, n);
    var ns := Reached(d, Owner, Repeat, n);
    assert Related(d, [n], Owner, Repeat) == AddNodes(d, [], ns);
    if ns != [] {
      LastOfAdded(d, ns);
    }
  }

  /** `root(selectors)`: the last node `owners(selectors)` returns. */
  method Root(d: Dom, s: seq<Node>, selectors: string) returns (r: Result<seq<Node>, DomError>)
    requires Valid(d) && forall n :: n in s ==> n in d.kind
    ensures selectors == "" ==> r == Success(Collections.Last(Related(d, s, Owner, Repeat)))
    ensures selectors != "" ==> var o := Selected(d, Related(d, s, Owner, Repeat), selectors);
                                r == if o.Success? then Success(Collections.Last(o.value)) else o
  {
    var owners := Relations(d, s, Owner, Repeat, selectors);
    r := if owners.Success? then Success(Collections.Last(owners.value)) else owners;
  }

  /**
   * `siblings(selectors)`: `prevSiblings(selectors)`, then the nodes of
   * `nextSiblings(selectors)` pushed onto it; an error from either is raised.
   */
  method SiblingsOf(d: Dom, s: seq<Node>, selectors: string) returns (r: Result<seq<Node>, DomError>)
    requires Valid(d) && forall n :: n in s ==> n in d.kind
    ensures selectors == "" ==> r == Success(AddNodes(d, Related(d, s, Previous, Repeat), Related(d, s, Next, Repeat)))
    ensures selectors != "" ==>
              var p := Selected(d, Related(d, s, Previous, Repeat), selectors);
              var q := Selected(d, Related(d, s, Next, Repeat), selectors);
              r == if p.Failure? then p else if q.Failure? then q else Success(AddNodes(d, p.value, q.value))
  {
    var prev := Relations(d, s, Previous, Repeat, selectors);
    if prev.Failure? {
      return prev;
    }
    var next := Relations(d, s, Next, Repeat, selectors);
    if next.Failure? {
      return next;
    }
    r := Success(AddNodes(d, prev.value, next.value));
  }

  // ---------------------------------------------------------------------------
  // find

  /** `find(selectors)`: the matches below each node, pushed in turn. */
  function Found(d: Dom, s: seq<Node>, sel: Selector): seq<Node>
    requires Valid(d) && forall n :: n in s ==> n in d.kind
  {
    if s == [] then []
    else AddNodes(d, Found(d, s[..|s| - 1], sel), QuerySelectorAll(d, s[|s| - 1], sel))
  }

  /** `find` returns each matching element below some node of the collection, once. */
  lemma {:induction false} FoundExactly(d: Dom, s: seq<Node>, sel: Selector)
    requires Valid(d) && forall n :: n in s ==> n in d.kind
    ensures NoDups(Found(d, s, sel))
    ensures forall m :: m in Found(d, s, sel) <==>
              m in d.kind && Matches(d, sel, m) && exists n :: n in s && n in AncSet(d.parent, m)
  {
    FoundDistinct(d, s, sel);
    forall m ensures m in Found(d, s, sel) <==>
              m in d.kind && Matches(d, sel, m) && exists n :: n in s && n in AncSet(d.parent, m)
    {
      FoundMember(d, s, sel, m);
    }
  }

  lemma {:induction false} FoundDistinct(d: Dom, s: seq<Node>, sel: Selector)
    requires Valid(d) && forall n :: n in s ==> n in d.kind
    ensures NoDups(Found(d, s, sel))
    decreases |s|
  {
    if s != [] {
      var init := s[..|s| - 1];
      FoundDistinct(d, init, sel);
      AddNodesMembers(d, Found(d, init, sel), QuerySelectorAll(d, s[|s| - 1], sel));
    }
  }

  lemma {:induction false} FoundMember(d: Dom, s: seq<Node>, sel: Selector, m: Node)
    requires Valid(d) && forall n :: n in s ==> n in d.kind
    ensures m in Found(d, s, sel) <==>
              m in d.kind && Matches(d, sel, m) && exists n :: n in s && n in AncSet(d.parent, m)
    decreases |s|
  {
    if s != [] {
      var init := s[..|s| - 1];
      var n := s[|s| - 1];
      assert s == init + [n];
      FoundMember(d, init, sel, m);
      QuerySelectorAllExactly(d, n, sel, m);
      if m in d.kind && Matches(d, sel, m) && exists n' :: n' in s && n' in AncSet(d.parent, m) {
        var n' :| n' in s && n' in AncSet(d.parent, m);
        if n' != n {
          assert n' in init;
        }
      }
      AddNodesMembers(d, Found(d, init, sel), QuerySelectorAll(d, n, sel));
    }
  }

  /** The `find` method: one `push` of each node's `querySelectorAll` result. */
  method Find(d: Dom, s: seq<Node>, selectors: string) returns (found: seq<Node>)
    requires Valid(d) && forall n :: n in s ==> n in d.kind
    ensures found == Found(d, s, ParseSelector(selectors))
  {
    var sel := ParseSelector(selectors);
    var c := new Collection();
    var i := 0;
    while i < |s|
      invariant 0 <= i <= |s|
      invariant c.nodes == Found(d, s[..i], sel)
    {
      assert s[..i + 1][..i] == s[..i];
      var q := QuerySelectorAll(d, s[i], sel);
      assert Found(d, s[..i + 1], sel) == AddNodes(d, Found(d, s[..i], sel), q);
      PushNodeList(d, c.nodes, q);
      var d' := c.AddIfUnique(d, List(RefItems(q)), false);
      i := i + 1;
    }
    assert s[..|s|] == s;
    found := c.nodes;
  }

  /** `push` of a node list (a `querySelectorAll` result) adds its nodes one by one. */
  lemma PushNodeList(d: Dom, acc: seq<Node>, q: seq<Node>)
    requires Valid(d) && forall n :: n in q ==> n in d.kind
    ensures ItemIn(d, List(RefItems(q)))
    ensures Added(d, acc, List(RefItems(q)), false) == (d, AddNodes(d, acc, q))
  {
    RefItemsRefs(d, q);
    ListOfRefsAdds(d, acc, q);
  }

  /** Pushing a node list adds the same nodes as pushing them one by one. */
  lemma {:induction false} ListOfRefsAdds(d: Dom, acc: seq<Node>, ns: seq<Node>)
    requires Valid(d) && forall n :: n in ns ==> n in d.kind
    requires forall i :: 0 <= i < |RefItems(ns)| ==> ItemIn(d, RefItems(ns)[i])
    ensures AddedAll(d, acc, RefItems(ns)) == (d, AddNodes(d, acc, ns))
    decreases |ns|
  {
    RefItemsRefs(d, ns);
    if ns != [] {
      var init := ns[..|ns| - 1];
      assert RefItems(ns)[..|ns| - 1] == RefItems(init);
      ListOfRefsAdds(d, acc, init);
    }
  }

  // ---------------------------------------------------------------------------
  // Matching a collection against a selector string

  /** The `behaviour` argument: 'some', 'every' or 'filter'. */
  datatype Behaviour = Any | All | Keep

  datatype Answer = Bool(b: bool) | Nodes(ns: seq<Node>)

  /**
   * Whether the node of the collection counts as matching: its topmost element ancestor's
   * query finds it, which needs an element parent as well as a match.
   */
  predicate Hit(d: Dom, sel: Selector, n: Node) {
    ElementParent(d, n) && Matches(d, sel, n)
  }

  function HitTest(d: Dom, sel: Selector): Node -> bool {
    (n: Node) => Hit(d, sel, n)
  }

  /** A lookup in the query cache: the entry stored with the same ancestor object, if any. */
  function CacheLookup(ids: seq<nat>, cache: seq<seq<Node>>, id: nat): (r: Option<seq<Node>>)
    ensures r.Some? ==> id in ids
  {
    var k := Position(ids, id);
    if k < |ids| && k < |cache| then Some(cache[k]) else None
  }

  /** `node.parents(null, null).last()`: the topmost element ancestor as a one-node list, or empty. */
  method TopElement(d: Dom, n: Node) returns (top: seq<Node>)
    requires Valid(d) && n in d.kind
    ensures top != [] <==> ElementParent(d, n)
    ensures top != [] ==> |top| == 1 && IsElement(d, top[0]) && top[0] in AncSet(d.parent, n)
  {
    top := Collections.Last(Parents(d, n));
    TopElementAncestor(d, n);
  }

  /**
   * The query cache of `matchSelectors`: whether it was created, the ancestor objects
   * it is keyed by, the stored query results, and the next object identity to hand out
   * (every call of `parents().last()` makes a new collection object).
   */
  datatype Cache = Cache(made: bool, ancestors: seq<nat>, results: seq<seq<Node>>, nextObject: nat)

  /** Every stored key is an object made before the next one. */
  predicate CacheKeysOld(c: Cache) {
    forall id :: id in c.ancestors ==> id < c.nextObject
  }

  /** Query results left over from earlier nodes hold only nodes with an element parent. */
  predicate BelowElements(d: Dom, matches: Option<seq<Node>>) {
    matches.Some? ==> forall m :: m in matches.value ==> ElementParent(d, m)
  }

  /**
   * What `matchSelectors` does with one node before judging it: look up or run the
   * query on the topmost element ancestor, keep the previous matches when there is no
   * ancestor and the node is an element, and otherwise clone the node into a new `g`,
   * which fails.  The cache lookup can never succeed.
   */
  method Examine(d: Dom, n: Node, sel: Selector, many: bool, matches: Option<seq<Node>>, cache: Cache)
    returns (failure: Option<DomError>, matches': Option<seq<Node>>, cache': Cache)
    requires Valid(d) && Addable(d, n) && CacheKeysOld(cache) && BelowElements(d, matches)
    ensures failure.Some? <==> !IsElement(d, n)
    ensures failure.Some? ==> failure.value == HierarchyRequestError
    ensures CacheKeysOld(cache') && BelowElements(d, matches')
    ensures failure.None? ==> (matches'.Some? && n in matches'.value <==> Hit(d, sel, n))
  {
    failure, matches', cache' := None, matches, cache;
    var ancestor := TopElement(d, n);
    if ancestor != [] {
      var ancestorObject := cache.nextObject;
      cache' := cache.(nextObject := cache.nextObject + 1);
      matches' := if cache'.made then CacheLookup(cache'.ancestors, cache'.results, ancestorObject) else None;
      if matches'.None? {
        var q := QuerySelectorAll(d, ancestor[0], sel);
        AncestorQuery(d, n, ancestor[0], sel);
        matches' := Some(q);
        if many {
          if !cache'.made {
            cache' := cache'.(made := true, ancestors := [], results := []);
          }
          cache' := cache'.(ancestors := cache'.ancestors + [ancestorObject], results := cache'.results + [q]);
        }
      }
    } else if !IsElement(d, n) {
      var error := GroupClone(d, n);
      failure := Some(error);
    }
  }

  /** A query from an element ancestor of a node whose parent is an element: finds only nodes below elements, and finds the node exactly when it matches. */
  lemma AncestorQuery(d: Dom, n: Node, a: Node, sel: Selector)
    requires Valid(d) && n in d.kind && ElementParent(d, n) && IsElement(d, a) && a in AncSet(d.parent, n)
    ensures BelowElements(d, Some(QuerySelectorAll(d, a, sel)))
    ensures n in QuerySelectorAll(d, a, sel) <==> Hit(d, sel, n)
  {
    var q := QuerySelectorAll(d, a, sel);
    forall m | m in q ensures ElementParent(d, m) {
      QuerySelectorAllExactly(d, a, sel, m);
      BelowElement(d, a, m);
    }
    QuerySelectorAllExactly(d, a, sel, n);
  }

  /** Cloning a node that is neither an element nor under one into a new `g` element: the host refuses it. */
  method GroupClone(d: Dom, n: Node) returns (error: DomError)
    requires Valid(d) && Addable(d, n) && !IsElement(d, n)
    ensures error == HierarchyRequestError
  {
    var (d1, copy) := CloneNode(d, n, false);
    var (d2, g) := CreateElementNS(d1, SvgNs, "g");
    var appended := AppendChild(d2, g, copy);
    assert appended.Failure? by {
      assert PreInsertError(d2, g, copy, None).Some?;
    }
    error := appended.error;
  }

  /** Whether judging goes on past a node: 'some' stops at a hit, 'every' at a miss, 'filter' never. */
  predicate GoesOn(d: Dom, sel: Selector, behaviour: Behaviour, n: Node) {
    match behaviour
    case Any => !Hit(d, sel, n)
    case All => Hit(d, sel, n)
    case Keep => true
  }

  /**
   * The answer `matchSelectors` gives, judged node by node without the query cache:
   * the first node that is not an element fails, the first hit decides 'some', the first
   * miss decides 'every', and 'filter' keeps the hits after those already `kept`.
   */
  function Judged(d: Dom, s: seq<Node>, sel: Selector, behaviour: Behaviour, kept: seq<Node>): (r: Result<Answer, DomError>)
    ensures r.Failure? ==> r.error == HierarchyRequestError
    ensures r.Success? ==> (r.value.Nodes? <==> behaviour.Keep?)
    decreases |s|
  {
    if s == [] then Success(if behaviour.Keep? then Nodes(kept) else Bool(behaviour.All?))
    else if !IsElement(d, s[0]) then Failure(HierarchyRequestError)
    else if !GoesOn(d, sel, behaviour, s[0]) then Success(Bool(behaviour.Any?))
    else Judged(d, s[1..], sel, behaviour, if behaviour.Keep? && Hit(d, sel, s[0]) then kept + [s[0]] else kept)
  }

  /** Judging fails exactly when a node that is not an element is reached before the answer is decided. */
  lemma {:induction false} JudgedFails(d: Dom, s: seq<Node>, sel: Selector, behaviour: Behaviour, kept: seq<Node>)
    ensures Judged(d, s, sel, behaviour, kept).Failure?
            <==> exists j :: 0 <= j < |s| && !IsElement(d, s[j]) && forall k :: 0 <= k < j ==> GoesOn(d, sel, behaviour, s[k])
    decreases |s|
  {
    if s != [] && IsElement(d, s[0]) && GoesOn(d, sel, behaviour, s[0]) {
      var kept' := if behaviour.Keep? && Hit(d, sel, s[0]) then kept + [s[0]] else kept;
      JudgedFails(d, s[1..], sel, behaviour, kept');
      if exists j :: 0 <= j < |s| && !IsElement(d, s[j]) && forall k :: 0 <= k < j ==> GoesOn(d, sel, behaviour, s[k]) {
        var j :| 0 <= j < |s| && !IsElement(d, s[j]) && forall k :: 0 <= k < j ==> GoesOn(d, sel, behaviour, s[k]);
        assert j > 0;
        assert !IsElement(d, s[1..][j - 1]);
        assert forall k :: 0 <= k < j - 1 ==> GoesOn(d, sel, behaviour, s[1..][k]) by {
          forall k | 0 <= k < j - 1 ensures GoesOn(d, sel, behaviour, s[1..][k]) {
            assert s[1..][k] == s[k + 1];
          }
        }
      }
      if exists j :: 0 <= j < |s| - 1 && !IsElement(d, s[1..][j]) && forall k :: 0 <= k < j ==> GoesOn(d, sel, behaviour, s[1..][k]) {
        var j :| 0 <= j < |s| - 1 && !IsElement(d, s[1..][j]) && forall k :: 0 <= k < j ==> GoesOn(d, sel, behaviour, s[1..][k]);
        assert !IsElement(d, s[j + 1]);
        forall k | 0 <= k < j + 1 ensures GoesOn(d, sel, behaviour, s[k]) {
          if k > 0 {
            assert s[k] == s[1..][k - 1];
          }
        }
      }
    }
  }

  /** 'some' answers whether any node is a hit. */
  lemma {:induction false} JudgedAny(d: Dom, s: seq<Node>, sel: Selector, kept: seq<Node>)
    ensures Judged(d, s, sel, Any, kept).Success? ==> Judged(d, s, sel, Any, kept).value == Bool(exists j :: 0 <= j < |s| && Hit(d, sel, s[j]))
    decreases |s|
  {
    if s != [] && IsElement(d, s[0]) {
      if Hit(d, sel, s[0]) {
        assert Hit(d, sel, s[0]);
      } else {
        JudgedAny(d, s[1..], sel, kept);
        if exists j :: 0 <= j < |s| && Hit(d, sel, s[j]) {
          var j :| 0 <= j < |s| && Hit(d, sel, s[j]);
          assert Hit(d, sel, s[1..][j - 1]);
        }
        if exists j :: 0 <= j < |s| - 1 && Hit(d, sel, s[1..][j]) {
          var j :| 0 <= j < |s| - 1 && Hit(d, sel, s[1..][j]);
          assert Hit(d, sel, s[j + 1]);
        }
      }
    }
  }

  /** 'every' answers whether every node is a hit. */
  lemma {:induction false} JudgedAll(d: Dom, s: seq<Node>, sel: Selector, kept: seq<Node>)
    ensures Judged(d, s, sel, All, kept).Success? ==> Judged(d, s, sel, All, kept).value == Bool(forall j :: 0 <= j < |s| ==> Hit(d, sel, s[j]))
    decreases |s|
  {
    if s != [] && IsElement(d, s[0]) {
      if !Hit(d, sel, s[0]) {
        assert !Hit(d, sel, s[0]);
      } else {
        JudgedAll(d, s[1..], sel, kept);
        if forall j :: 0 <= j < |s| - 1 ==> Hit(d, sel, s[1..][j]) {
          forall j | 0 <= j < |s| ensures Hit(d, sel, s[j]) {
            if j > 0 {
              assert s[j] == s[1..][j - 1];
            }
          }
        }
        if forall j :: 0 <= j < |s| ==> Hit(d, sel, s[j]) {
          forall j | 0 <= j < |s| - 1 ensures Hit(d, sel, s[1..][j]) {
            assert s[1..][j] == s[j + 1];
          }
        }
      }
    }
  }

  /** 'filter' keeps the hits, in order, after those already kept. */
  lemma {:induction false} JudgedKeep(d: Dom, s: seq<Node>, sel: Selector, kept: seq<Node>)
    ensures Judged(d, s, sel, Keep, kept).Success? ==> Judged(d, s, sel, Keep, kept).value == Nodes(kept + Filter(s, HitTest(d, sel)))
    decreases |s|
  {
    if s != [] && IsElement(d, s[0]) {
      var kept' := if Hit(d, sel, s[0]) then kept + [s[0]] else kept;
      JudgedKeep(d, s[1..], sel, kept');
      assert HitTest(d, sel)(s[0]) == Hit(d, sel, s[0]);
      Seqs.FilterCons(kept, s, HitTest(d, sel));
    } else if s == [] {
      assert kept + [] == kept;
    }
  }

  /** One step of judging: the node at `i` fails, decides, or is passed over. */
  lemma JudgedStep(d: Dom, s: seq<Node>, sel: Selector, behaviour: Behaviour, kept: seq<Node>, i: nat)
    requires i < |s|
    ensures Judged(d, s[i..], sel, behaviour, kept)
            == if !IsElement(d, s[i]) then Failure(HierarchyRequestError)
               else if !GoesOn(d, sel, behaviour, s[i]) then Success(Bool(behaviour.Any?))
               else Judged(d, s[i + 1..], sel, behaviour, if behaviour.Keep? && Hit(d, sel, s[i]) then kept + [s[i]] else kept)
  {
    assert s[i..][0] == s[i] && s[i..][1..] == s[i + 1..];
  }

  /**
   * `matchSelectors(collection, selectors, behaviour)`: judges the nodes in order as
   * `Judged` does, looking the query up per topmost element ancestor; a document in the
   * collection raises the host's hierarchy error once it is reached.
   */
  method MatchSelectors(d: Dom, s: seq<Node>, selectors: string, behaviour: Behaviour)
    returns (r: Result<Answer, DomError>)
    requires Valid(d) && NoDups(s) && forall n :: n in s ==> Addable(d, n)
    ensures r == Judged(d, s, ParseSelector(selectors), behaviour, [])
  {
    var sel := ParseSelector(selectors);
    var filtered: seq<Node> := [];
    var matches: Option<seq<Node>> := None;
    var cache := Cache(false, [], [], 0);
    var i := 0;
    while i < |s|
      invariant 0 <= i <= |s|
      invariant Judged(d, s, sel, behaviour, []) == Judged(d, s[i..], sel, behaviour, filtered)
      invariant CacheKeysOld(cache) && BelowElements(d, matches)
      invariant forall x :: x in filtered ==> x in s[..i]
    {
      var decided;
      decided, filtered, matches, cache := JudgeOne(d, s, i, sel, behaviour, |s| > 1, filtered, matches, cache);
      if decided.Some? {
        return decided.value;
      }
      i := i + 1;
    }
    r := Success(if behaviour.Keep? then Nodes(filtered) else Bool(behaviour.All?));
  }

  /** In a list without duplicates, no node before position `i` is the node at `i`. */
  lemma NotEarlier(s: seq<Node>, i: nat)
    requires NoDups(s) && i < |s|
    ensures s[i] !in s[..i]
  {
  }

  /** One turn of the loop of `matchSelectors`: the answer, when node `i` decides it, or the state to go on with. */
  method JudgeOne(d: Dom, s: seq<Node>, i: nat, sel: Selector, behaviour: Behaviour, many: bool,
                  filtered: seq<Node>, matches: Option<seq<Node>>, cache: Cache)
    returns (decided: Option<Result<Answer, DomError>>, filtered': seq<Node>, matches': Option<seq<Node>>, cache': Cache)
    requires Valid(d) && i < |s| && Addable(d, s[i]) && CacheKeysOld(cache) && BelowElements(d, matches)
    requires NoDups(s) && forall x :: x in filtered ==> x in s[..i]
    ensures decided.Some? ==> decided.value == Judged(d, s[i..], sel, behaviour, filtered)
    ensures decided.None? ==> Judged(d, s[i..], sel, behaviour, filtered) == Judged(d, s[i + 1..], sel, behaviour, filtered')
    ensures decided.None? ==> forall x :: x in filtered' ==> x in s[..i + 1]
    ensures CacheKeysOld(cache') && BelowElements(d, matches')
  {
    var n := s[i];
    var failure;
    failure, matches', cache' := Examine(d, n, sel, many, matches, cache);
    JudgedStep(d, s, sel, behaviour, filtered, i);
    filtered' := filtered;
    decided := None;
    if failure.Some? {
      decided := Some(Failure(failure.value));
      return;
    }
    var isMatch := matches'.Some? && n in matches'.value;
    if isMatch {
      if behaviour.Any? {
        decided := Some(Success(Bool(true)));
        return;
      }
      if behaviour.Keep? {
        // `filtered.push(node)` skips a node already there; the nodes before `n` are not `n`
        NotEarlier(s, i);
        if n !in filtered {
          filtered' := filtered + [n];
        }
      }
    } else if behaviour.All? {
      decided := Some(Success(Bool(false)));
    }
  }

  // ---------------------------------------------------------------------------
  // some, every, select

  /** The argument of `some`, `every` and `select`: a selector string or a test function. */
  datatype Test = BySelector(selectors: string) | ByFunction(f: Node -> bool)

  /** `some(fnOrSelector)`: with a string, whether any node matches it; with a function, whether it holds for any node. */
  method SomeMatch(d: Dom, s: seq<Node>, test: Test) returns (r: Result<bool, DomError>)
    requires Valid(d) && NoDups(s) && forall n :: n in s ==> Addable(d, n)
    ensures test.ByFunction? ==> r == Success(exists i :: 0 <= i < |s| && test.f(s[i]))
    ensures test.BySelector? && r.Success? ==> r.value == exists i :: 0 <= i < |s| && Hit(d, ParseSelector(test.selectors), s[i])
    ensures test.BySelector? ==> (r.Failure? <==> Judged(d, s, ParseSelector(test.selectors), Any, []).Failure?)
    ensures r.Failure? ==> r.error == HierarchyRequestError
  {
    if test.BySelector? {
      var m := MatchSelectors(d, s, test.selectors, Any);
      JudgedAny(d, s, ParseSelector(test.selectors), []);
      r := if m.Success? then Success(m.value.b) else Failure(m.error);
    } else {
      r := Success(exists i :: 0 <= i < |s| && test.f(s[i]));
    }
  }

  /** `every(fnOrSelector)`: with a string, whether every node matches it; with a function, whether it holds for all. */
  method EveryMatch(d: Dom, s: seq<Node>, test: Test) returns (r: Result<bool, DomError>)
    requires Valid(d) && NoDups(s) && forall n :: n in s ==> Addable(d, n)
    ensures test.ByFunction? ==> r == Success(forall i :: 0 <= i < |s| ==> test.f(s[i]))
    ensures test.BySelector? && r.Success? ==> r.value == forall i :: 0 <= i < |s| ==> Hit(d, ParseSelector(test.selectors), s[i])
    ensures test.BySelector? ==> (r.Failure? <==> Judged(d, s, ParseSelector(test.selectors), All, []).Failure?)
    ensures r.Failure? ==> r.error == HierarchyRequestError
  {
    if test.BySelector? {
      var m := MatchSelectors(d, s, test.selectors, All);
      JudgedAll(d, s, ParseSelector(test.selectors), []);
      r := if m.Success? then Success(m.value.b) else Failure(m.error);
    } else {
      r := Success(forall i :: 0 <= i < |s| ==> test.f(s[i]));
    }
  }

  /** `select(fnOrSelector)`: the nodes that match the selector, or those the function holds for, in order. */
  method SelectMatching(d: Dom, s: seq<Node>, test: Test) returns (r: Result<seq<Node>, DomError>)
    requires Valid(d) && NoDups(s) && forall n :: n in s ==> Addable(d, n)
    ensures test.ByFunction? ==> r == Success(Filter(s, test.f))
    ensures test.BySelector? && r.Success? ==> r.value == Filter(s, HitTest(d, ParseSelector(test.selectors)))
    ensures test.BySelector? ==> (r.Failure? <==> Judged(d, s, ParseSelector(test.selectors), Keep, []).Failure?)
    ensures r.Failure? ==> r.error == HierarchyRequestError
  {
    if test.BySelector? {
      var m := MatchSelectors(d, s, test.selectors, Keep);
      JudgedKeep(d, s, ParseSelector(test.selectors), []);
      r := if m.Success? then Success(m.value.ns) else Failure(m.error);
    } else {
      r := Success(Filter(s, test.f));
    }
  }
}
