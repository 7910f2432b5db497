/**
 * Copying: `clone(deep)` maps `cloneNode(deep)` over the collection and wraps the copies
 * as a new collection; `duplicate(repeats)` makes deep copies of the first node, inserts
 * them with `after` behind the nodes of the collection and pushes them onto it.
 */
module Cloning {
  import opened Wrappers
  import opened Seqs
  import opened Dom
  import opened Collections
  import opened Creation
  import opened Traversal
  import opened Manipulation

  /** The nodes of `d` keep their parent links, child lists and attributes in `r`. */
  ghost predicate Kept(d: Dom, r: Dom) {
    && (forall x :: x in d.kind ==> (x in r.parent <==> x in d.parent))
    && (forall x :: x in d.parent ==> x in r.parent && r.parent[x] == d.parent[x])
    && (forall x :: x in d.childNodes ==> x in r.childNodes && r.childNodes[x] == d.childNodes[x])
    && (forall x :: x in d.attrs ==> x in r.attrs && r.attrs[x] == d.attrs[x])
  }

  /**
   * `c`, a node new since `d`, is a detached copy in `r` of the node `n` of `d`: the same
   * kind and attributes and, when the copy is deep, a copy of the whole subtree below `n`
   * made of nodes new since `d`; a shallow copy has no children.
   */
  ghost predicate CopyOf(d: Dom, r: Dom, n: Node, c: Node, deep: bool) {
    && n in d.kind && n in d.attrs && n in d.childNodes
    && c !in d.kind && c in r.kind && c in r.attrs && c in r.childNodes && c !in r.parent
    && r.kind[c] == d.kind[n] && r.attrs[c] == d.attrs[n]
    && if deep then SubtreeCopy(d, d.kind.Keys, r, n, c) else r.childNodes[c] == []
  }

  /** Keeping the nodes twice keeps them. */
  lemma KeptTransitive(d: Dom, d1: Dom, d2: Dom)
    requires WellKeyed(d) && Extends(d, d1) && Kept(d, d1) && Kept(d1, d2)
    ensures Kept(d, d2)
  {
    forall x | x in d.kind ensures x in d2.parent <==> x in d.parent {
      assert x in d1.kind;
    }
  }

  /** `cloneNode` keeps every node of the tree it allocates in and yields a copy of `n`. */
  lemma CloneKeeps(d: Dom, n: Node, deep: bool)
    requires Valid(d) && n in d.kind
    ensures Kept(d, CloneNode(d, n, deep).0)
    ensures CopyOf(d, CloneNode(d, n, deep).0, n, CloneNode(d, n, deep).1, deep)
  {
    var (r, c) := CloneNode(d, n, deep);
    forall x | x in d.kind ensures x in r.parent <==> x in d.parent {
      assert x != c;
    }
    forall x | x in d.parent ensures x in r.parent && r.parent[x] == d.parent[x] {
      assert x != c;
    }
    forall x | x in d.childNodes ensures x in r.childNodes && r.childNodes[x] == d.childNodes[x] {
      assert x != c;
    }
    forall x | x in d.attrs ensures x in r.attrs && r.attrs[x] == d.attrs[x] {
      assert x != c;
    }
  }

  /** A copy stays a copy while the tree grows and keeps its nodes. */
  lemma CopyLasts(d: Dom, r: Dom, r2: Dom, n: Node, c: Node, deep: bool)
    requires CopyOf(d, r, n, c, deep) && Extends(r, r2) && Kept(r, r2)
    ensures CopyOf(d, r2, n, c, deep)
  {
    if deep {
      SubtreeCopyLasts(d, d.kind.Keys, r, r2, n, c, n);
    }
  }

  /** A copy of a node of a later tree that kept the node is a copy of the node as it was. */
  lemma CopyOfOriginal(d: Dom, d1: Dom, r: Dom, n: Node, c: Node, deep: bool)
    requires Valid(d) && n in d.kind && Extends(d, d1) && Kept(d, d1) && CopyOf(d1, r, n, c, deep)
    ensures CopyOf(d, r, n, c, deep)
  {
    if deep {
      SubtreeCopyOfKept(d, d1, d1.kind.Keys, r, n, c);
      SubtreeCopyFewer(d, d1.kind.Keys, d.kind.Keys, r, n, c);
    }
  }

  /** One more node cloned: the tree keeps its nodes and the new node is a fresh copy. */
  lemma CloneStep(d: Dom, d': Dom, n: Node, deep: bool) returns (r: Dom, c: Node)
    requires Valid(d') && Extends(d, d') && Kept(d, d') && Valid(d) && n in d.kind
    ensures (r, c) == CloneNode(d', n, deep)
    ensures Valid(r) && Extends(d', r) && Kept(d', r) && Extends(d, r) && Kept(d, r)
    ensures CopyOf(d, r, n, c, deep) && c !in d'.kind
  {
    r, c := CloneNode(d', n, deep).0, CloneNode(d', n, deep).1;
    CloneKeeps(d', n, deep);
    ExtendsTransitive(d, d', r);
    KeptTransitive(d, d', r);
    CopyOfOriginal(d, d', r, n, c, deep);
  }

  /** The copies made so far stay copies, and distinct, when one more is made. */
  lemma CopiesLast(d: Dom, d': Dom, r: Dom, s: seq<Node>, mapped: seq<Node>, c: Node, deep: bool)
    requires Extends(d', r) && Kept(d', r) && |mapped| < |s| && c !in d'.kind
    requires NoDups(mapped) && forall j :: 0 <= j < |mapped| ==> CopyOf(d, d', s[j], mapped[j], deep)
    requires CopyOf(d, r, s[|mapped|], c, deep)
    ensures NoDups(mapped + [c])
    ensures forall j :: 0 <= j < |mapped| + 1 ==> CopyOf(d, r, s[j], (mapped + [c])[j], deep)
  {
    forall j | 0 <= j < |mapped| ensures CopyOf(d, r, s[j], mapped[j], deep) && mapped[j] != c {
      CopyLasts(d, d', r, s[j], mapped[j], deep);
    }
    DistinctJoin(mapped, [c]);
  }

  /** Distinct nodes that are all new to the collection are appended by `push` in order. */
  lemma {:induction false} AddNodesFresh(d: Dom, acc: seq<Node>, ns: seq<Node>)
    requires NoDups(ns) && forall n :: n in ns ==> Addable(d, n) && n !in acc
    ensures AddNodes(d, acc, ns) == acc + ns
    decreases |ns|
  {
    if ns == [] {
      AppendEmpty(acc);
    } else {
      var init := ns[..|ns| - 1];
      var last := ns[|ns| - 1];
      assert ns == init + [last];
      AddNodesFresh(d, acc, init);
      assert last !in init;
    }
  }

  /** `Pablo(array)` of distinct nodes that may be pushed wraps exactly those nodes. */
  lemma PabloOfNodes(d: Dom, ns: seq<Node>)
    requires Valid(d) && NoDups(ns) && forall n :: n in ns ==> Addable(d, n)
    ensures ItemIn(d, List(RefItems(ns)))
    ensures Pablo(d, List(RefItems(ns)), None) == (d, ns, None)
  {
    PushNodeList(d, [], ns);
    AddNodesFresh(d, [], ns);
    assert [] + ns == ns;
    assert Pablo(d, List(RefItems(ns)), None) == CreatePablo(d, List(RefItems(ns)), None);
  }

  /**
   * `clone(deep)`: `cloneNode(deep)` of each node in order, the resulting array wrapped
   * by `Pablo`.  The copies are new, detached and distinct, one per node and in the same
   * order, and no node of the tree changes.
   */
  method Clone(d: Dom, s: seq<Node>, deep: bool) returns (d': Dom, copies: seq<Node>)
    requires Valid(d) && forall n :: n in s ==> Addable(d, n)
    ensures Valid(d') && Extends(d, d') && Kept(d, d')
    ensures |copies| == |s| && NoDups(copies)
    ensures forall i :: 0 <= i < |s| ==> CopyOf(d, d', s[i], copies[i], deep)
    ensures s == [] ==> d' == d
  {
    d' := d;
    var mapped: seq<Node> := [];
    while |mapped| < |s|
      invariant |mapped| <= |s| && (mapped == [] ==> d' == d)
      invariant Valid(d') && Extends(d, d') && Kept(d, d')
      invariant NoDups(mapped) && forall j :: 0 <= j < |mapped| ==> CopyOf(d, d', s[j], mapped[j], deep)
      decreases |s| - |mapped|
    {
      assert s[|mapped|] in s;
      ghost var r0, c0 := CloneStep(d, d', s[|mapped|], deep);
      CopiesLast(d, d', r0, s, mapped, c0, deep);
      var (r, c) := CloneNode(d', s[|mapped|], deep);
      d', mapped := r, mapped + [c];
    }
    CopiesWrap(d, d', s, mapped, deep);
    var (d1, wrapped, _) := Pablo(d', List(RefItems(mapped)), None);
    d', copies := d1, wrapped;
  }

  /** Copies of nodes that may be pushed may be pushed, so `Pablo` wraps them as they are. */
  lemma CopiesWrap(d: Dom, d': Dom, s: seq<Node>, mapped: seq<Node>, deep: bool)
    requires Valid(d') && (forall n :: n in s ==> Addable(d, n)) && |mapped| == |s|
    requires NoDups(mapped) && forall j :: 0 <= j < |mapped| ==> CopyOf(d, d', s[j], mapped[j], deep)
    ensures ItemIn(d', List(RefItems(mapped)))
    ensures Pablo(d', List(RefItems(mapped)), None) == (d', mapped, None)
  {
    forall c | c in mapped ensures Addable(d', c) {
      var j :| 0 <= j < |mapped| && mapped[j] == c;
      assert CopyOf(d, d', s[j], c, deep) && s[j] in s;
    }
    PabloOfNodes(d', mapped);
  }

  /** The number of copies `duplicate` makes: one for a negative count or for a value that is not a number. */
  function Repeats(repeats: Option<int>): (k: nat)
    ensures repeats.Some? && repeats.value >= 0 ==> k == repeats.value
    ensures repeats.None? || repeats.value < 0 ==> k == 1
  {
    if repeats.None? || repeats.value < 0 then 1 else repeats.value
  }

  /** Every node of `cs` is new since `d` and, in `r`, of the kind of the first node of `s`. */
  ghost predicate LikeFirst(d: Dom, r: Dom, s: seq<Node>, cs: seq<Node>) {
    if s == [] then cs == []
    else s[0] in d.kind && forall c :: c in cs ==> c !in d.kind && c in r.kind && r.kind[c] == d.kind[s[0]]
  }

  /** Every node of `cs` is, in `r`, a detached deep copy of the first node of `s` in `d`. */
  ghost predicate CopiesOfFirst(d: Dom, r: Dom, s: seq<Node>, cs: seq<Node>) {
    if s == [] then cs == []
    else forall c :: c in cs ==> CopyOf(d, r, s[0], c, true)
  }

  lemma CopiesAreLike(d: Dom, r: Dom, s: seq<Node>, cs: seq<Node>)
    requires CopiesOfFirst(d, r, s, cs) && (s != [] ==> s[0] in d.kind)
    ensures LikeFirst(d, r, s, cs)
  {
  }

  /**
   * In `r`, the nodes `cs` follow, in reverse order, the last node of `s` that had a parent
   * in `d`, under that parent: where `after` leaves a set it inserts at every target.
   */
  ghost predicate PlacedAfter(d: Dom, r: Dom, s: seq<Node>, cs: seq<Node>) {
    forall j: nat :: LastParented(d, s, j) ==>
      var p := d.parent[s[j]]; p in r.childNodes && FollowedBy(r.childNodes[p], s[j], Reverse(cs))
  }

  /** `j` is the last node of `s` that has a parent in `d`: the target `after` leaves a shared set at. */
  ghost predicate LastParented(d: Dom, s: seq<Node>, j: nat) {
    && j < |s| && ParentFor(d, s[j], AfterOp).Some?
    && forall i :: j < i < |s| ==> ParentFor(d, s[i], AfterOp).None?
  }

  /**
   * `duplicate(repeats)`: unless the count is 0, deep copies of the first node are made
   * (each round clones the whole collection and keeps the first copy), inserted with
   * `after` behind every node of the collection that has a parent, and then pushed onto
   * the collection.  An empty collection gets no copies; an exception raised by the
   * insertion is returned and the copies are not pushed.  The copies end up behind the
   * last node of the collection that has a parent, in reverse order.
   */
  method Duplicate(d: Dom, s: seq<Node>, repeats: Option<int>) returns (d': Dom, s': seq<Node>, e: Option<DomError>)
    requires Valid(d) && NoDups(s) && forall n :: n in s ==> Addable(d, n)
    ensures Valid(d') && Extends(d, d')
    ensures repeats == Some(0) || s == [] ==> d' == d && s' == s && e.None?
    ensures e.Some? ==> s' == s
    ensures e.None? && s != [] && repeats != Some(0) ==> |s'| == |s| + Repeats(repeats)
    ensures |s| <= |s'| && s'[..|s|] == s && NoDups(s')
    ensures LikeFirst(d, d', s, s'[|s|..])
    ensures e.None? && repeats != Some(0) ==> PlacedAfter(d, d', s, s'[|s|..])
  {
    d', s', e := d, s, None;
    assert s != [] ==> s[0] in s;
    if repeats == Some(0) {
      assert s'[|s|..] == [];
      return;
    }
    var dups;
    d', dups := MakeCopies(d, s, Repeats(repeats));
    CopiesAreLike(d, d', s, dups);
    ghost var d0 := d';
    d', s', e := AfterAndPush(d, d', s, dups);
    KeptInFront(d, d', s, dups, s');
    if e.None? {
      PlacedAfterKept(d, d0, d', s, dups);
    }
  }

  /** The loop of `duplicate`: `count` rounds, each pushing a fresh copy of the first node onto `duplicates`. */
  method MakeCopies(d: Dom, s: seq<Node>, count: nat) returns (d': Dom, dups: seq<Node>)
    requires Valid(d) && forall n :: n in s ==> Addable(d, n)
    ensures Valid(d') && Extends(d, d') && Kept(d, d')
    ensures |dups| == if s == [] then 0 else count
    ensures s == [] ==> d' == d
    ensures NoDups(dups) && forall c :: c in dups ==> Addable(d', c)
    ensures CopiesOfFirst(d, d', s, dups)
  {
    d' := d;
    var duplicates := new Collection();
    var n: nat := count;
    while n > 0
      invariant n <= count
      invariant Valid(d') && Extends(d, d') && Kept(d, d')
      invariant duplicates.WellFormed(d') && |duplicates.nodes| == if s == [] then 0 else count - n
      invariant s == [] ==> d' == d
      invariant CopiesOfFirst(d, d', s, duplicates.nodes)
    {
      d' := DuplicateOnce(d, d', s, duplicates);
      n := n - 1;
    }
    dups := duplicates.nodes;
  }

  /** `this.after(duplicates).push(duplicates)`, once the copies are made. */
  method AfterAndPush(d: Dom, d0: Dom, s: seq<Node>, dups: seq<Node>) returns (d': Dom, s': seq<Node>, e: Option<DomError>)
    requires Valid(d0) && Extends(d, d0) && NoDups(s) && (forall n :: n in s ==> Addable(d, n))
    requires NoDups(dups) && (forall c :: c in dups ==> Addable(d0, c)) && LikeFirst(d, d0, s, dups)
    requires forall n :: n in s ==> n in d0.kind
    ensures Valid(d') && Extends(d, d')
    ensures s == [] ==> d' == d0 && s' == s && e.None?
    ensures s' == if e.None? then s + dups else s
    ensures NoDups(s + dups) && LikeFirst(d, d', s, dups)
    ensures e.None? ==> PlacedAfter(d0, d', s, dups)
  {
    d', e := AfterNew(d, d0, s, dups);
    PushNewNodes(d, d0, d', s, dups);
    if e.Some? {
      s' := s;
    } else {
      // `.push(duplicates)` on the collection itself
      s' := Added(d', s, Wrapped(dups), false).1;
    }
  }

  /** The collection keeps its nodes in front, and whatever follows them is a copy. */
  lemma KeptInFront(d: Dom, r: Dom, s: seq<Node>, dups: seq<Node>, s': seq<Node>)
    requires NoDups(s) && NoDups(s + dups) && LikeFirst(d, r, s, dups) && (s' == s || s' == s + dups)
    ensures |s| <= |s'| && s'[..|s|] == s && NoDups(s') && LikeFirst(d, r, s, s'[|s|..])
  {
    if s' == s {
      assert s'[|s|..] == [];
    } else {
      assert s'[..|s|] == s && s'[|s|..] == dups;
    }
  }

  /** `this.after(duplicates)`: the outer `each` of `after`, given a set of nodes new since `d`. */
  method AfterNew(d: Dom, d0: Dom, s: seq<Node>, dups: seq<Node>) returns (d': Dom, e: Option<DomError>)
    requires Valid(d0) && Extends(d, d0) && (forall n :: n in s ==> Addable(d, n) && n in d0.kind)
    requires NoDups(dups) && (forall c :: c in dups ==> Addable(d0, c)) && LikeFirst(d, d0, s, dups)
    ensures (d', e) == Manipulated(d0, s, 0, AfterOp, Wrapped(dups), None)
    ensures Valid(d') && Extends(d0, d') && Extends(d, d')
    ensures s == [] ==> d' == d0 && e.None?
    ensures e.None? ==> PlacedAfter(d0, d', s, dups)
  {
    d', e := Manipulate(d0, s, AfterOp, Wrapped(dups), None);
    ExtendsTransitive(d, d0, d');
    if e.None? {
      TargetsNotNew(d, d0, s, dups);
      AfterLastParented(d0, s, dups);
    }
  }

  /** The collection's nodes are older than the copies. */
  lemma TargetsNotNew(d: Dom, d0: Dom, s: seq<Node>, dups: seq<Node>)
    requires LikeFirst(d, d0, s, dups) && forall n :: n in s ==> Addable(d, n) && n in d0.kind
    ensures forall n :: n in s ==> n in d0.kind && n !in dups
  {
  }

  /** Pushing nodes that are all new since `d` onto a collection of nodes of `d` appends them. */
  lemma PushNewNodes(d: Dom, d0: Dom, d': Dom, s: seq<Node>, dups: seq<Node>)
    requires Valid(d') && Extends(d, d0) && Extends(d0, d') && NoDups(s) && NoDups(dups)
    requires (forall n :: n in s ==> Addable(d, n)) && (forall c :: c in dups ==> Addable(d0, c))
    requires LikeFirst(d, d0, s, dups)
    ensures ItemIn(d', Wrapped(dups)) && Added(d', s, Wrapped(dups), false) == (d', s + dups)
    ensures NoDups(s + dups) && (s + dups)[..|s|] == s && (s + dups)[|s|..] == dups
    ensures LikeFirst(d, d', s, dups)
  {
    AddNodesFresh(d', s, dups);
    DistinctJoin(s, dups);
  }

  /** `after` of a new set of nodes leaves them behind the last target with a parent, in reverse order. */
  lemma AfterLastParented(d0: Dom, s: seq<Node>, dups: seq<Node>)
    requires Valid(d0) && (forall n :: n in s ==> n in d0.kind && n !in dups)
    requires NoDups(dups) && (forall c :: c in dups ==> Addable(d0, c))
    requires Manipulated(d0, s, 0, AfterOp, Wrapped(dups), None).1.None?
    ensures PlacedAfter(d0, Manipulated(d0, s, 0, AfterOp, Wrapped(dups), None).0, s, dups)
  {
    forall j: nat | LastParented(d0, s, j)
      ensures var r := Manipulated(d0, s, 0, AfterOp, Wrapped(dups), None).0;
              var p := d0.parent[s[j]]; p in r.childNodes && FollowedBy(r.childNodes[p], s[j], Reverse(dups))
    {
      SharedSetAfter(d0, s, dups, j);
    }
  }

  /** Placement measured against a tree that kept the collection's parent links is the same. */
  lemma PlacedAfterKept(d: Dom, d0: Dom, r: Dom, s: seq<Node>, dups: seq<Node>)
    requires Kept(d, d0) && (forall n :: n in s ==> n in d.kind) && PlacedAfter(d0, r, s, dups)
    ensures PlacedAfter(d, r, s, dups)
  {
    forall j: nat | LastParented(d, s, j) ensures LastParented(d0, s, j) && d0.parent[s[j]] == d.parent[s[j]] {
      forall i | j <= i < |s| ensures ParentFor(d0, s[i], AfterOp) == ParentFor(d, s[i], AfterOp) {
        assert s[i] in s;
      }
    }
  }

  /** The value pushed in one round: the copy of the first node, or `undefined` for an empty collection. */
  function FirstOf(copies: seq<Node>): Item {
    if copies != [] then Ref(copies[0]) else Undefined
  }

  /** Pushing the first copy appends it: it is new, so it is not in the list yet. */
  lemma PushFirstCopy(d: Dom, d0: Dom, d1: Dom, s: seq<Node>, nodes: seq<Node>, copies: seq<Node>)
    requires Valid(d1) && Extends(d, d0) && Extends(d0, d1) && |copies| == |s|
    requires forall m :: m in s ==> Addable(d, m)
    requires s != [] ==> CopyOf(d0, d1, s[0], copies[0], true)
    requires (forall c :: c in nodes ==> Addable(d0, c)) && LikeFirst(d, d0, s, nodes)
    ensures ItemIn(d1, FirstOf(copies))
    ensures Added(d1, nodes, FirstOf(copies), false) == (d1, if s == [] then nodes else nodes + [copies[0]])
    ensures LikeFirst(d, d1, s, Added(d1, nodes, FirstOf(copies), false).1)
  {
    if s != [] {
      assert s[0] in s;
      assert Addable(d1, copies[0]) && copies[0] !in nodes;
    }
  }

  /**
   * One round of `duplicate`'s loop: `duplicates.push(this.clone(true)[0])`, which pushes
   * nothing when the collection is empty.
   */
  method DuplicateOnce(d: Dom, d0: Dom, s: seq<Node>, duplicates: Collection) returns (d': Dom)
    requires Valid(d0) && Extends(d, d0) && Kept(d, d0) && Valid(d)
    requires forall m :: m in s ==> Addable(d, m)
    requires duplicates.WellFormed(d0) && CopiesOfFirst(d, d0, s, duplicates.nodes)
    modifies duplicates
    ensures Valid(d') && Extends(d, d') && Kept(d, d') && duplicates.WellFormed(d')
    ensures s == [] ==> d' == d0 && duplicates.nodes == old(duplicates.nodes)
    ensures s != [] ==>
              && |duplicates.nodes| == |old(duplicates.nodes)| + 1
              && duplicates.nodes == old(duplicates.nodes) + [duplicates.nodes[|old(duplicates.nodes)|]]
              && CopyOf(d0, d', s[0], duplicates.nodes[|old(duplicates.nodes)|], true)
    ensures CopiesOfFirst(d, d', s, duplicates.nodes)
  {
    assert forall m :: m in s ==> Addable(d0, m);
    assert s != [] ==> s[0] in s;
    var d1, copies := Clone(d0, s, true);
    ExtendsTransitive(d, d0, d1);
    KeptTransitive(d, d0, d1);
    CopiesAreLike(d, d0, s, duplicates.nodes);
    PushFirstCopy(d, d0, d1, s, duplicates.nodes, copies);
    CopiesGrow(d, d0, d1, s, duplicates.nodes, copies);
    d' := duplicates.Push(d1, FirstOf(copies));
  }

  /** The copies made in earlier rounds stay copies, and the new one is a copy of the first node as it was. */
  lemma CopiesGrow(d: Dom, d0: Dom, d1: Dom, s: seq<Node>, before: seq<Node>, copies: seq<Node>)
    requires Valid(d) && Extends(d, d0) && Kept(d, d0) && Extends(d0, d1) && Kept(d0, d1) && |copies| == |s|
    requires CopiesOfFirst(d, d0, s, before) && (s != [] ==> s[0] in d.kind && CopyOf(d0, d1, s[0], copies[0], true))
    ensures CopiesOfFirst(d, d1, s, if s == [] then before else before + [copies[0]])
  {
    if s != [] {
      forall c | c in before + [copies[0]] ensures CopyOf(d, d1, s[0], c, true) {
        if c in before {
          CopyLasts(d, d0, d1, s[0], c, true);
        } else {
          CopyOfOriginal(d, d0, d1, s[0], c, true);
        }
      }
    }
  }
}
