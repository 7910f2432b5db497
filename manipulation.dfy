/**
 * Manipulation: `remove` and `empty`, the insertion family (`append`, `prepend`,
 * `before`, `after` and their `appendTo`, `prependTo`, `insertBefore`, `insertAfter` and
 * `child` forms).  Every host call that can raise
 * (`insertBefore`, `appendChild`, the attribute writes of `toPablo`) stops the whole
 * operation, and the exception is returned beside the tree as it was left.
 */
module Manipulation {
  import opened Wrappers
  import opened Seqs
  import opened Dom
  import opened Collections
  import opened Attributes
  import opened Traversal
  import opened Creation

  // ---------------------------------------------------------------------------
  // What one host call does to the child lists

  /** `removeChild` changes the parent links and one child list only. */
  lemma DetachShape(d: Dom, c: Node)
    requires c in d.parent ==> d.parent[c] in d.childNodes
    ensures var r := Detach(d, c);
            && r.kind == d.kind && r.attrs == d.attrs && r.parent == d.parent - {c}
            && r.childNodes.Keys == d.childNodes.Keys && r.document == d.document && r.next == d.next
  {
  }

  /** `removeChild`: the node leaves the child list of `q`, if it was in it. */
  lemma DetachList(d: Dom, c: Node, q: Node)
    requires q in d.childNodes && (c in d.parent ==> d.parent[c] in d.childNodes)
    requires c in d.childNodes[q] ==> c in d.parent && d.parent[c] == q
    ensures Detach(d, c).childNodes[q] == Without(d.childNodes[q], c)
  {
  }

  /** `removeChild`: the node leaves every child list, and nothing else changes. */
  lemma DetachLists(d: Dom, c: Node)
    requires Valid(d)
    ensures var r := Detach(d, c);
            && r.kind == d.kind && r.attrs == d.attrs && r.parent == d.parent - {c}
            && r.childNodes.Keys == d.childNodes.Keys
            && forall q :: q in d.childNodes ==> r.childNodes[q] == Without(d.childNodes[q], c)
  {
    DetachShape(d, c);
    forall q | q in d.childNodes ensures Detach(d, c).childNodes[q] == Without(d.childNodes[q], c) {
      DetachList(d, c, q);
    }
  }

  /** What `Valid` says about the links of one node. */
  lemma LinksOf(d: Dom, c: Node)
    requires Valid(d)
    ensures c in d.parent ==> d.parent[c] in d.childNodes
    ensures forall q :: q in d.childNodes && c in d.childNodes[q] ==> c in d.parent && d.parent[c] == q
  {
  }

  /** Unlinking a key and linking it again is linking it. */
  lemma RelinkSame(m: map<Node, Node>, c: Node, p: Node)
    ensures (m - {c})[c := p] == m[c := p]
  {
  }

  /** Moving `c` under `p`: it leaves every list it was in and enters `p`'s at `ref`. */
  lemma SpliceLists(d: Dom, p: Node, c: Node, ref: Option<Node>)
    requires p in d.childNodes && (c in d.parent ==> d.parent[c] in d.childNodes)
    requires forall q :: q in d.childNodes && c in d.childNodes[q] ==> c in d.parent && d.parent[c] == q
    ensures var r := Attach(Detach(d, c), p, c, ref);
            var w := Without(d.childNodes[p], c);
            && r.kind == d.kind && r.attrs == d.attrs && r.parent == d.parent[c := p]
            && r.childNodes.Keys == d.childNodes.Keys
            && r.childNodes[p] == InsertAt(w, InsertionIndex(w, ref), c)
            && forall q :: q in d.childNodes && q != p ==> r.childNodes[q] == Without(d.childNodes[q], c)
  {
    SpliceShape(d, p, c, ref);
    SpliceHere(d, p, c, ref);
    forall q | q in d.childNodes && q != p
      ensures Attach(Detach(d, c), p, c, ref).childNodes[q] == Without(d.childNodes[q], c)
    {
      SpliceElsewhere(d, p, c, ref, q);
    }
  }

  /** Moving `c` under `p` relinks `c` only. */
  lemma SpliceShape(d: Dom, p: Node, c: Node, ref: Option<Node>)
    requires p in d.childNodes && (c in d.parent ==> d.parent[c] in d.childNodes)
    ensures var r := Attach(Detach(d, c), p, c, ref);
            && r.kind == d.kind && r.attrs == d.attrs && r.parent == d.parent[c := p]
            && r.childNodes.Keys == d.childNodes.Keys
  {
    DetachShape(d, c);
    RelinkSame(d.parent, c, p);
  }

  /** Moving `c` under `p`: `p`'s list without `c`, with `c` inserted at `ref`. */
  lemma SpliceHere(d: Dom, p: Node, c: Node, ref: Option<Node>)
    requires p in d.childNodes && (c in d.parent ==> d.parent[c] in d.childNodes)
    requires c in d.childNodes[p] ==> c in d.parent && d.parent[c] == p
    ensures var w := Without(d.childNodes[p], c);
            Attach(Detach(d, c), p, c, ref).childNodes[p] == InsertAt(w, InsertionIndex(w, ref), c)
  {
    DetachShape(d, c);
    DetachList(d, c, p);
  }

  /** Moving `c` under `p`: any other list only loses `c`. */
  lemma SpliceElsewhere(d: Dom, p: Node, c: Node, ref: Option<Node>, q: Node)
    requires p in d.childNodes && q in d.childNodes && q != p && (c in d.parent ==> d.parent[c] in d.childNodes)
    requires c in d.childNodes[q] ==> c in d.parent && d.parent[c] == q
    ensures Attach(Detach(d, c), p, c, ref).childNodes[q] == Without(d.childNodes[q], c)
  {
    DetachShape(d, c);
    DetachList(d, c, q);
  }

  /**
   * A successful `p.insertBefore(c, ref)`: `c` leaves the list it was in and enters
   * `p`'s list before the reference child, and it is now a child of `p`.
   */
  lemma InsertedLists(d: Dom, p: Node, c: Node, ref: Option<Node>)
    requires Valid(d) && p in d.kind && c in d.kind && InsertBefore(d, p, c, ref).Success?
    ensures var r := InsertBefore(d, p, c, ref).value;
            var w := Without(d.childNodes[p], c);
            && r.kind == d.kind && r.attrs == d.attrs && r.parent == d.parent[c := p]
            && r.childNodes.Keys == d.childNodes.Keys
            && r.childNodes[p] == InsertAt(w, InsertionIndex(w, ReferenceChild(d, c, ref)), c)
            && forall q :: q in d.childNodes && q != p ==> r.childNodes[q] == Without(d.childNodes[q], c)
  {
    LinksOf(d, c);
    assert InsertBefore(d, p, c, ref).value == Attach(Detach(d, c), p, c, ReferenceChild(d, c, ref));
    SpliceLists(d, p, c, ReferenceChild(d, c, ref));
  }

  /** In a child list `a + [n] + b`, the node after `n` is the head of `b`. */
  lemma NextInList(d: Dom, p: Node, a: seq<Node>, n: Node, b: seq<Node>)
    requires Valid(d) && p in d.childNodes && d.childNodes[p] == a + [n] + b && n !in a
    ensures NextSibling(d, n) == if b == [] then None else Some(b[0])
  {
    assert n in d.childNodes[p];
    PositionAfter(a, n, b);
  }

  // ---------------------------------------------------------------------------
  // Inserting a list of nodes under one parent

  /**
   * Where each node goes: before a reference child read once (`append` reads none,
   * `prepend` the first child, `before` the target itself), or before whatever follows
   * `el` at the moment of each insertion (`after`).
   */
  datatype Place = Fixed(ref: Option<Node>) | AfterNode(el: Node)

  function RefFor(d: Dom, place: Place): Option<Node> {
    match place
    case Fixed(ref) => ref
    case AfterNode(el) => NextSibling(d, el)
  }

  /**
   * `parentNode.insertBefore(c, ref)` for the nodes `cs[k..]` in order; the first exception
   * stops the loop and is returned with the tree as it was then.
   */
  function Inserted(d: Dom, p: Node, cs: seq<Node>, k: nat, place: Place): (r: (Dom, Option<DomError>))
    requires Valid(d) && p in d.kind && k <= |cs| && forall c :: c in cs ==> c in d.kind
    decreases |cs| - k
  {
    if k == |cs| then (d, None)
    else
      var res := InsertBefore(d, p, cs[k], RefFor(d, place));
      if res.Failure? then (d, Some(res.error))
      else Inserted(res.value, p, cs, k + 1, place)
  }

  /** However far the loop gets, the tree stays well formed and only grows. */
  lemma {:induction false} InsertedValid(d: Dom, p: Node, cs: seq<Node>, k: nat, place: Place)
    requires Valid(d) && p in d.kind && k <= |cs| && forall c :: c in cs ==> c in d.kind
    ensures Valid(Inserted(d, p, cs, k, place).0) && Extends(d, Inserted(d, p, cs, k, place).0)
    decreases |cs| - k
  {
    if k < |cs| {
      var res := InsertBefore(d, p, cs[k], RefFor(d, place));
      if res.Success? {
        InsertedValid(res.value, p, cs, k + 1, place);
        ExtendsTransitive(d, res.value, Inserted(d, p, cs, k, place).0);
      }
    }
  }

  /** The inner `each` of the insertion methods. */
  method InsertChildren(d: Dom, p: Node, cs: seq<Node>, place: Place) returns (d': Dom, e: Option<DomError>)
    requires Valid(d) && p in d.kind && forall c :: c in cs ==> c in d.kind
    ensures (d', e) == Inserted(d, p, cs, 0, place)
  {
    d' := d;
    var i := 0;
    while i < |cs|
      invariant 0 <= i <= |cs| && Valid(d') && p in d'.kind && forall c :: c in cs ==> c in d'.kind
      invariant Inserted(d, p, cs, 0, place) == Inserted(d', p, cs, i, place)
    {
      var res := InsertBefore(d', p, cs[i], RefFor(d', place));
      if res.Failure? {
        return d', Some(res.error);
      }
      d' := res.value;
      i := i + 1;
    }
    e := None;
  }

  /** One step of `Inserted`: stop at an exception, go on after a success. */
  lemma InsertedUnfold(d: Dom, p: Node, cs: seq<Node>, k: nat, place: Place)
    requires Valid(d) && p in d.kind && k < |cs| && forall c :: c in cs ==> c in d.kind
    ensures var res := InsertBefore(d, p, cs[k], RefFor(d, place));
            && (res.Failure? ==> Inserted(d, p, cs, k, place) == (d, Some(res.error)))
            && (res.Success? ==> (forall c :: c in cs ==> c in res.value.kind)
                                 && Inserted(d, p, cs, k, place) == Inserted(res.value, p, cs, k + 1, place))
  {
  }

  /** One append: `c` leaves the list and comes back at its end. */
  lemma StepAtEnd(d: Dom, p: Node, c: Node)
    requires Valid(d) && p in d.kind && c in d.kind && InsertBefore(d, p, c, None).Success?
    ensures InsertBefore(d, p, c, None).value.childNodes[p] == Without(d.childNodes[p], c) + [c]
  {
    InsertedLists(d, p, c, None);
    InsertAtEnd(Without(d.childNodes[p], c), c);
  }

  /** Inserting `c` before `f` in `X + [f] + Y`. */
  lemma BeforeSlot(X: seq<Node>, f: Node, Y: seq<Node>, c: Node)
    requires f !in X && c != f
    ensures var w := Without(X + [f] + Y, c);
            InsertAt(w, InsertionIndex(w, Some(f)), c) == Without(X, c) + [c] + [f] + Without(Y, c)
  {
    WithoutAppend(X + [f], Y, c);
    WithoutAppend(X, [f], c);
    var wx := Without(X, c);
    var wy := Without(Y, c);
    assert Without([f], c) == [f];
    var w := Without(X + [f] + Y, c);
    assert w == wx + [f] + wy;
    PositionAfter(wx, f, wy);
    InsertAtSplit(wx, f, wy, c);
  }

  /** One insertion before the fixed reference child `f`. */
  lemma StepBefore(d: Dom, p: Node, c: Node, f: Node, X: seq<Node>, Y: seq<Node>)
    requires Valid(d) && p in d.kind && c in d.kind && InsertBefore(d, p, c, Some(f)).Success?
    requires d.childNodes[p] == X + [f] + Y && f !in X && c != f
    ensures InsertBefore(d, p, c, Some(f)).value.childNodes[p] == Without(X, c) + [c] + [f] + Without(Y, c)
  {
    InsertedLists(d, p, c, Some(f));
    BeforeSlot(X, f, Y, c);
  }

  /** Inserting `c` after `el` when the node after `el` is not `c`. */
  lemma AfterSlotOther(A: seq<Node>, el: Node, B: seq<Node>, c: Node)
    requires NoDups(A + [el] + B) && c != el && (B == [] || B[0] != c)
    ensures var w := Without(A + [el] + B, c);
            var ref := if B == [] then None else Some(B[0]);
            InsertAt(w, InsertionIndex(w, ref), c) == Without(A, c) + [el] + ([c] + Without(B, c))
  {
    WithoutAppend(A + [el], B, c);
    WithoutAppend(A, [el], c);
    assert Without([el], c) == [el];
    var front := Without(A, c) + [el];
    var w := Without(A + [el] + B, c);
    assert w == front + Without(B, c);
    if B == [] {
      AppendEmpty(front);
      AppendEmpty([c]);
      InsertAtEnd(front, c);
    } else {
      DistinctSplit(A + [el], B);
      assert B[0] !in front;
      var tail := Without(B[1..], c);
      assert B == [B[0]] + B[1..];
      assert Without(B, c) == [B[0]] + tail;
      Assoc3(front, B[0], tail);
      PositionAfter(front, B[0], tail);
      InsertAtSplit(front, B[0], tail, c);
      Assoc4(front, c, B[0], tail);
    }
  }

  /** Inserting `c` after `el` when `c` already follows `el`: it stays where it is. */
  lemma AfterSlotSelf(A: seq<Node>, el: Node, B: seq<Node>, c: Node)
    requires NoDups(A + [el] + B) && B != [] && B[0] == c
    ensures var w := Without(A + [el] + B, c);
            var ref := if |B| == 1 then None else Some(B[1]);
            InsertAt(w, InsertionIndex(w, ref), c) == Without(A, c) + [el] + ([c] + Without(B, c))
  {
    DistinctSplit(A + [el], B);
    var rest := B[1..];
    assert B == [c] + rest;
    DistinctSplit([c], rest);
    WithoutAppend(A + [el], B, c);
    WithoutAppend(A, [el], c);
    var front := A + [el];
    assert Without(A, c) == A;
    assert Without([el], c) == [el];
    assert Without(B, c) == rest;
    var w := Without(A + [el] + B, c);
    assert w == front + rest;
    if |B| == 1 {
      assert rest == [];
      AppendEmpty(front);
      AppendEmpty([c]);
      InsertAtEnd(front, c);
    } else {
      assert front + rest == front + [rest[0]] + rest[1..] by {
        assert rest == [rest[0]] + rest[1..];
        Assoc3(front, rest[0], rest[1..]);
      }
      assert rest[0] !in front;
      PositionAfter(front, rest[0], rest[1..]);
      InsertAtSplit(front, rest[0], rest[1..], c);
      Assoc4(front, c, rest[0], rest[1..]);
    }
  }

  /** One insertion before the node that follows `el`: `c` ends right after `el`. */
  lemma StepAfter(d: Dom, p: Node, el: Node, c: Node, A: seq<Node>, B: seq<Node>)
    requires Valid(d) && p in d.kind && c in d.kind && InsertBefore(d, p, c, NextSibling(d, el)).Success?
    requires d.childNodes[p] == A + [el] + B && el !in A && c != el
    ensures InsertBefore(d, p, c, NextSibling(d, el)).value.childNodes[p] == Without(A, c) + [el] + ([c] + Without(B, c))
  {
    InsertedLists(d, p, c, NextSibling(d, el));
    AfterRef(d, p, el, c, A, B);
    AfterSlot(A, el, B, c);
  }

  /** The reference child `after` passes for `c`: the node after `el`, or after `c` if that is `c`. */
  lemma AfterRef(d: Dom, p: Node, el: Node, c: Node, A: seq<Node>, B: seq<Node>)
    requires Valid(d) && p in d.kind && d.childNodes[p] == A + [el] + B && el !in A
    ensures NoDups(A + [el] + B)
    ensures ReferenceChild(d, c, NextSibling(d, el))
         == if B == [] then None else if B[0] != c then Some(B[0]) else if |B| == 1 then None else Some(B[1])
  {
    NextInList(d, p, A, el, B);
    assert NoDups(d.childNodes[p]);
    if B != [] && B[0] == c {
      DistinctSplit(A + [el], B);
      Regroup(A, el, B);
      NextInList(d, p, A + [el], c, B[1..]);
    }
  }

  lemma Regroup(A: seq<Node>, el: Node, B: seq<Node>)
    requires B != []
    ensures A + [el] + B == (A + [el]) + [B[0]] + B[1..]
  {
  }

  /** Both cases of `after`'s insertion, in the grouping the induction uses. */
  lemma AfterSlot(A: seq<Node>, el: Node, B: seq<Node>, c: Node)
    requires NoDups(A + [el] + B) && c != el
    ensures var w := Without(A + [el] + B, c);
            var ref := if B == [] then None else if B[0] != c then Some(B[0]) else if |B| == 1 then None else Some(B[1]);
            InsertAt(w, InsertionIndex(w, ref), c) == Without(A, c) + [el] + ([c] + Without(B, c))
  {
    var w := Without(A + [el] + B, c);
    if B != [] && B[0] == c {
      AfterSlotSelf(A, el, B, c);
      var ref := if |B| == 1 then None else Some(B[1]);
      assert InsertAt(w, InsertionIndex(w, ref), c) == Without(A, c) + [el] + ([c] + Without(B, c));
    } else {
      AfterSlotOther(A, el, B, c);
      var ref := if B == [] then None else Some(B[0]);
      assert InsertAt(w, InsertionIndex(w, ref), c) == Without(A, c) + [el] + ([c] + Without(B, c));
    }
  }

  // The list algebra of one step, without the tree.

  lemma AtEndAlgebra(L: seq<Node>, c: Node, rest: seq<Node>)
    requires c !in rest
    ensures Except(Without(L, c) + [c], rest) + rest == Except(L, [c] + rest) + ([c] + rest)
  {
    var E := Except(L, [c] + rest);
    ExceptAppend(Without(L, c), [c], rest);
    ExceptDisjoint([c], rest);
    ExceptWithout(L, c, rest);
    assert Except(Without(L, c) + [c], rest) == E + [c];
    Assoc3(E, c, rest);
  }

  lemma BeforeAlgebra(X: seq<Node>, f: Node, Y: seq<Node>, c: Node, rest: seq<Node>)
    requires c !in rest
    ensures Except(Without(X, c) + [c], rest) + rest + [f] + Except(Without(Y, c), rest)
         == Except(X, [c] + rest) + ([c] + rest) + [f] + Except(Y, [c] + rest)
  {
    AtEndAlgebra(X, c, rest);
    ExceptWithout(Y, c, rest);
  }

  lemma AfterAlgebra(A: seq<Node>, el: Node, B: seq<Node>, c: Node, rest: seq<Node>)
    requires c !in rest
    ensures Except(Without(A, c), rest) + [el] + Reverse(rest) + Except([c] + Without(B, c), rest)
         == Except(A, [c] + rest) + [el] + Reverse([c] + rest) + Except(B, [c] + rest)
  {
    var S := Except(A, [c] + rest) + [el];
    var R := Reverse(rest);
    var Q := Except(B, [c] + rest);
    ExceptWithout(A, c, rest);
    ExceptWithout(B, c, rest);
    ExceptAppend([c], Without(B, c), rest);
    ExceptDisjoint([c], rest);
    assert Except([c] + Without(B, c), rest) == [c] + Q;
    ReverseCons(c, rest);
    AppendAssoc(S, R, [c]);
    Assoc3(S + R, c, Q);
  }

  // What a whole successful insertion loop does.

  /** Unfolding one successful step of `Inserted`. */
  lemma InsertedStep(d: Dom, p: Node, cs: seq<Node>, k: nat, place: Place)
    requires Valid(d) && p in d.kind && k < |cs| && forall c :: c in cs ==> c in d.kind
    requires Inserted(d, p, cs, k, place).1.None?
    ensures InsertBefore(d, p, cs[k], RefFor(d, place)).Success?
    ensures var d1 := InsertBefore(d, p, cs[k], RefFor(d, place)).value;
            (forall c :: c in cs ==> c in d1.kind) && Inserted(d, p, cs, k, place) == Inserted(d1, p, cs, k + 1, place)
  {
  }

  /**
   * `append`: when every insertion succeeds, the nodes of `cs[k..]` leave the parent's
   * list and end it, in order.
   */
  lemma {:induction false} InsertedAtEnd(d: Dom, p: Node, cs: seq<Node>, k: nat)
    requires Valid(d) && p in d.kind && k <= |cs| && (forall c :: c in cs ==> c in d.kind) && NoDups(cs)
    requires Inserted(d, p, cs, k, Fixed(None)).1.None?
    ensures p in Inserted(d, p, cs, k, Fixed(None)).0.childNodes
    ensures Inserted(d, p, cs, k, Fixed(None)).0.childNodes[p] == Except(d.childNodes[p], cs[k..]) + cs[k..]
    decreases |cs| - k
  {
    if k == |cs| {
      assert cs[k..] == [];
      ExceptNothing(d.childNodes[p]);
      AppendEmpty(d.childNodes[p]);
    } else {
      var c := cs[k];
      InsertedStep(d, p, cs, k, Fixed(None));
      var d1 := InsertBefore(d, p, c, None).value;
      StepAtEnd(d, p, c);
      InsertedAtEnd(d1, p, cs, k + 1);
      SuffixCons(cs, k);
      DistinctHead(cs, k);
      AtEndAlgebra(d.childNodes[p], c, cs[k + 1..]);
    }
  }

  /**
   * `before` and `prepend`: when every insertion succeeds, the nodes of `cs[k..]` stand,
   * in order, right before the reference child `f`, and nowhere else in the list.
   */
  lemma {:induction false} InsertedBefore(d: Dom, p: Node, cs: seq<Node>, k: nat, f: Node, X: seq<Node>, Y: seq<Node>)
    requires Valid(d) && p in d.kind && k <= |cs| && (forall c :: c in cs ==> c in d.kind) && NoDups(cs)
    requires d.childNodes[p] == X + [f] + Y && f !in X && f !in cs
    requires Inserted(d, p, cs, k, Fixed(Some(f))).1.None?
    ensures p in Inserted(d, p, cs, k, Fixed(Some(f))).0.childNodes
    ensures Inserted(d, p, cs, k, Fixed(Some(f))).0.childNodes[p]
         == Except(X, cs[k..]) + cs[k..] + [f] + Except(Y, cs[k..])
    decreases |cs| - k
  {
    if k == |cs| {
      assert cs[k..] == [];
      BeforeBase(X, f, Y);
    } else {
      var c := cs[k];
      InsertedStep(d, p, cs, k, Fixed(Some(f)));
      var d1 := InsertBefore(d, p, c, Some(f)).value;
      StepBefore(d, p, c, f, X, Y);
      InsertedBefore(d1, p, cs, k + 1, f, Without(X, c) + [c], Without(Y, c));
      SuffixCons(cs, k);
      DistinctHead(cs, k);
      BeforeAlgebra(X, f, Y, c, cs[k + 1..]);
    }
  }

  /**
   * `after`: when every insertion succeeds, the nodes of `cs[k..]` stand right after `el`,
   * in reverse order, since each one is inserted before the one inserted just before it.
   */
  lemma {:induction false} InsertedAfter(d: Dom, p: Node, cs: seq<Node>, k: nat, el: Node, A: seq<Node>, B: seq<Node>)
    requires Valid(d) && p in d.kind && k <= |cs| && (forall c :: c in cs ==> c in d.kind) && NoDups(cs)
    requires d.childNodes[p] == A + [el] + B && el !in A && el !in cs
    requires Inserted(d, p, cs, k, AfterNode(el)).1.None?
    ensures p in Inserted(d, p, cs, k, AfterNode(el)).0.childNodes
    ensures Inserted(d, p, cs, k, AfterNode(el)).0.childNodes[p]
         == Except(A, cs[k..]) + [el] + Reverse(cs[k..]) + Except(B, cs[k..])
    decreases |cs| - k
  {
    if k == |cs| {
      assert cs[k..] == [];
      AfterBase(A, el, B);
    } else {
      var c := cs[k];
      InsertedStep(d, p, cs, k, AfterNode(el));
      var d1 := InsertBefore(d, p, c, NextSibling(d, el)).value;
      StepAfter(d, p, el, c, A, B);
      InsertedAfter(d1, p, cs, k + 1, el, Without(A, c), [c] + Without(B, c));
      SuffixCons(cs, k);
      DistinctHead(cs, k);
      AfterAlgebra(A, el, B, c, cs[k + 1..]);
    }
  }

  lemma BeforeBase(X: seq<Node>, f: Node, Y: seq<Node>)
    ensures Except(X, []) + [] + [f] + Except(Y, []) == X + [f] + Y
  {
    ExceptNothing(X);
    ExceptNothing(Y);
    AppendEmpty(X);
  }

  lemma AfterBase(A: seq<Node>, el: Node, B: seq<Node>)
    ensures Except(A, []) + [el] + Reverse([]) + Except(B, []) == A + [el] + B
  {
    ExceptNothing(A);
    ExceptNothing(B);
  }

  /** The parent links after each node of `s` in turn is made a child of `p`. */
  function Relinked(m: map<Node, Node>, s: seq<Node>, p: Node): (r: map<Node, Node>)
    decreases |s|
  {
    if s == [] then m else Relinked(m[s[0] := p], s[1..], p)
  }

  /** Every node of `s` ends a child of `p`; every other link is kept. */
  lemma {:induction false} RelinkedLinks(m: map<Node, Node>, s: seq<Node>, p: Node)
    ensures var r := Relinked(m, s, p);
            && (forall c :: c in s ==> c in r && r[c] == p)
            && (forall x :: x !in s ==> (x in r <==> x in m) && (x in m ==> r[x] == m[x]))
    decreases |s|
  {
    if s != [] {
      var m1 := m[s[0] := p];
      RelinkedLinks(m1, s[1..], p);
      var r := Relinked(m, s, p);
      forall c | c in s ensures c in r && r[c] == p {
        if c !in s[1..] {
          assert c == s[0] && c in m1 && m1[c] == p;
        }
      }
      forall x | x !in s ensures (x in r <==> x in m) && (x in m ==> r[x] == m[x]) {
        assert x != s[0] && x !in s[1..];
      }
    }
  }

  /**
   * One successful step of the loop, as a tree `d1` and the loop's final tree `r`: the
   * links `d1` has after `cs[k]` moved under `p`, and `r` reached from `d1` by the rest.
   */
  lemma InsertedNext(d: Dom, p: Node, cs: seq<Node>, k: nat, place: Place) returns (d1: Dom, r: Dom)
    requires Valid(d) && p in d.kind && k < |cs| && forall c :: c in cs ==> c in d.kind
    requires Inserted(d, p, cs, k, place).1.None?
    ensures Valid(d1) && p in d1.kind && (forall c :: c in cs ==> c in d1.kind)
    ensures Inserted(d1, p, cs, k + 1, place).1.None?
    ensures r == Inserted(d, p, cs, k, place).0 && r == Inserted(d1, p, cs, k + 1, place).0
    ensures d1.kind == d.kind && d1.attrs == d.attrs && d1.parent == d.parent[cs[k] := p]
    ensures d1.childNodes.Keys == d.childNodes.Keys
    ensures forall q :: q in d.childNodes && q != p ==> d1.childNodes[q] == Without(d.childNodes[q], cs[k])
  {
    InsertedStep(d, p, cs, k, place);
    d1 := InsertBefore(d, p, cs[k], RefFor(d, place)).value;
    InsertedLists(d, p, cs[k], RefFor(d, place));
    r := Inserted(d, p, cs, k, place).0;
  }

  /**
   * Whatever the place, a successful loop leaves kinds and attributes alone and makes each
   * node of `cs[k..]` in turn a child of `p`.
   */
  lemma {:induction false} InsertedParents(d: Dom, p: Node, cs: seq<Node>, k: nat, place: Place)
    requires Valid(d) && p in d.kind && k <= |cs| && forall c :: c in cs ==> c in d.kind
    requires Inserted(d, p, cs, k, place).1.None?
    ensures var r := Inserted(d, p, cs, k, place).0;
            && r.kind == d.kind && r.attrs == d.attrs && r.childNodes.Keys == d.childNodes.Keys
            && r.parent == Relinked(d.parent, cs[k..], p)
    decreases |cs| - k
  {
    if k == |cs| {
      assert cs[k..] == [];
    } else {
      var c := cs[k];
      var d1, r := InsertedNext(d, p, cs, k, place);
      InsertedParents(d1, p, cs, k + 1, place);
      SuffixCons(cs, k);
      assert cs[k..][0] == c && cs[k..][1..] == cs[k + 1..];
      assert Relinked(d.parent, cs[k..], p) == Relinked(d1.parent, cs[k + 1..], p);
    }
  }

  /** Whatever the place, a successful loop removes the nodes of `cs[k..]` from every other list. */
  lemma {:induction false} InsertedOtherLists(d: Dom, p: Node, cs: seq<Node>, k: nat, place: Place)
    requires Valid(d) && p in d.kind && k <= |cs| && forall c :: c in cs ==> c in d.kind
    requires Inserted(d, p, cs, k, place).1.None?
    ensures var r := Inserted(d, p, cs, k, place).0;
            forall q :: q in d.childNodes && q != p ==> q in r.childNodes && r.childNodes[q] == Except(d.childNodes[q], cs[k..])
    decreases |cs| - k
  {
    if k == |cs| {
      assert cs[k..] == [];
      forall q | q in d.childNodes ensures Except(d.childNodes[q], cs[k..]) == d.childNodes[q] {
        ExceptNothing(d.childNodes[q]);
      }
    } else {
      var c := cs[k];
      var d1, r := InsertedNext(d, p, cs, k, place);
      InsertedOtherLists(d1, p, cs, k + 1, place);
      SuffixCons(cs, k);
      forall q | q in d.childNodes && q != p
        ensures q in r.childNodes && r.childNodes[q] == Except(d.childNodes[q], cs[k..])
      {
        assert q in d1.childNodes && d1.childNodes[q] == Without(d.childNodes[q], c);
        ExceptWithout(d.childNodes[q], c, cs[k + 1..]);
      }
    }
  }

  // ---------------------------------------------------------------------------
  // append, prepend, before, after

  datatype Op = AppendOp | PrependOp | BeforeOp | AfterOp

  /**
   * The parent one target's nodes go under, read before `toPablo` runs: the target itself
   * for `append` and `prepend`, its parent for `before` and `after`, which skip a target
   * without one.
   */
  function ParentFor(d: Dom, el: Node, op: Op): Option<Node> {
    if op == AppendOp || op == PrependOp then Some(el)
    else if el in d.parent then Some(d.parent[el])
    else None
  }

  /** Where they go, also read before `toPablo` runs (`prepend` reads the first child here). */
  function PlaceFor(d: Dom, el: Node, op: Op): Place {
    match op
    case AppendOp => Fixed(None)
    case PrependOp => Fixed(FirstChild(d, el))
    case BeforeOp => Fixed(Some(el))
    case AfterOp => AfterNode(el)
  }

  /** The parent a target names exists. */
  lemma ParentKnown(d: Dom, el: Node, op: Op)
    requires Valid(d) && el in d.kind
    ensures ParentFor(d, el, op).Some? ==> ParentFor(d, el, op).value in d.kind
  {
  }

  /** Nodes that may go into a collection exist in the tree. */
  lemma AddableKnown(d: Dom, s: seq<Node>)
    requires forall c :: c in s ==> Addable(d, c)
    ensures forall c :: c in s ==> c in d.kind
  {
  }

  /** What follows `toPablo`: its exception, or the insertion of its nodes. */
  function InsertAll(t: (Dom, seq<Node>, Option<DomError>), p: Node, place: Place): (r: (Dom, Option<DomError>))
    requires Valid(t.0) && p in t.0.kind && forall c :: c in t.1 ==> Addable(t.0, c)
  {
    if t.2.Some? then (t.0, t.2)
    else
      AddableKnown(t.0, t.1);
      Inserted(t.0, p, t.1, 0, place)
  }

  lemma InsertAllValid(t: (Dom, seq<Node>, Option<DomError>), p: Node, place: Place)
    requires Valid(t.0) && p in t.0.kind && forall c :: c in t.1 ==> Addable(t.0, c)
    ensures Valid(InsertAll(t, p, place).0) && Extends(t.0, InsertAll(t, p, place).0)
  {
    InsertedValid(t.0, p, t.1, 0, place);
  }

  /**
   * The body of the outer `each` for one target `el`: `toPablo(node, attr)` is evaluated
   * afresh, then each of its nodes is inserted.
   */
  function OnTarget(d: Dom, el: Node, op: Op, x: Item, attr: Option<Props>): (r: (Dom, Option<DomError>))
    requires Valid(d) && el in d.kind && ItemIn(d, x)
  {
    var parent := ParentFor(d, el, op);
    if parent.None? then (d, None)
    else
      ParentKnown(d, el, op);
      InsertAll(ToPablo(d, x, attr), parent.value, PlaceFor(d, el, op))
  }

  lemma OnTargetValid(d: Dom, el: Node, op: Op, x: Item, attr: Option<Props>)
    requires Valid(d) && el in d.kind && ItemIn(d, x)
    ensures Valid(OnTarget(d, el, op, x, attr).0) && Extends(d, OnTarget(d, el, op, x, attr).0)
  {
    var parent := ParentFor(d, el, op);
    if parent.Some? {
      ParentKnown(d, el, op);
      var t := ToPablo(d, x, attr);
        InsertAllValid(t, parent.value, PlaceFor(d, el, op));
      ExtendsTransitive(d, t.0, OnTarget(d, el, op, x, attr).0);
    }
  }

  /** What follows `toPablo` for one target. */
  method InsertAllOf(t: (Dom, seq<Node>, Option<DomError>), p: Node, place: Place) returns (d': Dom, e: Option<DomError>)
    requires Valid(t.0) && p in t.0.kind && forall c :: c in t.1 ==> Addable(t.0, c)
    ensures (d', e) == InsertAll(t, p, place)
  {
    if t.2.Some? {
      return t.0, t.2;
    }
    d', e := InsertChildren(t.0, p, t.1, place);
  }

  /** One target of the outer `each`. */
  method ManipulateOne(d: Dom, el: Node, op: Op, x: Item, attr: Option<Props>) returns (d': Dom, e: Option<DomError>)
    requires Valid(d) && el in d.kind && ItemIn(d, x)
    ensures (d', e) == OnTarget(d, el, op, x, attr)
  {
    var parent := ParentFor(d, el, op);
    if parent.None? {
      return d, None;
    }
    ParentKnown(d, el, op);
    var t := ToPablo(d, x, attr);
    d', e := InsertAllOf(t, parent.value, PlaceFor(d, el, op));
  }

  /** Nodes and values that exist in a tree exist in every later state of it. */
  lemma StillThere(d: Dom, d1: Dom, s: seq<Node>, x: Item)
    requires Extends(d, d1) && (forall n :: n in s ==> n in d.kind) && ItemIn(d, x)
    ensures (forall n :: n in s ==> n in d1.kind) && ItemIn(d1, x)
  {
    ItemInExtends(d, d1, x);
  }

  /** `append`, `prepend`, `before` or `after` on the targets `s[k..]`, stopping at an exception. */
  function Manipulated(d: Dom, s: seq<Node>, k: nat, op: Op, x: Item, attr: Option<Props>): (r: (Dom, Option<DomError>))
    requires Valid(d) && k <= |s| && (forall n :: n in s ==> n in d.kind) && ItemIn(d, x)
    decreases |s| - k
  {
    if k == |s| then (d, None)
    else
      var r := OnTarget(d, s[k], op, x, attr);
      if r.1.Some? then r
      else
        OnTargetValid(d, s[k], op, x, attr);
        StillThere(d, r.0, s, x);
        Manipulated(r.0, s, k + 1, op, x, attr)
  }

  /** The first remaining target: it leaves a well-formed, larger tree, and the rest starts from there. */
  lemma ManipulatedNext(d: Dom, s: seq<Node>, k: nat, op: Op, x: Item, attr: Option<Props>)
    requires Valid(d) && k < |s| && (forall n :: n in s ==> n in d.kind) && ItemIn(d, x)
    ensures var r := OnTarget(d, s[k], op, x, attr);
            && Valid(r.0) && Extends(d, r.0) && (forall n :: n in s ==> n in r.0.kind) && ItemIn(r.0, x)
            && Manipulated(d, s, k, op, x, attr) == if r.1.Some? then r else Manipulated(r.0, s, k + 1, op, x, attr)
  {
    var r := OnTarget(d, s[k], op, x, attr);
    OnTargetValid(d, s[k], op, x, attr);
    StillThere(d, r.0, s, x);
  }

  /** `append`, `prepend`, `before` and `after`: the outer `each` over the collection. */
  method Manipulate(d: Dom, s: seq<Node>, op: Op, x: Item, attr: Option<Props>) returns (d': Dom, e: Option<DomError>)
    requires Valid(d) && (forall n :: n in s ==> n in d.kind) && ItemIn(d, x)
    ensures (d', e) == Manipulated(d, s, 0, op, x, attr)
    ensures Valid(d') && Extends(d, d')
  {
    d' := d;
    var i := 0;
    while i < |s|
      invariant 0 <= i <= |s| && Valid(d') && Extends(d, d') && (forall n :: n in s ==> n in d'.kind) && ItemIn(d', x)
      invariant Manipulated(d, s, 0, op, x, attr) == Manipulated(d', s, i, op, x, attr)
    {
      var d1, e1 := ManipulateStep(d, d', s, i, op, x, attr);
      if e1.Some? {
        return d1, e1;
      }
      d' := d1;
      i := i + 1;
    }
    e := None;
  }

  /** One turn of the outer `each`: the target `s[i]`, and how the rest goes on from there. */
  method ManipulateStep(d0: Dom, d: Dom, s: seq<Node>, i: nat, op: Op, x: Item, attr: Option<Props>) returns (d': Dom, e: Option<DomError>)
    requires Valid(d) && Extends(d0, d) && i < |s| && (forall n :: n in s ==> n in d.kind) && ItemIn(d, x)
    ensures Valid(d') && Extends(d0, d') && (forall n :: n in s ==> n in d'.kind) && ItemIn(d', x)
    ensures e.Some? ==> Manipulated(d, s, i, op, x, attr) == (d', e)
    ensures e.None? ==> Manipulated(d, s, i, op, x, attr) == Manipulated(d', s, i + 1, op, x, attr)
  {
    d', e := ManipulateOne(d, s[i], op, x, attr);
    ManipulatedNext(d, s, i, op, x, attr);
    ExtendsTransitive(d0, d, d');
  }

  // What happens to a collection passed to several targets

  /**
   * A target that has a parent, given a collection `cs`: its nodes are inserted as they
   * are, so only their parent links change, each to the target's parent.
   */
  lemma OnTargetMoves(d: Dom, el: Node, op: Op, cs: seq<Node>)
    requires Valid(d) && el in d.kind && (forall c :: c in cs ==> Addable(d, c))
    requires ParentFor(d, el, op).Some? && OnTarget(d, el, op, Wrapped(cs), None).1.None?
    ensures var p := ParentFor(d, el, op).value;
            && p in d.kind && (forall c :: c in cs ==> c in d.kind)
            && OnTarget(d, el, op, Wrapped(cs), None).0 == Inserted(d, p, cs, 0, PlaceFor(d, el, op)).0
            && Inserted(d, p, cs, 0, PlaceFor(d, el, op)).1.None?
            && OnTarget(d, el, op, Wrapped(cs), None).0.kind == d.kind
            && OnTarget(d, el, op, Wrapped(cs), None).0.parent == Relinked(d.parent, cs, p)
  {
    var p := ParentFor(d, el, op).value;
    ParentKnown(d, el, op);
    AddableKnown(d, cs);
    assert ToPablo(d, Wrapped(cs), None) == (d, cs, None);
    InsertedParents(d, p, cs, 0, PlaceFor(d, el, op));
    assert cs[0..] == cs;
  }

  /** Moving the nodes of `cs` leaves the parent every other target names as it was. */
  lemma ParentsForKept(d: Dom, r: Dom, s: seq<Node>, op: Op, cs: seq<Node>, p: Node)
    requires r.parent == Relinked(d.parent, cs, p) && forall n :: n in s ==> n !in cs
    ensures forall i :: 0 <= i < |s| ==> ParentFor(r, s[i], op) == ParentFor(d, s[i], op)
  {
    RelinkedLinks(d.parent, cs, p);
    forall i | 0 <= i < |s| ensures ParentFor(r, s[i], op) == ParentFor(d, s[i], op) {
      assert s[i] in s;
    }
  }

  /** Targets without a parent change nothing. */
  lemma {:induction false} Quiet(d: Dom, s: seq<Node>, k: nat, op: Op, x: Item)
    requires Valid(d) && k <= |s| && (forall n :: n in s ==> n in d.kind) && ItemIn(d, x)
    requires forall i :: k <= i < |s| ==> ParentFor(d, s[i], op).None?
    ensures Manipulated(d, s, k, op, x, None) == (d, None)
    decreases |s| - k
  {
    if k < |s| {
      ManipulatedNext(d, s, k, op, x, None);
      Quiet(d, s, k + 1, op, x);
    }
  }

  /**
   * When a collection `cs` is given to the targets `s[k..]`, none of them in `cs`, and the
   * last target with a parent is `s[j]`: the run ends with the insertions at `s[j]`, made
   * in a tree `dj` where the nodes have their old kinds and the targets their old parents.
   */
  lemma {:induction false} LastTarget(d: Dom, s: seq<Node>, k: nat, op: Op, cs: seq<Node>, j: nat) returns (dj: Dom)
    requires Valid(d) && k <= j < |s| && (forall n :: n in s ==> n in d.kind && n !in cs)
    requires forall c :: c in cs ==> Addable(d, c)
    requires ParentFor(d, s[j], op).Some? && forall i :: j < i < |s| ==> ParentFor(d, s[i], op).None?
    requires Manipulated(d, s, k, op, Wrapped(cs), None).1.None?
    ensures Valid(dj) && dj.kind == d.kind && (forall c :: c in cs ==> Addable(dj, c))
    ensures forall i :: 0 <= i < |s| ==> ParentFor(dj, s[i], op) == ParentFor(d, s[i], op)
    ensures OnTarget(dj, s[j], op, Wrapped(cs), None).1.None?
    ensures Manipulated(d, s, k, op, Wrapped(cs), None) == OnTarget(dj, s[j], op, Wrapped(cs), None)
    decreases j - k
  {
    ManipulatedNext(d, s, k, op, Wrapped(cs), None);
    var r := OnTarget(d, s[k], op, Wrapped(cs), None);
    if k == j {
      dj := d;
      assert s[j] in s;
      OnTargetMoves(d, s[j], op, cs);
      ParentsForKept(d, r.0, s, op, cs, ParentFor(d, s[j], op).value);
      Quiet(r.0, s, k + 1, op, Wrapped(cs));
    } else {
      assert r.1.None?;
      if ParentFor(d, s[k], op).Some? {
        assert s[k] in s;
        OnTargetMoves(d, s[k], op, cs);
        ParentsForKept(d, r.0, s, op, cs, ParentFor(d, s[k], op).value);
      }
      dj := LastTarget(r.0, s, k + 1, op, cs, j);
    }
  }

  /**
   * A collection given to several targets is moved from target to target: after a run
   * without exceptions, every one of its nodes is a child of the parent named by the last
   * target that has one, whatever the earlier targets were.
   */
  lemma SharedSetMoves(d: Dom, s: seq<Node>, op: Op, cs: seq<Node>, j: nat)
    requires Valid(d) && j < |s| && (forall n :: n in s ==> n in d.kind && n !in cs)
    requires forall c :: c in cs ==> Addable(d, c)
    requires ParentFor(d, s[j], op).Some? && forall i :: j < i < |s| ==> ParentFor(d, s[i], op).None?
    requires Manipulated(d, s, 0, op, Wrapped(cs), None).1.None?
    ensures var r := Manipulated(d, s, 0, op, Wrapped(cs), None).0;
            forall c :: c in cs ==> c in r.parent && r.parent[c] == ParentFor(d, s[j], op).value
  {
    var dj := LastTarget(d, s, 0, op, cs, j);
    assert s[j] in dj.kind;
    OnTargetMoves(dj, s[j], op, cs);
    RelinkedLinks(dj.parent, cs, ParentFor(d, s[j], op).value);
  }

  /**
   * With `append`, the collection ends up at the end of the last target's child list, in
   * its own order.
   */
  lemma SharedSetAppended(d: Dom, s: seq<Node>, cs: seq<Node>)
    requires Valid(d) && s != [] && (forall n :: n in s ==> n in d.kind && n !in cs)
    requires NoDups(cs) && forall c :: c in cs ==> Addable(d, c)
    requires Manipulated(d, s, 0, AppendOp, Wrapped(cs), None).1.None?
    ensures var r := Manipulated(d, s, 0, AppendOp, Wrapped(cs), None).0;
            && s[|s| - 1] in r.childNodes && |cs| <= |r.childNodes[s[|s| - 1]]|
            && r.childNodes[s[|s| - 1]][|r.childNodes[s[|s| - 1]]| - |cs|..] == cs
  {
    var j := |s| - 1;
    var dj := LastTarget(d, s, 0, AppendOp, cs, j);
    var el := s[j];
    assert el in s;
    OnTargetMoves(dj, el, AppendOp, cs);
    InsertedAtEnd(dj, el, cs, 0);
    assert cs[0..] == cs;
    var L := Except(dj.childNodes[el], cs) + cs;
    assert L[|L| - |cs|..] == cs;
  }

  /** In the list `L`, the first occurrence of `el` is followed right away by `R`. */
  ghost predicate FollowedBy(L: seq<Node>, el: Node, R: seq<Node>) {
    var i := Position(L, el);
    i + |R| < |L| && L[i + 1..i + 1 + |R|] == R
  }

  /**
   * With `after`, the collection ends up right behind the last target that has a parent,
   * in reverse order.
   */
  lemma SharedSetAfter(d: Dom, s: seq<Node>, cs: seq<Node>, j: nat)
    requires Valid(d) && j < |s| && (forall n :: n in s ==> n in d.kind && n !in cs)
    requires NoDups(cs) && forall c :: c in cs ==> Addable(d, c)
    requires ParentFor(d, s[j], AfterOp).Some? && forall i :: j < i < |s| ==> ParentFor(d, s[i], AfterOp).None?
    requires Manipulated(d, s, 0, AfterOp, Wrapped(cs), None).1.None?
    ensures var r := Manipulated(d, s, 0, AfterOp, Wrapped(cs), None).0;
            var p := ParentFor(d, s[j], AfterOp).value;
            p in r.childNodes && FollowedBy(r.childNodes[p], s[j], Reverse(cs))
  {
    var dj := LastTarget(d, s, 0, AfterOp, cs, j);
    assert s[j] in s;
    assert ParentFor(dj, s[j], AfterOp) == ParentFor(d, s[j], AfterOp);
    AfterOneTarget(dj, s[j], cs);
  }

  /** `after` at one target with a parent, given a collection: its nodes follow the target in reverse order. */
  lemma AfterOneTarget(d: Dom, el: Node, cs: seq<Node>)
    requires Valid(d) && el in d.kind && el !in cs && NoDups(cs) && forall c :: c in cs ==> Addable(d, c)
    requires ParentFor(d, el, AfterOp).Some? && OnTarget(d, el, AfterOp, Wrapped(cs), None).1.None?
    ensures var r := OnTarget(d, el, AfterOp, Wrapped(cs), None).0;
            var p := ParentFor(d, el, AfterOp).value;
            p in r.childNodes && FollowedBy(r.childNodes[p], el, Reverse(cs))
  {
    var p := ParentFor(d, el, AfterOp).value;
    OnTargetMoves(d, el, AfterOp, cs);
    assert PlaceFor(d, el, AfterOp) == AfterNode(el);
    var L0 := d.childNodes[p];
    assert el in L0 by {
      assert d.parent[el] == p;
    }
    AfterList(L0, el, cs);
    var k := Position(L0, el);
    assert cs[0..] == cs;
    InsertedAfter(d, p, cs, 0, el, L0[..k], L0[k + 1..]);
  }

  /**
   * Splitting a child list at `el` and putting `cs`, reversed, right after it: `el` keeps
   * its first position and the reversed nodes follow it.
   */
  lemma AfterList(L0: seq<Node>, el: Node, cs: seq<Node>)
    requires el in L0
    ensures var k := Position(L0, el);
            L0 == L0[..k] + [el] + L0[k + 1..] && el !in L0[..k]
    ensures var k := Position(L0, el);
            FollowedBy(Except(L0[..k], cs) + [el] + Reverse(cs) + Except(L0[k + 1..], cs), el, Reverse(cs))
  {
    var k := Position(L0, el);
    assert L0 == L0[..k] + [el] + L0[k + 1..];
    AfterPosition(Except(L0[..k], cs), el, Reverse(cs), Except(L0[k + 1..], cs));
  }

  /** In `A + [el] + R + B` with `el` not in `A`, `el` is at `|A|` and `R` follows it. */
  lemma AfterPosition(A: seq<Node>, el: Node, R: seq<Node>, B: seq<Node>)
    requires el !in A
    ensures FollowedBy(A + [el] + R + B, el, R)
  {
    var L := A + [el] + R + B;
    PositionIs(L, el, |A|);
    assert L[|A| + 1..|A| + 1 + |R|] == R;
  }

  /**
   * `appendTo`, `prependTo`, `insertBefore` and `insertAfter`: the collection `s` is
   * inserted, as it is, at every node of `toPablo(node, attr)`, unless `toPablo` raises.
   */
  function IntoResult(d: Dom, s: seq<Node>, op: Op, node: Item, attr: Option<Props>): (Dom, Option<DomError>)
    requires Valid(d) && ItemIn(d, node) && forall n :: n in s ==> Addable(d, n)
  {
    var t := ToPablo(d, node, attr);
    if t.2.Some? then (t.0, t.2)
    else
      ItemInExtends(d, t.0, Wrapped(s));
      Manipulated(t.0, t.1, 0, op, Wrapped(s), None)
  }

  /** `appendTo` and its kin, run step by step. */
  method InsertInto(d: Dom, s: seq<Node>, op: Op, node: Item, attr: Option<Props>) returns (d': Dom, e: Option<DomError>)
    requires Valid(d) && ItemIn(d, node) && forall n :: n in s ==> Addable(d, n)
    ensures (d', e) == IntoResult(d, s, op, node, attr)
    ensures Valid(d') && Extends(d, d')
  {
    var t := ToPablo(d, node, attr);
    if t.2.Some? {
      return t.0, t.2;
    }
    IntoUnfold(d, s, op, node, attr, t);
    d', e := Manipulate(t.0, t.1, op, Wrapped(s), None);
    ExtendsTransitive(d, t.0, d');
  }

  /** Past `toPablo`, the insertion is the outer loop over its nodes. */
  lemma IntoUnfold(d: Dom, s: seq<Node>, op: Op, node: Item, attr: Option<Props>, t: (Dom, seq<Node>, Option<DomError>))
    requires Valid(d) && ItemIn(d, node) && forall n :: n in s ==> Addable(d, n)
    requires t == ToPablo(d, node, attr) && t.2.None?
    ensures Valid(t.0) && Extends(d, t.0) && ItemIn(t.0, Wrapped(s)) && forall n :: n in t.1 ==> n in t.0.kind
    ensures IntoResult(d, s, op, node, attr) == Manipulated(t.0, t.1, 0, op, Wrapped(s), None)
  {
    ItemInExtends(d, t.0, Wrapped(s));
    AddableKnown(t.0, t.1);
  }

  /**
   * `child(node, attr)`: the nodes `cs` of `toPablo(node, attr)` are appended to every node
   * of the collection, and `cs` is the result.
   */
  function ChildResult(d: Dom, s: seq<Node>, node: Item, attr: Option<Props>): (Dom, seq<Node>, Option<DomError>)
    requires Valid(d) && ItemIn(d, node) && forall n :: n in s ==> Addable(d, n)
  {
    var t := ToPablo(d, node, attr);
    if t.2.Some? then t
    else
      ItemInExtends(d, t.0, Wrapped(s));
      var r := IntoResult(t.0, t.1, AppendOp, Wrapped(s), None);
      (r.0, t.1, r.1)
  }

  /** `child`, run step by step. */
  method Child(d: Dom, s: seq<Node>, node: Item, attr: Option<Props>) returns (d': Dom, cs: seq<Node>, e: Option<DomError>)
    requires Valid(d) && ItemIn(d, node) && forall n :: n in s ==> Addable(d, n)
    ensures (d', cs, e) == ChildResult(d, s, node, attr)
    ensures Valid(d') && Extends(d, d')
  {
    var t := ToPablo(d, node, attr);
    cs := t.1;
    if t.2.Some? {
      return t.0, cs, t.2;
    }
    ChildUnfold(d, s, node, attr, t);
    d', e := InsertInto(t.0, cs, AppendOp, Wrapped(s), None);
    ExtendsTransitive(d, t.0, d');
  }

  /** Past `toPablo`, `child` is `appendTo` with the roles swapped. */
  lemma ChildUnfold(d: Dom, s: seq<Node>, node: Item, attr: Option<Props>, t: (Dom, seq<Node>, Option<DomError>))
    requires Valid(d) && ItemIn(d, node) && forall n :: n in s ==> Addable(d, n)
    requires t == ToPablo(d, node, attr) && t.2.None?
    ensures Valid(t.0) && Extends(d, t.0) && ItemIn(t.0, Wrapped(s)) && forall n :: n in t.1 ==> Addable(t.0, n)
    ensures var r := IntoResult(t.0, t.1, AppendOp, Wrapped(s), None);
            ChildResult(d, s, node, attr) == (r.0, t.1, r.1)
  {
    ItemInExtends(d, t.0, Wrapped(s));
  }

  // ---------------------------------------------------------------------------
  // remove

  /** The tree after `removeChild` on each node of `s` that has a parent, in order. */
  function Removed(d: Dom, s: seq<Node>): (r: Dom)
    requires Valid(d)
    ensures Valid(r) && Extends(d, r)
    decreases |s|
  {
    if s == [] then d
    else
      var d1 := Removed(d, s[..|s| - 1]);
      DetachValid(d1, s[|s| - 1]);
      ExtendsTransitive(d, d1, Detach(d1, s[|s| - 1]));
      Detach(d1, s[|s| - 1])
  }

  /** The last `removeChild` of `remove`: what it changes in the tree the earlier ones left. */
  lemma RemovedLast(d: Dom, s: seq<Node>) returns (d1: Dom)
    requires Valid(d) && s != []
    ensures d1 == Removed(d, s[..|s| - 1]) && Valid(d1)
    ensures var r := Removed(d, s);
            var c := s[|s| - 1];
            && r.kind == d1.kind && r.attrs == d1.attrs && r.parent == d1.parent - {c}
            && r.childNodes.Keys == d1.childNodes.Keys
            && forall q :: q in d1.childNodes ==> r.childNodes[q] == Without(d1.childNodes[q], c)
  {
    d1 := Removed(d, s[..|s| - 1]);
    DetachLists(d1, s[|s| - 1]);
  }

  /** After `remove`, every node of `s` is detached and every other node keeps its parent. */
  lemma {:induction false} RemovedParents(d: Dom, s: seq<Node>)
    requires Valid(d)
    ensures var r := Removed(d, s);
            && r.kind == d.kind && r.attrs == d.attrs && r.childNodes.Keys == d.childNodes.Keys
            && (forall n :: n in s ==> n !in r.parent)
            && (forall m :: m !in s ==> (m in r.parent <==> m in d.parent))
            && (forall m :: m !in s && m in d.parent ==> r.parent[m] == d.parent[m])
    decreases |s|
  {
    if s != [] {
      var d1 := RemovedLast(d, s);
      RemovedParents(d, s[..|s| - 1]);
      FrontLast(s);
    }
  }

  /**
   * After `remove`, every node of `s` is detached, every other node keeps its parent,
   * and each child list is the old one without the nodes of `s`, in the old order.
   */
  lemma {:induction false} RemovedLists(d: Dom, s: seq<Node>)
    requires Valid(d)
    ensures var r := Removed(d, s);
            && r.kind == d.kind && r.attrs == d.attrs && r.childNodes.Keys == d.childNodes.Keys
            && (forall q :: q in d.childNodes ==> r.childNodes[q] == Except(d.childNodes[q], s))
            && (forall n :: n in s ==> n !in r.parent)
            && (forall m :: m !in s ==> (m in r.parent <==> m in d.parent))
            && (forall m :: m !in s && m in d.parent ==> r.parent[m] == d.parent[m])
    decreases |s|
  {
    RemovedParents(d, s);
    if s == [] {
      forall q | q in d.childNodes ensures Except(d.childNodes[q], s) == d.childNodes[q] {
        ExceptNothing(d.childNodes[q]);
      }
    } else {
      var init := s[..|s| - 1];
      var c := s[|s| - 1];
      var d1 := RemovedLast(d, s);
      RemovedLists(d, init);
      FrontLast(s);
      forall q | q in d.childNodes ensures Removed(d, s).childNodes[q] == Except(d.childNodes[q], s) {
        ExceptSnoc(d.childNodes[q], init, c);
      }
    }
  }

  /** `remove()`: each node with a parent is removed from it. */
  method Remove(d: Dom, s: seq<Node>) returns (d': Dom)
    requires Valid(d)
    ensures d' == Removed(d, s)
  {
    d' := d;
    var i := 0;
    while i < |s|
      invariant 0 <= i <= |s|
      invariant d' == Removed(d, s[..i])
    {
      PrefixOfPrefix(s, i);
      var el := s[i];
      if el in d'.parent {
        d' := Detach(d', el);
      }
      i := i + 1;
    }
    WholePrefix(s);
  }

  // ---------------------------------------------------------------------------
  // empty

  /** `empty()` as written: `children().remove()`, which misses the text children. */
  method EmptyAsWritten(d: Dom, s: seq<Node>) returns (d': Dom)
    requires Valid(d) && forall n :: n in s ==> n in d.kind
    ensures d' == Removed(d, Related(d, s, Children, Once))
  {
    var children := Gather(d, s, Children, Once);
    d' := Remove(d, children);
  }

  /**
   * `children()` drops text nodes (a text node is array-like and contributes nothing when
   * pushed), so a text child of a node of the collection survives `empty` as written.
   */
  lemma EmptyKeepsText(d: Dom, s: seq<Node>, n: Node, t: Node)
    requires Valid(d) && (forall m :: m in s ==> m in d.kind) && n in s
    requires t in d.childNodes[n] && d.kind[t].Text?
    ensures t in Removed(d, Related(d, s, Children, Once)).childNodes[n]
  {
    var related := Related(d, s, Children, Once);
    RelatedNodes(d, s, Children, Once);
    RemovedLists(d, related);
    assert t !in related;
  }

  /** The tree after removing, for each node of `s` in turn, every child node it has. */
  function Emptied(d: Dom, s: seq<Node>): (r: Dom)
    requires Valid(d)
    ensures Valid(r) && Extends(d, r)
    decreases |s|
  {
    if s == [] then d
    else
      var d1 := Emptied(d, s[..|s| - 1]);
      var r := Removed(d1, ChildrenOf(d1, s[|s| - 1]));
      ExtendsTransitive(d, d1, r);
      r
  }

  /**
   * The intended `empty`: afterwards no node of the collection has a child, and every
   * node whose parent is outside the collection keeps its parent.
   */
  lemma {:induction false} EmptiedEmpties(d: Dom, s: seq<Node>)
    requires Valid(d) && forall n :: n in s ==> n in d.kind
    ensures var r := Emptied(d, s);
            && r.kind == d.kind && r.attrs == d.attrs
            && (forall n :: n in s ==> r.childNodes[n] == [])
            && (forall m :: m in d.parent && d.parent[m] !in s ==> m in r.parent && r.parent[m] == d.parent[m])
    decreases |s|
  {
    if s != [] {
      var init := s[..|s| - 1];
      var n := s[|s| - 1];
      EmptiedEmpties(d, init);
      var d1 := Emptied(d, init);
      var kids := ChildrenOf(d1, n);
      RemovedLists(d1, kids);
      var r := Removed(d1, kids);
      FrontLast(s);
      forall m | m in d.parent && d.parent[m] !in s ensures m in r.parent && r.parent[m] == d.parent[m] {
        assert m !in kids;
      }
      forall q | q in s ensures r.childNodes[q] == [] {
        ExceptCovered(d1.childNodes[q], kids);
      }
    }
  }

  /** `empty()` as intended: every child node of each node of the collection is removed. */
  method EmptyAll(d: Dom, s: seq<Node>) returns (d': Dom)
    requires Valid(d)
    ensures d' == Emptied(d, s)
  {
    d' := d;
    var i := 0;
    while i < |s|
      invariant 0 <= i <= |s|
      invariant d' == Emptied(d, s[..i])
    {
      PrefixOfPrefix(s, i);
      d' := Remove(d', ChildrenOf(d', s[i]));
      i := i + 1;
    }
    WholePrefix(s);
  }
}
