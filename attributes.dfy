/**
 * `attr`, `removeAttr` and `getAttributes`: namespace-aware reading and writing of
 * node attributes, with per-node values computed by `getValue`.
 */
module Attributes {
  import opened Wrappers
  import opened Seqs
  import opened Dom

  /** A value handed to `attr`: a string, an array read at the node's index, or a function of (node, index). */
  datatype Value = Plain(s: string) | PerIndex(vals: seq<string>) | Computed(f: (Node, nat) -> string)

  /**
   * `getValue(val, el, i)`: a function is called with the node and its index, an array
   * gives its entry `i`, anything else is itself.  An array entry past the end is
   * `undefined`, which the host writes as the string "undefined".
   */
  function GetValue(v: Value, n: Node, i: nat): string {
    match v
    case Plain(s) => s
    case PerIndex(vals) => if i < |vals| then vals[i] else "undefined"
    case Computed(f) => f(n, i)
  }

  /** The properties of an attributes object, in enumeration order. */
  type Props = seq<(string, Value)>

  /** `Pablo.ns`: the namespace URI registered for a prefix. */
  function NsOf(prefix: string): (r: Option<string>)
    ensures r.Some? <==> prefix == "svg" || prefix == "xlink"
    ensures prefix == "svg" ==> r == Some(SvgNs)
    ensures prefix == "xlink" ==> r == Some(XlinkNs)
  {
    if prefix == "svg" then Some(SvgNs)
    else if prefix == "xlink" then Some(XlinkNs)
    else None
  }

  /**
   * `attr(name)`: reads the first node's attribute.  A name with a colon is looked up by
   * the namespace registered for its prefix (no namespace for an unknown prefix) and the
   * part after the first colon; other names by qualified name.  An empty collection
   * answers `undefined`; a node without attribute methods raises.
   */
  function AttrGet(d: Dom, s: seq<Node>, q: string): (r: Result<Option<string>, DomError>)
    ensures s == [] ==> r == Success(None)
    ensures r.Failure? <==> s != [] && !IsElement(d, s[0])
    ensures r.Failure? ==> r.error == TypeError
  {
    if s == [] then Success(None)
    else if !IsElement(d, s[0]) then Failure(TypeError)
    else
      var (prefix, local) := SplitQualifiedName(q);
      if prefix.Some? then Success(GetAttributeNS(d, s[0], NsOf(prefix.value), local))
      else Success(GetAttribute(d, s[0], q))
  }

  // ---------------------------------------------------------------------------
  // Setting

  /**
   * The namespace the setter passes for `prop`: the one registered for its prefix (none
   * for an unknown prefix).  A name without a colon reuses `carried`, the namespace the
   * same `attr` call resolved last, on this node or an earlier one.
   */
  function PropNs(prop: string, carried: Option<string>): (r: Option<string>)
    ensures SplitQualifiedName(prop).0.Some? ==> r == NsOf(SplitQualifiedName(prop).0.value)
    ensures SplitQualifiedName(prop).0.None? ==> r == carried
  {
    var (prefix, _) := SplitQualifiedName(prop);
    if prefix.Some? then NsOf(prefix.value) else carried
  }

  /** Only attributes of one node change, and no node gains or loses its attribute list. */
  ghost predicate AttrsOnly(d: Dom, r: Dom, n: Node) {
    && r == d.(attrs := r.attrs)
    && r.attrs.Keys == d.attrs.Keys
    && forall m :: m in d.attrs && m != n ==> r.attrs[m] == d.attrs[m]
  }

  /**
   * The properties written, in order, to node `n` at index `i` of the collection, starting
   * from the carried namespace `carried`; answers the tree, the namespace carried on, and
   * the first host exception, which stops the writing.
   */
  function SetProps(d: Dom, n: Node, i: nat, props: Props, carried: Option<string>)
    : (r: (Dom, Option<string>, Option<DomError>))
    requires n in d.attrs
    ensures AttrsOnly(d, r.0, n)
    ensures props == [] ==> r == (d, carried, None)
    ensures r.2 == Some(TypeError) <==> props != [] && !IsElement(d, n)
    decreases |props|
  {
    if props == [] then (d, carried, None)
    else if !IsElement(d, n) then (d, carried, Some(TypeError))
    else
      var (q, v) := props[0];
      var ns := PropNs(q, carried);
      match SetAttributeNS(d, n, ns, q, GetValue(v, n, i))
      case Failure(e) => (d, ns, Some(e))
      case Success(d1) => SetProps(d1, n, i, props[1..], ns)
  }

  /**
   * `attr(props)` from the node at index `k` on, with the namespace carried from the
   * nodes before: each node in turn, until a host exception.
   */
  function SetEach(d: Dom, s: seq<Node>, k: nat, props: Props, carried: Option<string>): (r: (Dom, Option<DomError>))
    requires k <= |s| && forall n :: n in s ==> n in d.attrs
    ensures r.0 == d.(attrs := r.0.attrs) && r.0.attrs.Keys == d.attrs.Keys
    ensures forall m :: m in d.attrs && m !in s[k..] ==> r.0.attrs[m] == d.attrs[m]
    decreases |s| - k
  {
    if k == |s| then (d, None)
    else
      var (d1, ns, e) := SetProps(d, s[k], k, props, carried);
      if e.Some? then (d1, e)
      else
        var r := SetEach(d1, s, k + 1, props, ns);
        assert forall m :: m !in s[k..] ==> m != s[k] && m !in s[k + 1..];
        r
  }

  /**
   * `attr(props)` (or `attr(name, value)` as one property): writes every property on every
   * node; a call starts with no namespace carried.
   */
  method SetAttr(d: Dom, s: seq<Node>, props: Props) returns (d': Dom, error: Option<DomError>)
    requires forall n :: n in s ==> n in d.attrs
    ensures (d', error) == SetEach(d, s, 0, props, None)
  {
    d' := d;
    var carried := None;
    var k := 0;
    while k < |s|
      invariant k <= |s| && forall n :: n in s ==> n in d'.attrs
      invariant SetEach(d, s, 0, props, None) == SetEach(d', s, k, props, carried)
    {
      var e;
      d', carried, e := SetOn(d', s[k], k, props, carried);
      if e.Some? {
        return d', e;
      }
      k := k + 1;
    }
    error := None;
  }

  /** The inner loop of the setter: every property written to one node. */
  method SetOn(d: Dom, n: Node, i: nat, props: Props, carried: Option<string>)
    returns (d': Dom, carried': Option<string>, error: Option<DomError>)
    requires n in d.attrs
    ensures (d', carried', error) == SetProps(d, n, i, props, carried)
  {
    d' := d;
    carried' := carried;
    var j := 0;
    while j < |props|
      invariant j <= |props| && n in d'.attrs && d'.kind == d.kind
      invariant SetProps(d, n, i, props, carried) == SetProps(d', n, i, props[j..], carried')
    {
      assert props[j..][1..] == props[j + 1..];
      if !IsElement(d', n) {
        return d', carried', Some(TypeError);
      }
      var (q, v) := props[j];
      carried' := PropNs(q, carried');
      var written := SetAttributeNS(d', n, carried', q, GetValue(v, n, i));
      if written.Failure? {
        return d', carried', Some(written.error);
      }
      d' := written.value;
      j := j + 1;
    }
    error := None;
  }

  /** The namespace evidently intended for `prop`: the one registered for its own prefix, none without a colon. */
  function PropNsIntended(prop: string): (r: Option<string>)
    ensures r == PropNs(prop, None)
  {
    var (prefix, _) := SplitQualifiedName(prop);
    if prefix.Some? then NsOf(prefix.value) else None
  }

  /** The setter as evidently intended: each property's namespace comes from its own name only. */
  function SetPropsIntended(d: Dom, n: Node, i: nat, props: Props): (r: (Dom, Option<DomError>))
    requires n in d.attrs
    ensures AttrsOnly(d, r.0, n)
    ensures r.1 == Some(TypeError) <==> props != [] && !IsElement(d, n)
    decreases |props|
  {
    if props == [] then (d, None)
    else if !IsElement(d, n) then (d, Some(TypeError))
    else
      var (q, v) := props[0];
      match SetAttributeNS(d, n, PropNsIntended(q), q, GetValue(v, n, i))
      case Failure(e) => (d, Some(e))
      case Success(d1) => SetPropsIntended(d1, n, i, props[1..])
  }

  /**
   * With one property and nothing carried but its own namespace, the setter as written and
   * the intended one agree, and the namespace carried on stays one of those two.
   */
  lemma OnePropAgrees(d: Dom, n: Node, i: nat, q: string, v: Value, carried: Option<string>)
    requires n in d.attrs
    requires carried.None? || carried == PropNsIntended(q)
    ensures var r := SetProps(d, n, i, [(q, v)], carried);
            && r.0 == SetPropsIntended(d, n, i, [(q, v)]).0
            && r.2 == SetPropsIntended(d, n, i, [(q, v)]).1
            && (r.1.None? || r.1 == PropNsIntended(q))
  {
    assert PropNs(q, carried) == PropNsIntended(q);
    assert [(q, v)][1..] == [];
  }

  /** Within one node: a plain name after an `xlink:` one is set, as written, in the XLink namespace. */
  lemma NamespaceLeak(d: Dom, n: Node, q1: string, v: string, q2: string, w: string)
    requires n in d.attrs && IsElement(d, n)
    requires SplitQualifiedName(q1).0 == Some("xlink") && ':' !in q2 && q2 != "xmlns"
    ensures var r := SetProps(d, n, 0, [(q1, Plain(v)), (q2, Plain(w))], None);
            r.2.None? && LookupNs(r.0.attrs[n], Some(XlinkNs), q2) == Some(w)
  {
    var props := [(q1, Plain(v)), (q2, Plain(w))];
    SplitPlain(q2);
    assert PropNs(q1, None) == Some(XlinkNs);
    assert PropNs(q2, Some(XlinkNs)) == Some(XlinkNs);
    assert !NamespaceRefused(Some(XlinkNs), q1);
    assert !NamespaceRefused(Some(XlinkNs), q2);
    var d1 := SetAttributeNS(d, n, Some(XlinkNs), q1, v).value;
    var d2 := SetAttributeNS(d1, n, Some(XlinkNs), q2, w).value;
    assert props[1..] == [(q2, Plain(w))] && props[1..][1..] == [];
    assert SetProps(d1, n, 0, props[1..], Some(XlinkNs)) == (d2, Some(XlinkNs), None);
  }

  /**
   * One node's turn in `attr({q2: w, q1: v})`, with a plain `q2` before an `xlink:` name
   * `q1`: `q2` lands in the carried namespace, and XLink is carried on.
   */
  lemma PlainThenXlink(d: Dom, n: Node, i: nat, q2: string, w: string, q1: string, v: string, carried: Option<string>)
    requires n in d.attrs && IsElement(d, n)
    requires SplitQualifiedName(q1).0 == Some("xlink") && SplitQualifiedName(q1).1 != q2
    requires ':' !in q2 && q2 != "xmlns" && (carried.None? || carried == Some(XlinkNs))
    ensures var r := SetProps(d, n, i, [(q2, Plain(w)), (q1, Plain(v))], carried);
            r.1 == Some(XlinkNs) && r.2.None? && LookupNs(r.0.attrs[n], carried, q2) == Some(w)
  {
    var props := [(q2, Plain(w)), (q1, Plain(v))];
    SplitPlain(q2);
    assert PropNs(q2, carried) == carried && PropNs(q1, carried) == Some(XlinkNs);
    assert !NamespaceRefused(carried, q2);
    assert !NamespaceRefused(Some(XlinkNs), q1);
    var a1 := SetAttributeNS(d, n, carried, q2, w).value;
    var a2 := SetAttributeNS(a1, n, Some(XlinkNs), q1, v).value;
    assert props[1..] == [(q1, Plain(v))] && props[1..][1..] == [];
    assert SetProps(a1, n, i, props[1..], carried) == (a2, Some(XlinkNs), None);
    assert LookupNs(a2.attrs[n], carried, q2) == LookupNs(a1.attrs[n], carried, q2);
  }

  /**
   * Across nodes: `attr({q2: w, q1: v})` with a plain `q2` before an `xlink:` name `q1`
   * writes `q2` in no namespace on the first node but in the XLink namespace on the second.
   */
  lemma NamespaceLeakAcrossNodes(d: Dom, n1: Node, n2: Node, q1: string, v: string, q2: string, w: string)
    requires n1 in d.attrs && n2 in d.attrs && n1 != n2 && IsElement(d, n1) && IsElement(d, n2)
    requires SplitQualifiedName(q1).0 == Some("xlink") && SplitQualifiedName(q1).1 != q2
    requires ':' !in q2 && q2 != "xmlns"
    ensures var r := SetEach(d, [n1, n2], 0, [(q2, Plain(w)), (q1, Plain(v))], None);
            && r.1.None?
            && LookupNs(r.0.attrs[n1], None, q2) == Some(w)
            && LookupNs(r.0.attrs[n2], Some(XlinkNs), q2) == Some(w)
  {
    var props := [(q2, Plain(w)), (q1, Plain(v))];
    var s := [n1, n2];
    PlainThenXlink(d, n1, 0, q2, w, q1, v, None);
    var (a, c, _) := SetProps(d, n1, 0, props, None);
    PlainThenXlink(a, n2, 1, q2, w, q1, v, c);
    var (b, _, _) := SetProps(a, n2, 1, props, c);
    assert SetEach(b, s, 2, props, c) == (b, None);
    assert b.attrs[n1] == a.attrs[n1];
  }

  /** The intended setter puts the same plain name in no namespace. */
  lemma NoNamespaceLeak(d: Dom, n: Node, q1: string, v: string, q2: string, w: string)
    requires n in d.attrs && IsElement(d, n)
    requires SplitQualifiedName(q1).0 == Some("xlink") && ':' !in q2 && q2 != "xmlns"
    ensures var r := SetPropsIntended(d, n, 0, [(q1, Plain(v)), (q2, Plain(w))]);
            r.1.None? && LookupNs(r.0.attrs[n], None, q2) == Some(w)
  {
    var props := [(q1, Plain(v)), (q2, Plain(w))];
    SplitPlain(q2);
    assert PropNsIntended(q1) == Some(XlinkNs);
    assert PropNsIntended(q2) == None;
    assert !NamespaceRefused(Some(XlinkNs), q1);
    assert !NamespaceRefused(None, q2);
    var d1 := SetAttributeNS(d, n, Some(XlinkNs), q1, v).value;
    var d2 := SetAttributeNS(d1, n, None, q2, w).value;
    assert props[1..] == [(q2, Plain(w))] && props[1..][1..] == [];
    assert SetPropsIntended(d1, n, 0, props[1..]) == (d2, None);
  }

  /** How a name with one colon splits. */
  lemma SplitAt(q: string, prefix: string, local: string)
    requires q == prefix + ":" + local && ':' !in prefix
    ensures SplitQualifiedName(q) == (Some(prefix), local)
  {
    assert q[|prefix|] == ':';
    assert q[..|prefix|] == prefix;
    assert ':' !in q[..|prefix|];
    assert q[|prefix| + 1..] == local;
  }

  /** A name without a colon has no prefix. */
  lemma SplitPlain(q: string)
    requires ':' !in q
    ensures SplitQualifiedName(q) == (None, q)
  {
  }

  // ---------------------------------------------------------------------------
  // Reading back

  /** The only attributes called `q`, by qualified name or by (no namespace, `q`), are plain ones. */
  ghost predicate PlainOnly(list: seq<Attr>, q: string) {
    forall a :: a in list && (QualifiedName(a) == q || (a.ns.None? && a.local == q)) ==> a.ns.None? && a.prefix.None?
  }

  /** For a name without a colon, looking up by qualified name finds what looking up in no namespace finds. */
  lemma {:induction false} ByNameIsByNs(list: seq<Attr>, q: string)
    requires ':' !in q && PlainOnly(list, q)
    ensures IndexByName(list, q) == IndexByNs(list, None, q)
  {
    if list != [] {
      var a := list[0];
      if a.prefix.Some? {
        assert ':' in QualifiedName(a) by {
          assert QualifiedName(a)[|a.prefix.value|] == ':';
        }
      }
      assert QualifiedName(a) == q <==> (a.ns.None? && a.local == q);
      assert PlainOnly(list[1..], q) by {
        forall b | b in list[1..] ensures b in list {}
      }
      ByNameIsByNs(list[1..], q);
    }
  }

  /** Writing a plain entry keeps the only entries called `q` plain. */
  lemma UpdateKeepsPlainOnly(list: seq<Attr>, q: string, v: string)
    requires ':' !in q && PlainOnly(list, q)
    ensures PlainOnly(UpdateAttrs(list, None, None, q, v), q)
  {
    var i := IndexByNs(list, None, q);
    var r := UpdateAttrs(list, None, None, q, v);
    assert r == if i < |list| then list[i := list[i].(value := v)] else list + [Attr(None, None, q, v)];
    forall a | a in r && (QualifiedName(a) == q || (a.ns.None? && a.local == q)) ensures a.ns.None? && a.prefix.None? {
      var k :| 0 <= k < |r| && r[k] == a;
      if k != i {
        assert a == list[k];
      } else if i < |list| {
        assert list[i] in list && list[i].ns.None? && list[i].local == q;
      }
    }
  }

  /** `attr(name, value)` then `attr(name)`: the first node reads back the value written for it. */
  lemma SetThenGet(d: Dom, s: seq<Node>, q: string, v: Value)
    requires forall n :: n in s ==> n in d.attrs
    requires s != [] && IsElement(d, s[0]) && NoDups(s)
    requires var (prefix, _) := SplitQualifiedName(q);
             if prefix.Some? then prefix.value in ["svg", "xlink"] else q != "xmlns" && PlainOnly(d.attrs[s[0]], q)
    ensures AttrGet(SetEach(d, s, 0, [(q, v)], None).0, s, q) == Success(Some(GetValue(v, s[0], 0)))
  {
    var (prefix, local) := SplitQualifiedName(q);
    var val := GetValue(v, s[0], 0);
    assert PropNs(q, None) == (if prefix.Some? then NsOf(prefix.value) else None);
    if prefix.Some? {
      assert prefix.value == "svg" || prefix.value == "xlink";
      assert !(prefix == Some("xml")) && q != "xmlns" && !(prefix == Some("xmlns"));
    }
    assert !NamespaceRefused(PropNs(q, None), q);
    var (d1, ns1, e1) := SetProps(d, s[0], 0, [(q, v)], None);
    assert [(q, v)][1..] == [];
    assert d1.attrs[s[0]] == UpdateAttrs(d.attrs[s[0]], PropNs(q, None), prefix, local, val);
    assert e1.None?;
    var r := SetEach(d1, s, 1, [(q, v)], ns1);
    assert s[0] !in s[1..];
    assert r.0.attrs[s[0]] == d1.attrs[s[0]];
    if prefix.None? {
      UpdateKeepsPlainOnly(d.attrs[s[0]], q, val);
      ByNameIsByNs(d1.attrs[s[0]], q);
    }
  }

  // ---------------------------------------------------------------------------
  // Removing

  /** `removeAttr(name)` from the node at index `k` on: `removeAttributeNS` on each node until one lacks it. */
  function RemoveEach(d: Dom, s: seq<Node>, k: nat, ns: Option<string>, local: string): (r: (Dom, Option<DomError>))
    requires k <= |s| && forall n :: n in s ==> n in d.attrs
    ensures r.0 == d.(attrs := r.0.attrs) && r.0.attrs.Keys == d.attrs.Keys
    ensures forall m :: m in d.attrs && m !in s[k..] ==> r.0.attrs[m] == d.attrs[m]
    ensures r.1.Some? <==> !ElementsFrom(d, s, k)
    decreases |s| - k
  {
    if k == |s| then (d, None)
    else if !IsElement(d, s[k]) then (d, Some(TypeError))
    else
      var d1 := RemoveAttributeNS(d, s[k], ns, local);
      OutsideStep(s, k);
      ElementsStep(d, d1, s, k);
      RemoveEach(d1, s, k + 1, ns, local)
  }

  /** The namespace and local name `removeAttr(name)` passes to the host. */
  function RemovalTarget(q: string): (Option<string>, string) {
    var (prefix, local) := SplitQualifiedName(q);
    if prefix.Some? then (NsOf(prefix.value), local) else (None, q)
  }

  /** `removeAttr(name)`. */
  method RemoveAttr(d: Dom, s: seq<Node>, q: string) returns (d': Dom, error: Option<DomError>)
    requires forall n :: n in s ==> n in d.attrs
    ensures (d', error) == RemoveEach(d, s, 0, RemovalTarget(q).0, RemovalTarget(q).1)
  {
    var (ns, local) := RemovalTarget(q);
    d' := d;
    var k := 0;
    while k < |s|
      invariant k <= |s| && forall n :: n in s ==> n in d'.attrs
      invariant RemoveEach(d, s, 0, ns, local) == RemoveEach(d', s, k, ns, local)
    {
      if !IsElement(d', s[k]) {
        return d', Some(TypeError);
      }
      d' := RemoveAttributeNS(d', s[k], ns, local);
      k := k + 1;
    }
    error := None;
  }

  /** After `removeAttr(name)`, `attr(name)` reads nothing on an element whose attributes are distinct. */
  lemma RemoveThenGet(d: Dom, s: seq<Node>, q: string)
    requires forall n :: n in s ==> n in d.attrs
    requires s != [] && IsElement(d, s[0]) && NoDups(s) && AttrsDistinct(d.attrs[s[0]])
    requires SplitQualifiedName(q).0.None? ==> PlainOnly(d.attrs[s[0]], q)
    ensures AttrGet(RemoveEach(d, s, 0, RemovalTarget(q).0, RemovalTarget(q).1).0, s, q) == Success(None)
  {
    var (ns, local) := RemovalTarget(q);
    var d1 := RemoveAttributeNS(d, s[0], ns, local);
    var r := RemoveEach(d1, s, 1, ns, local);
    assert RemoveEach(d, s, 0, ns, local) == r;
    assert s[0] !in s[1..];
    var list' := d1.attrs[s[0]];
    assert r.0.attrs[s[0]] == list' && IsElement(r.0, s[0]);
    assert LookupNs(list', ns, local).None?;
    if SplitQualifiedName(q).0.None? {
      RemovalKeepsPlainOnly(d.attrs[s[0]], ns, local, q);
      ByNameIsByNs(list', q);
    }
  }

  /** Dropping an entry keeps the only entries called `q` plain. */
  lemma RemovalKeepsPlainOnly(list: seq<Attr>, ns: Option<string>, local: string, q: string)
    requires PlainOnly(list, q)
    ensures PlainOnly(RemoveFromAttrs(list, ns, local), q)
  {
    var list' := RemoveFromAttrs(list, ns, local);
    var i := IndexByNs(list, ns, local);
    if i < |list| {
      assert list' == list[..i] + list[i + 1..];
      forall a | a in list' ensures a in list {
        var k :| 0 <= k < |list'| && list'[k] == a;
        if k < i { assert a == list[k]; } else { assert a == list[k + 1]; }
      }
    }
  }

  // ---------------------------------------------------------------------------
  // Reading every attribute

  /** `getAttributes(el)` as a table: each attribute's qualified name to its value, a later entry winning. */
  function NameMap(list: seq<Attr>): (r: map<string, string>)
    ensures forall q :: q in r <==> exists a :: a in list && QualifiedName(a) == q
    decreases |list|
  {
    if list == [] then map[]
    else
      var init := list[..|list| - 1];
      var last := list[|list| - 1];
      var r := NameMap(init)[QualifiedName(last) := last.value];
      assert forall a :: a in list <==> a in init || a == last by {
        assert list == init + [last];
      }
      r
  }

  /** The table holds, for each name, the value of the last attribute with that name. */
  lemma {:induction false} NameMapLast(list: seq<Attr>, k: nat)
    requires k < |list|
    requires forall j :: k < j < |list| ==> QualifiedName(list[j]) != QualifiedName(list[k])
    ensures NameMap(list)[QualifiedName(list[k])] == list[k].value
    decreases |list|
  {
    if k < |list| - 1 {
      var init := list[..|list| - 1];
      assert init[k] == list[k];
      NameMapLast(init, k);
    }
  }

  /** `attr()` / `getAttributes(this[0])`: the first node's table, `{}` for an empty collection. */
  function AttributeTable(d: Dom, s: seq<Node>): (r: Result<map<string, string>, DomError>)
    ensures s == [] ==> r == Success(map[])
    ensures r.Failure? <==> s != [] && !IsElement(d, s[0])
  {
    if s == [] then Success(map[])
    else if !IsElement(d, s[0]) then Failure(TypeError)
    else Success(NameMap(AttrsOf(d, s[0])))
  }

  /** `getAttributes(this[0])` with its loop over the attribute list. */
  method GetAttributes(d: Dom, s: seq<Node>) returns (r: Result<map<string, string>, DomError>)
    ensures r == AttributeTable(d, s)
  {
    if s == [] {
      return Success(map[]);
    }
    if !IsElement(d, s[0]) {
      return Failure(TypeError);
    }
    var list := AttrsOf(d, s[0]);
    var table: map<string, string> := map[];
    for i := 0 to |list|
      invariant table == NameMap(list[..i])
    {
      assert list[..i + 1][..i] == list[..i];
      table := table[QualifiedName(list[i]) := list[i].value];
    }
    assert list[..|list|] == list;
    r := Success(table);
  }

  /** With distinct qualified names the table agrees with `attr(name)` for every name it holds. */
  lemma TableAgreesWithGetter(d: Dom, s: seq<Node>, q: string)
    requires s != [] && IsElement(d, s[0])
    requires forall i, j :: 0 <= i < j < |AttrsOf(d, s[0])| ==> QualifiedName(AttrsOf(d, s[0])[i]) != QualifiedName(AttrsOf(d, s[0])[j])
    requires q in AttributeTable(d, s).value
    ensures Some(AttributeTable(d, s).value[q]) == GetAttribute(d, s[0], q)
  {
    var list := AttrsOf(d, s[0]);
    var k := IndexByName(list, q);
    var a :| a in list && QualifiedName(a) == q;
    assert k < |list|;
    NameMapLast(list, k);
  }

  // ---------------------------------------------------------------------------
  // Plain names

  /** Writing an attribute by a name without a colon (other than `xmlns`) raises nothing. */
  lemma PlainWritable(d: Dom, n: Node, q: string, t: string)
    requires n in d.attrs && IsElement(d, n) && ':' !in q && q != "xmlns"
    ensures SetProps(d, n, 0, [(q, Plain(t))], None).2.None?
    ensures SetProps(d, n, 0, [(q, Plain(t))], None).0.attrs[n] == UpdateAttrs(d.attrs[n], None, None, q, t)
  {
    SplitPlain(q);
    assert PropNs(q, None) == None;
    assert !NamespaceRefused(None, q);
    assert [(q, Plain(t))][1..] == [];
  }

  /** Writing a plain name of an element whose only attribute of that name is plain reads it back. */
  lemma PlainReadBack(d: Dom, n: Node, q: string, t: string)
    requires n in d.attrs && IsElement(d, n) && ':' !in q && q != "xmlns" && PlainOnly(d.attrs[n], q)
    ensures GetAttribute(SetProps(d, n, 0, [(q, Plain(t))], None).0, n, q) == Some(t)
  {
    PlainWritable(d, n, q, t);
    var d1 := SetProps(d, n, 0, [(q, Plain(t))], None).0;
    UpdateKeepsPlainOnly(d.attrs[n], q, t);
    ByNameIsByNs(d1.attrs[n], q);
  }

  /** A plain name written to an element at index `i` raises nothing, carries no namespace on, and writes that node's own value. */
  lemma PlainSetAt(d: Dom, n: Node, i: nat, q: string, v: Value)
    requires n in d.attrs && IsElement(d, n) && ':' !in q && q != "xmlns"
    ensures var r := SetProps(d, n, i, [(q, v)], None);
            && r.1.None? && r.2.None?
            && r.0.attrs[n] == UpdateAttrs(d.attrs[n], None, None, q, GetValue(v, n, i))
  {
    SplitPlain(q);
    assert PropNs(q, None) == None;
    assert !NamespaceRefused(None, q);
    assert [(q, v)][1..] == [];
  }

  /**
   * `attr(name, value)` with a plain name: every element of the collection reads back its
   * own value, `getValue(value, el, i)` for the node `el` at index `i`.
   */
  lemma {:induction false} SetEachReads(d: Dom, s: seq<Node>, k: nat, q: string, v: Value, j: nat)
    requires k <= j < |s| && forall n :: n in s ==> n in d.attrs
    requires NoDups(s) && forall i :: k <= i <= j ==> IsElement(d, s[i])
    requires ':' !in q && q != "xmlns" && PlainOnly(d.attrs[s[j]], q)
    ensures GetAttribute(SetEach(d, s, k, [(q, v)], None).0, s[j], q) == Some(GetValue(v, s[j], j))
    decreases |s| - k
  {
    var n := s[k];
    PlainSetAt(d, n, k, q, v);
    var d1 := SetProps(d, n, k, [(q, v)], None).0;
    assert SetEach(d, s, k, [(q, v)], None) == SetEach(d1, s, k + 1, [(q, v)], None);
    if j == k {
      var t := GetValue(v, n, k);
      assert n !in s[k + 1..] by {
        forall i | k + 1 <= i < |s| ensures s[i] != n {}
      }
      UpdateKeepsPlainOnly(d.attrs[n], q, t);
      ByNameIsByNs(d1.attrs[n], q);
    } else {
      assert s[j] != n;
      forall i | k + 1 <= i <= j ensures IsElement(d1, s[i]) {
        if s[i] != n { OtherNodeReads(d, d1, n, s[i], q); }
      }
      OtherNodeReads(d, d1, n, s[j], q);
      SetEachReads(d1, s, k + 1, q, v, j);
    }
  }

  /** The setter on a one-node collection is the writing to that node, from nothing carried. */
  lemma SetOneNode(d: Dom, n: Node, props: Props)
    requires n in d.attrs
    ensures SetEach(d, [n], 0, props, None) == (SetProps(d, n, 0, props, None).0, SetProps(d, n, 0, props, None).2)
  {
    var (d1, ns, e) := SetProps(d, n, 0, props, None);
    if e.None? {
      assert SetEach(d1, [n], 1, props, ns) == (d1, None);
    }
  }

  /** Writing one node's attributes leaves every other node as it reads. */
  lemma OtherNodeReads(d: Dom, d1: Dom, n: Node, m: Node, q: string)
    requires n in d.attrs && m in d.attrs && m != n && AttrsOnly(d, d1, n)
    ensures d1.attrs[m] == d.attrs[m] && IsElement(d1, m) == IsElement(d, m)
    ensures GetAttribute(d1, m, q) == GetAttribute(d, m, q)
  {
  }
}
