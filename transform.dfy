/**
 * `transform(name, value, ...)`: writes `name(value)` into each node's `transform`
 * attribute, replacing the first call of that function already there or appending a
 * new one.
 */
module Transforms {
  import opened Wrappers
  import opened Seqs
  import opened Strings
  import opened Dom
  import opened Attributes

  /** The function call the method writes, `name(arg)`. */
  function CallText(name: string, arg: string): string {
    name + "(" + arg + ")"
  }

  /** What `transform` searches for in the attribute with a space put in front: `' name('`. */
  function CallStart(name: string): string {
    " " + name + "("
  }

  /**
   * The new attribute text for the current one `t` (`None` when absent): the call
   * alone when `t` is empty; otherwise the first `name(` ... `)` in `t` replaced by the
   * call, or the call appended after a space.  When no `)` follows, the replacement is
   * put in front of the old text, which stays.
   */
  function Compose(t: Option<string>, name: string, arg: string): (r: string)
    ensures t.None? || t == Some("") ==> r == CallText(name, arg)
  {
    var call := CallText(name, arg);
    if t.None? || t.value == "" then call
    else
      var text := t.value;
      var pos := IndexOf(" " + text, CallStart(name));
      if pos >= 0 then
        var rest := text[pos..];
        var posEnd := IndexOf(rest, ")");
        text[..pos] + call + rest[posEnd + 1..]
      else
        text + " " + call
  }

  /** A function name the composer can find again: no space and no parenthesis. */
  predicate PlainName(name: string) {
    ' ' !in name && '(' !in name && ')' !in name
  }

  /** In `call + tail`, the first `)` closes the call when neither name nor argument holds one. */
  lemma CloseOfCall(name: string, arg: string, tail: string)
    requires ')' !in name && ')' !in arg
    ensures IndexOf(CallText(name, arg) + tail, ")") == |CallText(name, arg)| - 1
  {
    var s := CallText(name, arg) + tail;
    var p := |CallText(name, arg)| - 1;
    assert s[p..p + 1] == ")";
    forall k: nat | k < p ensures !OccursAt(s, ")", k) {
      assert s[k] == (name + "(" + arg)[k];
      if k < |name| {
        assert s[k] == name[k];
      } else if k > |name| {
        assert s[k] == arg[k - |name| - 1];
      }
    }
    IndexOfIs(s, ")", p);
  }

  /** A call written where the old one was is found at the same place. */
  lemma FoundAgain(text: string, name: string, arg: string, pos: nat, tail: string)
    requires pos >= 0 && IndexOf(" " + text, CallStart(name)) == pos
    ensures pos + |name| + 1 <= |text|
    ensures IndexOf(" " + (text[..pos] + CallText(name, arg) + tail), CallStart(name)) == pos
  {
    var pat := CallStart(name);
    var s1 := " " + text;
    var s2 := " " + (text[..pos] + CallText(name, arg) + tail);
    var m := pos + |pat|;
    assert s1[pos..pos + |pat|] == pat;
    assert s1[..m] == s1[..pos + 1] + s1[pos + 1..m];
    assert s1[pos + 1..m] == name + "(" by {
      assert s1[pos..m] == pat;
    }
    assert s2[..m] == " " + text[..pos] + name + "(";
    assert s1[..pos + 1] == " " + text[..pos];
    forall k: nat | k <= pos ensures OccursAt(s1, pat, k) <==> OccursAt(s2, pat, k) {
      OccursInPrefix(s1, s2, pat, k, m);
    }
    IndexOfIs(s2, pat, pos);
  }

  /** Appending `' ' + call` to text without the call puts the first occurrence at the new call. */
  lemma FoundAppended(text: string, name: string, arg: string)
    requires PlainName(name) && IndexOf(" " + text, CallStart(name)) == -1
    ensures IndexOf(" " + (text + " " + CallText(name, arg)), CallStart(name)) == |text| + 1
  {
    var pat := CallStart(name);
    var s1 := " " + text;
    var s2 := " " + (text + " " + CallText(name, arg));
    var p := |text| + 1;
    assert s2[p..p + |pat|] == pat;
    forall k: nat | k < p ensures !OccursAt(s2, pat, k) {
      if k + |pat| <= |s1| {
        assert s2[..|s1|] == s1;
        OccursInPrefix(s1, s2, pat, k, |s1|);
      } else {
        var last := k + |pat| - 1;
        assert p <= last < p + 1 + |name|;
        assert s2[last] != '(' by {
          if last > p {
            assert s2[last] == name[last - p - 1];
          }
        }
      }
    }
    IndexOfIs(s2, pat, p);
  }

  /**
   * Writing the same function twice keeps only the second argument: the result is
   * what writing the second alone would give.  So a repeated call changes nothing.
   */
  lemma ComposeTwice(t: Option<string>, name: string, a: string, b: string)
    requires PlainName(name) && ')' !in a
    ensures Compose(Some(Compose(t, name, a)), name, b) == Compose(t, name, b)
  {
    if t.None? || t.value == "" {
      TwiceOnEmpty(name, a, b);
    } else if IndexOf(" " + t.value, CallStart(name)) >= 0 {
      TwiceWhenFound(t.value, name, a, b);
    } else {
      TwiceWhenAppended(t.value, name, a, b);
    }
  }

  lemma TwiceOnEmpty(name: string, a: string, b: string)
    requires PlainName(name) && ')' !in a
    ensures Compose(Some(CallText(name, a)), name, b) == CallText(name, b)
  {
    var t1 := CallText(name, a);
    assert IndexOf(" " + t1, CallStart(name)) == 0 by {
      assert (" " + t1)[0..|CallStart(name)|] == CallStart(name);
      IndexOfIs(" " + t1, CallStart(name), 0);
    }
    CloseOfCall(name, a, "");
    assert t1[0..] == t1 + "";
  }

  lemma TwiceWhenFound(text: string, name: string, a: string, b: string)
    requires PlainName(name) && ')' !in a && text != ""
    requires IndexOf(" " + text, CallStart(name)) >= 0
    ensures Compose(Some(Compose(Some(text), name, a)), name, b) == Compose(Some(text), name, b)
  {
    var pos := IndexOf(" " + text, CallStart(name));
    var rest := text[pos..];
    var tail := rest[IndexOf(rest, ")") + 1..];
    ComposeFound(text, name, a);
    ComposeFound(text, name, b);
    FoundAgain(text, name, a, pos, tail);
    RewriteFound(text[..pos], name, a, b, tail);
  }

  /** Text with the call `name(a)` at `pre`'s end, where it is the first: writing `name(b)` swaps the argument. */
  lemma RewriteFound(pre: string, name: string, a: string, b: string, tail: string)
    requires PlainName(name) && ')' !in a
    requires IndexOf(" " + (pre + CallText(name, a) + tail), CallStart(name)) == |pre|
    ensures Compose(Some(pre + CallText(name, a) + tail), name, b) == pre + CallText(name, b) + tail
  {
    var t1 := pre + CallText(name, a) + tail;
    assert t1[..|pre|] == pre && t1[|pre|..] == CallText(name, a) + tail;
    CloseOfCall(name, a, tail);
    ComposeFound(t1, name, b);
    assert (CallText(name, a) + tail)[|CallText(name, a)|..] == tail;
  }

  /** The composition when the call is found: the text before it, the new call, the text after its `)`. */
  lemma ComposeFound(text: string, name: string, arg: string)
    requires text != "" && IndexOf(" " + text, CallStart(name)) >= 0
    ensures var pos := IndexOf(" " + text, CallStart(name));
            pos <= |text| &&
            Compose(Some(text), name, arg) == text[..pos] + CallText(name, arg) + text[pos..][IndexOf(text[pos..], ")") + 1..]
  {
  }

  lemma TwiceWhenAppended(text: string, name: string, a: string, b: string)
    requires PlainName(name) && ')' !in a && text != ""
    requires IndexOf(" " + text, CallStart(name)) < 0
    ensures Compose(Some(Compose(Some(text), name, a)), name, b) == Compose(Some(text), name, b)
  {
    var callA := CallText(name, a);
    var t1 := text + " " + callA;
    assert Compose(Some(text), name, a) == t1;
    FoundAppended(text, name, a);
    assert t1[..|text| + 1] == text + " ";
    assert t1[|text| + 1..] == callA + "";
    CloseOfCall(name, a, "");
  }

  /** Repeating a call leaves the attribute as the first call left it. */
  lemma ComposeIdempotent(t: Option<string>, name: string, a: string)
    requires PlainName(name) && ')' !in a
    ensures Compose(Some(Compose(t, name, a)), name, a) == Compose(t, name, a)
  {
    ComposeTwice(t, name, a, a);
  }

  /** The value of a call with extra arguments: all of them after the name, joined by single spaces. */
  function Arguments(values: seq<string>): Value {
    if values == [] then Plain("undefined") else Plain(Join(values, " "))
  }

  /** The joined value splits back into the arguments when none of them holds a space. */
  lemma ArgumentsSplitBack(values: seq<string>)
    requires |values| >= 1 && forall k :: 0 <= k < |values| ==> ' ' !in values[k]
    ensures Arguments(values).Plain? && Split(Arguments(values).s, ' ') == values
  {
    SplitJoin(values, ' ');
  }

  /** One element's turn in `transform`: its attribute read, composed and written back. */
  function TransformOn(d: Dom, n: Node, k: nat, name: string, value: Value): (r: Dom)
    requires n in d.attrs && IsElement(d, n)
    ensures AttrsOnly(d, r, n)
  {
    var t := Compose(GetAttribute(d, n, "transform"), name, GetValue(value, n, k));
    SetProps(d, n, 0, [("transform", Plain(t))], None).0
  }

  /** `transform` from the node at index `k` on: read, compose and write back each node's attribute. */
  function TransformEach(d: Dom, s: seq<Node>, k: nat, name: string, value: Value): (r: (Dom, Option<DomError>))
    requires k <= |s| && forall n :: n in s ==> n in d.attrs
    ensures r.0 == d.(attrs := r.0.attrs) && r.0.attrs.Keys == d.attrs.Keys
    ensures forall m :: m in d.attrs && m !in s[k..] ==> r.0.attrs[m] == d.attrs[m]
    ensures r.1.Some? <==> !ElementsFrom(d, s, k)
    decreases |s| - k
  {
    if k == |s| then (d, None)
    else if !IsElement(d, s[k]) then (d, Some(TypeError))
    else
      var d1 := TransformOn(d, s[k], k, name, value);
      OutsideStep(s, k);
      ElementsStep(d, d1, s, k);
      TransformEach(d1, s, k + 1, name, value)
  }

  /** Writing the `transform` attribute of an element raises nothing. */
  lemma TransformWritable(d: Dom, n: Node, t: string)
    requires n in d.attrs && IsElement(d, n)
    ensures SetProps(d, n, 0, [("transform", Plain(t))], None).2.None?
    ensures SetProps(d, n, 0, [("transform", Plain(t))], None).0.attrs[n] == UpdateAttrs(d.attrs[n], None, None, "transform", t)
  {
    PlainWritable(d, n, "transform", t);
  }

  /** `transform(name, value)`: each node's attribute composed with `name(value)` for that node. */
  method Transform(d: Dom, s: seq<Node>, name: string, value: Value) returns (d': Dom, error: Option<DomError>)
    requires forall n :: n in s ==> n in d.attrs
    ensures (d', error) == TransformEach(d, s, 0, name, value)
  {
    d' := d;
    var i := 0;
    while i < |s|
      invariant i <= |s| && forall n :: n in s ==> n in d'.attrs
      invariant TransformEach(d, s, 0, name, value) == TransformEach(d', s, i, name, value)
    {
      var el := s[i];
      var current := AttrGet(d', [el], "transform");
      if current.Failure? {
        return d', Some(current.error);
      }
      TransformStep(d', s, i, name, value);
      var composed := Compose(current.value, name, GetValue(value, el, i));
      var written;
      d', written := SetAttr(d', [el], [("transform", Plain(composed))]);
      i := i + 1;
    }
    error := None;
  }

  /** One turn of the loop: the node's attribute read as `attr('transform')` and written as `attr('transform', text)`. */
  lemma TransformStep(d: Dom, s: seq<Node>, k: nat, name: string, value: Value)
    requires k < |s| && forall n :: n in s ==> n in d.attrs
    requires IsElement(d, s[k])
    ensures var t := Compose(AttrGet(d, [s[k]], "transform").value, name, GetValue(value, s[k], k));
            var r := SetEach(d, [s[k]], 0, [("transform", Plain(t))], None);
            r.1.None? && r.0 == TransformOn(d, s[k], k, name, value)
  {
    var n := s[k];
    SplitPlain("transform");
    assert AttrGet(d, [n], "transform") == Success(GetAttribute(d, n, "transform"));
    var t := Compose(GetAttribute(d, n, "transform"), name, GetValue(value, n, k));
    TransformWritable(d, n, t);
    SetOneNode(d, n, [("transform", Plain(t))]);
  }

  /** Writing the `transform` text of an element whose only `transform` is plain reads it back. */
  lemma TransformReadBack(d: Dom, n: Node, t: string)
    requires n in d.attrs && IsElement(d, n) && PlainOnly(d.attrs[n], "transform")
    ensures GetAttribute(SetProps(d, n, 0, [("transform", Plain(t))], None).0, n, "transform") == Some(t)
  {
    PlainReadBack(d, n, "transform", t);
  }

  /** The node written last by `transform` is left alone by the rest of the collection. */
  lemma LaterLeaves(d: Dom, s: seq<Node>, k: nat, name: string, value: Value)
    requires k < |s| && forall n :: n in s ==> n in d.attrs
    requires NoDups(s)
    ensures TransformEach(d, s, k + 1, name, value).0.attrs[s[k]] == d.attrs[s[k]]
  {
    forall i | k + 1 <= i < |s| ensures s[i] != s[k] {}
    assert s[k] !in s[k + 1..];
  }

  /** An element's turn is followed by the turns of the nodes after it. */
  lemma TransformEachNext(d: Dom, s: seq<Node>, k: nat, name: string, value: Value)
    requires k < |s| && (forall n :: n in s ==> n in d.attrs) && IsElement(d, s[k])
    ensures var d1 := TransformOn(d, s[k], k, name, value);
            && (forall n :: n in s ==> n in d1.attrs)
            && TransformEach(d, s, k, name, value) == TransformEach(d1, s, k + 1, name, value)
  {
  }

  /**
   * After `transform(name, value)` every element of the collection reads the composition
   * of its old attribute with its own `name(value)` (when `transform` is only a plain name).
   */
  lemma {:induction false} TransformReads(d: Dom, s: seq<Node>, k: nat, name: string, value: Value, j: nat)
    requires k <= j < |s| && forall n :: n in s ==> n in d.attrs
    requires NoDups(s) && forall i :: k <= i <= j ==> IsElement(d, s[i])
    requires PlainOnly(d.attrs[s[j]], "transform")
    ensures GetAttribute(TransformEach(d, s, k, name, value).0, s[j], "transform")
            == Some(Compose(GetAttribute(d, s[j], "transform"), name, GetValue(value, s[j], j)))
    decreases |s| - k
  {
    var n := s[k];
    var t := Compose(GetAttribute(d, n, "transform"), name, GetValue(value, n, k));
    var d1 := TransformOn(d, n, k, name, value);
    TransformEachNext(d, s, k, name, value);
    if j == k {
      TransformReadBack(d, n, t);
      LaterLeaves(d1, s, k, name, value);
    } else {
      assert s[j] != n;
      forall i | k + 1 <= i <= j ensures IsElement(d1, s[i]) {
        if s[i] != n { OtherNodeReads(d, d1, n, s[i], "transform"); }
      }
      OtherNodeReads(d, d1, n, s[j], "transform");
      TransformReads(d1, s, k + 1, name, value, j);
    }
  }
}
