/**
 * The class-name methods for hosts without a native class list on SVG elements:
 * `hasClass`, `addClass`, `removeClass` and `toggleClass` working on the text of the
 * `class` attribute.  Membership is a search for the name between single spaces; removal
 * replaces the first match of the regular expression `(^|\s)name(\s|$)` by its second group.
 */
module Classes {
  import opened Wrappers
  import opened Seqs
  import opened Strings
  import opened Dom
  import opened Attributes

  // ---------------------------------------------------------------------------
  // The class text

  /** `classString && (' ' + classString + ' ').indexOf(' ' + c + ' ') >= 0`. */
  predicate HasToken(cs: Option<string>, c: string) {
    cs.Some? && cs.value != "" && IndexOf(" " + cs.value + " ", " " + c + " ") >= 0
  }

  /** The text `addClass` writes: the old text and a space when there is old text, then the name. */
  function AddedText(cs: Option<string>, c: string): string {
    (if cs.Some? && cs.value != "" then cs.value + " " else "") + c
  }

  /** `\s` of JavaScript regular expressions: white space and line terminators. */
  predicate IsSpace(ch: char) {
    || ch == ' ' || ch == '\t' || ch == '\n' || ch == '\r'
    || ch == '\U{000B}' || ch == '\U{000C}' || ch == '\U{00A0}' || ch == '\U{1680}'
    || ('\U{2000}' <= ch <= '\U{200A}')
    || ch == '\U{2028}' || ch == '\U{2029}' || ch == '\U{202F}' || ch == '\U{205F}'
    || ch == '\U{3000}' || ch == '\U{FEFF}'
  }

  /** A match of `(^|\s)c(\s|$)`: where it starts, where its second group starts, where it ends. */
  datatype Match = Match(start: nat, second: nat, end: nat)

  /**
   * The pattern tried at index `p` of `t`: first with `^` as the first group, then with one
   * white-space character; the second group is one white-space character, or else the end.
   */
  function MatchAt(t: string, c: string, p: nat): (r: Option<Match>)
    requires p <= |t|
    ensures r.Some? ==> r.value.start == p && p <= r.value.second <= r.value.end <= |t|
  {
    var atStart :=
      if p == 0 && OccursAt(t, c, 0) then
        if |c| < |t| && IsSpace(t[|c|]) then Some(Match(0, |c|, |c| + 1))
        else if |c| == |t| then Some(Match(0, |c|, |c|))
        else None
      else None;
    if atStart.Some? then atStart
    else if p < |t| && IsSpace(t[p]) && OccursAt(t, c, p + 1) then
      var e := p + 1 + |c|;
      if e < |t| && IsSpace(t[e]) then Some(Match(p, e, e + 1))
      else if e == |t| then Some(Match(p, e, e))
      else None
    else None
  }

  /**
   * What a match is: the name, preceded by the start of the text or by one white-space
   * character, and followed by one white-space character (the second group) or the end.
   */
  lemma MatchShape(t: string, c: string, p: nat)
    requires p <= |t| && MatchAt(t, c, p).Some?
    ensures var m := MatchAt(t, c, p).value;
            && |c| <= m.second && OccursAt(t, c, m.second - |c|)
            && (m.second - |c| == p || (m.second - |c| == p + 1 && IsSpace(t[p])))
            && (if m.end == m.second then m.end == |t| else m.end == m.second + 1 && IsSpace(t[m.second]))
  {
  }

  /** The leftmost match at or after index `p`. */
  function FirstMatch(t: string, c: string, p: nat): (r: Option<Match>)
    requires p <= |t|
    ensures r.Some? ==> p <= r.value.start <= |t| && MatchAt(t, c, r.value.start) == r
    ensures r.Some? ==> forall q :: p <= q < r.value.start ==> MatchAt(t, c, q).None?
    ensures r.None? ==> forall q :: p <= q <= |t| ==> MatchAt(t, c, q).None?
    decreases |t| - p
  {
    var m := MatchAt(t, c, p);
    if m.Some? then m
    else if p == |t| then None
    else FirstMatch(t, c, p + 1)
  }

  /** `t.replace(/(^|\s)c(\s|$)/, '$2')`: the first match replaced by its second group. */
  function StripClass(t: string, c: string): (r: string)
    ensures FirstMatch(t, c, 0).None? ==> r == t
    ensures |r| <= |t|
  {
    match FirstMatch(t, c, 0)
    case None => t
    case Some(m) => t[..m.start] + t[m.second..m.end] + t[m.end..]
  }

  /** The three class operations. */
  datatype ClassOp = AddOp | RemoveOp | ToggleOp

  /** The text one node's `class` attribute is set to, or nothing when the operation writes nothing. */
  function NewClass(op: ClassOp, cs: Option<string>, c: string): (r: Option<string>)
    ensures op == AddOp ==> (r.None? <==> HasToken(cs, c))
    ensures op == RemoveOp ==> (r.None? <==> !HasToken(cs, c))
    ensures op == ToggleOp ==> r.Some?
  {
    match op
    case AddOp => if HasToken(cs, c) then None else Some(AddedText(cs, c))
    case RemoveOp => if HasToken(cs, c) then Some(StripClass(cs.value, c)) else None
    case ToggleOp => if HasToken(cs, c) then Some(StripClass(cs.value, c)) else Some(AddedText(cs, c))
  }

  /** The attribute text after the operation. */
  function ClassAfter(op: ClassOp, cs: Option<string>, c: string): Option<string> {
    var w := NewClass(op, cs, c);
    if w.Some? then w else cs
  }

  // ---------------------------------------------------------------------------
  // Properties of the class text

  /** No white-space character in `c`. */
  predicate NoSpace(c: string) {
    forall i :: 0 <= i < |c| ==> !IsSpace(c[i])
  }

  /** The only white space in `s` is the plain space, the one separator `hasClass` knows. */
  predicate SpaceSeparated(s: string) {
    forall i :: 0 <= i < |s| ==> IsSpace(s[i]) ==> s[i] == ' '
  }

  /** The text written by `addClass` always holds the name. */
  lemma AddedHasToken(cs: Option<string>, c: string)
    requires c != ""
    ensures HasToken(Some(AddedText(cs, c)), c)
  {
    var a := AddedText(cs, c);
    var padded := " " + a + " ";
    var w := " " + c + " ";
    var k := |a| - |c|;
    assert padded[k..k + |w|] == w;
    assert OccursAt(padded, w, k);
  }

  /** After `addClass` the name is there, whatever the text held before. */
  lemma AddThenHas(cs: Option<string>, c: string)
    requires c != ""
    ensures HasToken(ClassAfter(AddOp, cs, c), c)
  {
    if !HasToken(cs, c) {
      AddedHasToken(cs, c);
    }
  }

  /** `addClass` twice is `addClass` once. */
  lemma AddIdempotent(cs: Option<string>, c: string)
    requires c != ""
    ensures ClassAfter(AddOp, ClassAfter(AddOp, cs, c), c) == ClassAfter(AddOp, cs, c)
  {
    AddThenHas(cs, c);
  }

  /** A name without white space found at `q` ends before any white space at or after `q`. */
  lemma EndsBeforeSpace(t: string, c: string, q: nat, m: nat)
    requires NoSpace(c) && OccursAt(t, c, q) && q <= m < |t| && IsSpace(t[m])
    ensures q + |c| <= m
  {
    assert forall i :: q <= i < q + |c| ==> t[i] == c[i - q];
  }

  /**
   * In `s + " " + c`, a match that starts inside `s` means `hasClass` already finds the
   * name in `s`.
   */
  lemma EarlyMatchFindsToken(s: string, c: string, p: nat)
    requires SpaceSeparated(s) && NoSpace(c) && p < |s|
    ensures MatchAt(s + " " + c, c, p).Some? ==> HasToken(Some(s), c)
  {
    var t := s + " " + c;
    var padded := " " + s + " ";
    var w := " " + c + " ";
    var m := MatchAt(t, c, p);
    if m.Some? {
      MatchShape(t, c, p);
      var q := m.value.second - |c|;
      // The name sits inside `s` and is followed by a space of `s` or by the separator.
      assert t[|s|] == ' ';
      EndsBeforeSpace(t, c, q, |s|);
      var e := m.value.second;
      assert m.value.end == e + 1 && IsSpace(t[e]);
      assert t[e] == ' ' by {
        if e < |s| { assert t[e] == s[e]; }
      }
      // `padded[q + 1..]` begins with `s[q..]` followed by the padding space.
      assert padded[q] == ' ' by {
        if q > 0 {
          assert q == p + 1 && IsSpace(t[p]) && t[p] == s[p];
          assert padded[q] == s[q - 1];
        }
      }
      assert padded[q + 1..e + 1] == c by {
        PaddedShift(s, c);
        assert forall i :: 0 <= i < |c| ==> padded[q + 1..e + 1][i] == t[q..e][i];
      }
      assert padded[e + 1] == ' ' by {
        if e < |s| { assert padded[e + 1] == s[e]; }
      }
      assert padded[q..q + |w|] == w;
      assert OccursAt(padded, w, q);
    }
  }

  /** The padded text `hasClass` searches agrees, one place further on, with `s + " " + c` up to the separator. */
  lemma PaddedShift(s: string, c: string)
    ensures forall i :: 0 <= i <= |s| ==> (" " + s + " ")[i + 1] == (s + " " + c)[i]
  {
  }

  /** With no match from `p` up to `m`, the first match from `p` is the first from `m`. */
  lemma {:induction false} FirstMatchSkips(t: string, c: string, p: nat, m: nat)
    requires p <= m <= |t|
    requires forall q :: p <= q < m ==> MatchAt(t, c, q).None?
    ensures FirstMatch(t, c, p) == FirstMatch(t, c, m)
    decreases m - p
  {
    if p < m {
      assert MatchAt(t, c, p).None?;
      FirstMatchSkips(t, c, p + 1, m);
    }
  }

  /** `removeClass` undoes an `addClass` that added the name, on space-separated text. */
  lemma RemoveAfterAdd(cs: Option<string>, c: string)
    requires c != "" && NoSpace(c) && !HasToken(cs, c)
    requires cs.Some? ==> SpaceSeparated(cs.value)
    ensures ClassAfter(RemoveOp, ClassAfter(AddOp, cs, c), c) == Some(cs.GetOr(""))
  {
    AddedHasToken(cs, c);
    if cs.Some? && cs.value != "" {
      StripAppended(cs.value, c);
    } else {
      StripAlone(c);
    }
  }

  /** Removing the name from `s + " " + c`, when `s` did not hold it, gives `s` back. */
  lemma StripAppended(s: string, c: string)
    requires s != "" && SpaceSeparated(s) && NoSpace(c) && !HasToken(Some(s), c)
    ensures StripClass(s + " " + c, c) == s
  {
    var t := s + " " + c;
    forall q | 0 <= q < |s| ensures MatchAt(t, c, q).None? {
      EarlyMatchFindsToken(s, c, q);
    }
    FirstMatchSkips(t, c, 0, |s|);
    assert OccursAt(t, c, |s| + 1) by {
      assert t[|s| + 1..] == c;
    }
    assert MatchAt(t, c, |s|) == Some(Match(|s|, |t|, |t|));
    assert t[..|s|] == s;
  }

  /** Removing the name from a text that is exactly the name leaves the empty text. */
  lemma StripAlone(c: string)
    ensures StripClass(c, c) == ""
  {
    assert OccursAt(c, c, 0);
    assert MatchAt(c, c, 0) == Some(Match(0, |c|, |c|));
  }

  /** `removeClass` removes the first occurrence only: from `c c` one `c` is left. */
  lemma RemoveFirstOnly(c: string)
    requires c != ""
    ensures ClassAfter(RemoveOp, Some(c + " " + c), c) == Some(" " + c)
    ensures HasToken(ClassAfter(RemoveOp, Some(c + " " + c), c), c)
  {
    var t := c + " " + c;
    assert OccursAt(t, c, 0) && t[|c|] == ' ';
    assert MatchAt(t, c, 0) == Some(Match(0, |c|, |c| + 1));
    AddedHasToken(Some(c), c);
    assert AddedText(Some(c), c) == t;
    assert StripClass(t, c) == " " + c by {
      assert t[|c|..|c| + 1] == " " && t[|c| + 1..] == c;
    }
    var padded := " " + (" " + c) + " ";
    assert padded[1..1 + |c| + 2] == " " + c + " ";
    assert OccursAt(padded, " " + c + " ", 1);
  }

  /** `toggleClass` adds a missing name, and toggling again removes it. */
  lemma ToggleTwice(cs: Option<string>, c: string)
    requires c != "" && NoSpace(c) && !HasToken(cs, c)
    requires cs.Some? ==> SpaceSeparated(cs.value)
    ensures HasToken(ClassAfter(ToggleOp, cs, c), c)
    ensures ClassAfter(ToggleOp, ClassAfter(ToggleOp, cs, c), c) == Some(cs.GetOr(""))
  {
    AddThenHas(cs, c);
    RemoveAfterAdd(cs, c);
  }

  // ---------------------------------------------------------------------------
  // On the collection

  /** `Pablo(el).attr('class')` for a node of a collection: a node without attribute methods raises. */
  function ClassOf(d: Dom, n: Node): (r: Result<Option<string>, DomError>)
    ensures r == if IsElement(d, n) then Success(GetAttribute(d, n, "class")) else Failure(TypeError)
  {
    SplitPlain("class");
    AttrGet(d, [n], "class")
  }

  /**
   * `hasClass(c)` from index `k` on (`Array.prototype.some`): true at the first node that
   * has the name; reading a node without attribute methods raises.
   */
  function HasClassFrom(d: Dom, s: seq<Node>, k: nat, c: string): (r: Result<bool, DomError>)
    requires k <= |s|
    ensures r == Success(false) <==> forall j :: k <= j < |s| ==> IsElement(d, s[j]) && !HasToken(GetAttribute(d, s[j], "class"), c)
    ensures r == Success(true) ==> exists j :: k <= j < |s| && IsElement(d, s[j]) && HasToken(GetAttribute(d, s[j], "class"), c)
    ensures r.Failure? ==> r.error == TypeError && exists j :: k <= j < |s| && !IsElement(d, s[j])
    decreases |s| - k
  {
    if k == |s| then Success(false)
    else match ClassOf(d, s[k])
      case Failure(e) => Failure(e)
      case Success(cs) => if HasToken(cs, c) then Success(true) else HasClassFrom(d, s, k + 1, c)
  }

  /** `hasClass(c)`: whether any node of the collection has the name. */
  method HasClass(d: Dom, s: seq<Node>, c: string) returns (r: Result<bool, DomError>)
    ensures r == HasClassFrom(d, s, 0, c)
  {
    var i := 0;
    while i < |s|
      invariant i <= |s| && HasClassFrom(d, s, 0, c) == HasClassFrom(d, s, i, c)
    {
      var cs := ClassOf(d, s[i]);
      if cs.Failure? {
        return Failure(cs.error);
      }
      if HasToken(cs.value, c) {
        return Success(true);
      }
      i := i + 1;
    }
    r := Success(false);
  }

  /** One node's turn in `addClass`, `removeClass` or `toggleClass`. */
  function ClassOn(d: Dom, n: Node, op: ClassOp, c: string): (r: (Dom, Option<DomError>))
    requires n in d.attrs
    ensures AttrsOnly(d, r.0, n)
    ensures r.1.Some? <==> !IsElement(d, n)
  {
    match ClassOf(d, n)
    case Failure(e) => (d, Some(e))
    case Success(cs) =>
      match NewClass(op, cs, c)
      case None => (d, None)
      case Some(v) =>
        PlainWritable(d, n, "class", v);
        var w := SetProps(d, n, 0, [("class", Plain(v))], None);
        (w.0, w.2)
  }

  /** The operation from the node at index `k` on, until a node raises. */
  function ClassEach(d: Dom, s: seq<Node>, k: nat, op: ClassOp, c: string): (r: (Dom, Option<DomError>))
    requires k <= |s| && forall n :: n in s ==> n in d.attrs
    ensures r.0 == d.(attrs := r.0.attrs) && r.0.attrs.Keys == d.attrs.Keys
    ensures forall m :: m in d.attrs && m !in s[k..] ==> r.0.attrs[m] == d.attrs[m]
    ensures r.1.Some? <==> !ElementsFrom(d, s, k)
    decreases |s| - k
  {
    if k == |s| then (d, None)
    else
      var (d1, e) := ClassOn(d, s[k], op, c);
      if e.Some? then (d1, e)
      else
        OutsideStep(s, k);
        ElementsStep(d, d1, s, k);
        ClassEach(d1, s, k + 1, op, c)
  }

  /** `addClass(c)`, `removeClass(c)` or `toggleClass(c)` on every node of the collection. */
  method ChangeClass(d: Dom, s: seq<Node>, op: ClassOp, c: string) returns (d': Dom, error: Option<DomError>)
    requires forall n :: n in s ==> n in d.attrs
    ensures (d', error) == ClassEach(d, s, 0, op, c)
  {
    d' := d;
    var i := 0;
    while i < |s|
      invariant i <= |s| && forall n :: n in s ==> n in d'.attrs
      invariant ClassEach(d, s, 0, op, c) == ClassEach(d', s, i, op, c)
    {
      var el := s[i];
      var cs := ClassOf(d', el);
      if cs.Failure? {
        return d', Some(cs.error);
      }
      var text := NewClass(op, cs.value, c);
      if text.Some? {
        var written;
        SetOneNode(d', el, [("class", Plain(text.value))]);
        d', written := SetAttr(d', [el], [("class", Plain(text.value))]);
      }
      i := i + 1;
    }
    error := None;
  }

  /** The node written first is left alone by the rest of the collection. */
  lemma ClassLaterLeaves(d: Dom, s: seq<Node>, k: nat, op: ClassOp, c: string)
    requires k < |s| && forall n :: n in s ==> n in d.attrs
    requires NoDups(s)
    ensures ClassEach(d, s, k + 1, op, c).0.attrs[s[k]] == d.attrs[s[k]]
  {
    forall i | k + 1 <= i < |s| ensures s[i] != s[k] {}
    assert s[k] !in s[k + 1..];
  }

  /** One node's turn reads back as the text the operation computes from the old text. */
  lemma ClassOnReads(d: Dom, n: Node, op: ClassOp, c: string)
    requires n in d.attrs && IsElement(d, n) && PlainOnly(d.attrs[n], "class")
    ensures GetAttribute(ClassOn(d, n, op, c).0, n, "class") == ClassAfter(op, GetAttribute(d, n, "class"), c)
  {
    var w := NewClass(op, GetAttribute(d, n, "class"), c);
    if w.Some? {
      PlainReadBack(d, n, "class", w.value);
    }
  }

  /**
   * After the operation every element of the collection reads the text the operation
   * computes from its old text (when `class` is only a plain name on it).
   */
  lemma {:induction false} ClassReads(d: Dom, s: seq<Node>, k: nat, op: ClassOp, c: string, j: nat)
    requires k <= j < |s| && forall n :: n in s ==> n in d.attrs
    requires NoDups(s) && forall i :: k <= i <= j ==> IsElement(d, s[i])
    requires PlainOnly(d.attrs[s[j]], "class")
    ensures GetAttribute(ClassEach(d, s, k, op, c).0, s[j], "class") == ClassAfter(op, GetAttribute(d, s[j], "class"), c)
    decreases |s| - k
  {
    var n := s[k];
    var d1 := ClassOn(d, n, op, c).0;
    if j == k {
      ClassOnReads(d, n, op, c);
      ClassLaterLeaves(d1, s, k, op, c);
    } else {
      assert s[j] != n;
      forall i | k + 1 <= i <= j ensures IsElement(d1, s[i]) {
        if s[i] != n { OtherNodeReads(d, d1, n, s[i], "class"); }
      }
      OtherNodeReads(d, d1, n, s[j], "class");
      ClassReads(d1, s, k + 1, op, c, j);
    }
  }

  /** After `addClass(c)` on a collection of elements, `hasClass(c)` answers true. */
  lemma AddClassThenHasClass(d: Dom, s: seq<Node>, c: string)
    requires s != [] && c != "" && forall n :: n in s ==> n in d.attrs
    requires NoDups(s) && forall i :: 0 <= i < |s| ==> IsElement(d, s[i])
    requires PlainOnly(d.attrs[s[0]], "class")
    ensures HasClassFrom(ClassEach(d, s, 0, AddOp, c).0, s, 0, c) == Success(true)
  {
    var d' := ClassEach(d, s, 0, AddOp, c).0;
    ClassReads(d, s, 0, AddOp, c, 0);
    AddThenHas(GetAttribute(d, s[0], "class"), c);
    assert IsElement(d', s[0]);
  }
}
