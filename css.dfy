/**
 * The string helpers of the styling layer: `cssPrefix`, which repeats a property (or a
 * whole style table) under every browser vendor prefix, and `hyphensToCamelCase`.
 */
module Css {
  import opened Wrappers
  import opened Strings

  /** `Pablo.vendorPrefixes`: no prefix first, then the five vendor prefixes. */
  const VendorPrefixes: seq<string> := ["", "-moz-", "-webkit-", "-khtml-", "-o-", "-ms-"]

  /** Each string of `ps` with `x` after it. */
  function Suffixed(ps: seq<string>, x: string): (r: seq<string>)
    ensures |r| == |ps| && forall i :: 0 <= i < |ps| ==> r[i] == ps[i] + x
  {
    if ps == [] then [] else [ps[0] + x] + Suffixed(ps[1..], x)
  }

  /** The property names `cssPrefix` produces for `prop`, one per vendor prefix. */
  function PrefixedNames(prop: string): seq<string> {
    Suffixed(VendorPrefixes, prop)
  }

  // ---------------------------------------------------------------------------
  // Style tables

  /** A plain object of styles: its own properties in enumeration order, keys distinct. */
  type Table = seq<(string, string)>

  /** The value under `key`, if any. */
  function Lookup(t: Table, key: string): (r: Option<string>)
    ensures r.None? <==> forall i :: 0 <= i < |t| ==> t[i].0 != key
  {
    if t == [] then None else if t[0].0 == key then Some(t[0].1) else Lookup(t[1..], key)
  }

  /** No key occurs twice. */
  predicate DistinctKeys(t: Table) {
    forall i, j :: 0 <= i < j < |t| ==> t[i].0 != t[j].0
  }

  /** `res[key] = v`: an existing key keeps its place and takes the new value, a new key goes last. */
  function Assign(t: Table, key: string, v: string): (r: Table)
    ensures Lookup(r, key) == Some(v)
    ensures forall k :: k != key ==> Lookup(r, k) == Lookup(t, k)
    ensures DistinctKeys(t) ==> DistinctKeys(r)
  {
    if t == [] then [(key, v)]
    else if t[0].0 == key then [(key, v)] + t[1..]
    else
      var rest := Assign(t[1..], key, v);
      assert DistinctKeys(t) ==> Lookup(t[1..], t[0].0).None? && DistinctKeys(t[1..]);
      [t[0]] + rest
  }

  /** `vendorPrefixes.forEach(setStyle)` for one property: the value under every prefixed name. */
  function AssignPrefixed(t: Table, names: seq<string>, v: string): (r: Table)
    ensures forall k :: Lookup(r, k) == if k in names then Some(v) else Lookup(t, k)
    ensures DistinctKeys(t) ==> DistinctKeys(r)
    decreases |names|
  {
    if names == [] then t
    else AssignPrefixed(Assign(t, names[0], v), names[1..], v)
  }

  /** The table `cssPrefix(styles)` builds, from accumulated `res` on. */
  function PrefixTable(res: Table, styles: Table): (r: Table)
    ensures DistinctKeys(res) ==> DistinctKeys(r)
    decreases |styles|
  {
    if styles == [] then res
    else PrefixTable(AssignPrefixed(res, PrefixedNames(styles[0].0), styles[0].1), styles[1..])
  }

  /**
   * Reference reading of the prefixed table: a name gets the value of the last property of
   * `styles` that produces it under some vendor prefix.
   */
  function Written(styles: Table, key: string): Option<string> {
    if styles == [] then None
    else
      var later := Written(styles[1..], key);
      if later.Some? then later
      else if key in PrefixedNames(styles[0].0) then Some(styles[0].1)
      else None
  }

  /** The table built from `res` answers as the reference reading, and as `res` for other names. */
  lemma {:induction false} PrefixTableLookup(res: Table, styles: Table, key: string)
    ensures Lookup(PrefixTable(res, styles), key)
            == if Written(styles, key).Some? then Written(styles, key) else Lookup(res, key)
    decreases |styles|
  {
    if styles != [] {
      var res1 := AssignPrefixed(res, PrefixedNames(styles[0].0), styles[0].1);
      PrefixTableLookup(res1, styles[1..], key);
    }
  }

  /** What a property passed to `cssPrefix` looks like. */
  datatype Styles =
    | Object(table: Table)   // a plain object of styles
    | Name(prop: string)     // a single property name
    | Null                   // `null`: an object with no properties
    | NoStyles               // `undefined`, a number, a boolean or a function

  /** The answer of `cssPrefix`. */
  datatype Prefixed = Undefined | Text(s: string) | Rules(table: Table)

  /**
   * `cssPrefix(styles, value)`: a table with every property under every prefix; for a name,
   * the prefixed names joined by commas, or (with a value) the prefixed `name:value;` rules.
   */
  function CssPrefix(styles: Styles, value: Option<string>): (r: Prefixed)
    ensures styles.NoStyles? <==> r.Undefined?
    ensures styles.Name? <==> r.Text?
  {
    match styles
    case Object(table) => Rules(PrefixTable([], table))
    case Null => Rules([])
    case Name(prop) =>
      if value.None? then Text(Join(VendorPrefixes, prop + ",") + prop)
      else
        var rule := prop + ":" + value.value + ";";
        Text(Join(VendorPrefixes, rule) + rule)
    case NoStyles => Undefined
  }

  /** Joining with `x + sep` and appending `x` is joining the suffixed strings with `sep`. */
  lemma {:induction false} JoinSuffixed(ps: seq<string>, x: string, sep: string)
    requires |ps| >= 1
    ensures Join(ps, x + sep) + x == Join(Suffixed(ps, x), sep)
    decreases |ps|
  {
    if |ps| > 1 {
      JoinSuffixed(ps[1..], x, sep);
      assert Suffixed(ps, x)[1..] == Suffixed(ps[1..], x);
      assert ps[0] + (x + sep) + Join(ps[1..], x + sep) + x
          == (ps[0] + x) + sep + (Join(ps[1..], x + sep) + x);
    }
  }

  /** `cssPrefix(prop)` lists the prefixed names, separated by commas. */
  lemma NamesListed(prop: string)
    ensures CssPrefix(Name(prop), None) == Text(Join(PrefixedNames(prop), ","))
  {
    JoinSuffixed(VendorPrefixes, prop, ",");
  }

  /** `cssPrefix(prop, value)` is the rule `prop:value;` under each prefix, one after the other. */
  lemma RulesListed(prop: string, value: string)
    ensures CssPrefix(Name(prop), Some(value))
            == Text(Join(Suffixed(VendorPrefixes, prop + ":" + value + ";"), ""))
  {
    var rule := prop + ":" + value + ";";
    JoinSuffixed(VendorPrefixes, rule, "");
    assert rule + "" == rule;
  }

  /**
   * `cssPrefix(styles)` for a table: every prefixed name of every property is set, nothing
   * else is, and each name holds the value of the last property producing it.
   */
  lemma TableRules(styles: Table, key: string)
    ensures CssPrefix(Object(styles), None).table == CssPrefix(Object(styles), Some(key)).table
    ensures Lookup(CssPrefix(Object(styles), None).table, key) == Written(styles, key)
    ensures DistinctKeys(CssPrefix(Object(styles), None).table)
  {
    PrefixTableLookup([], styles, key);
  }

  /** Without clashes between prefixed names, each prefixed name holds its own property's value. */
  lemma {:induction false} WrittenOwn(styles: Table, j: nat, pre: nat)
    requires j < |styles| && pre < |VendorPrefixes|
    requires forall i :: j < i < |styles| ==> VendorPrefixes[pre] + styles[j].0 !in PrefixedNames(styles[i].0)
    ensures Written(styles, VendorPrefixes[pre] + styles[j].0) == Some(styles[j].1)
    decreases j
  {
    var key := VendorPrefixes[pre] + styles[j].0;
    if j == 0 {
      assert Written(styles[1..], key).None? by {
        NotWritten(styles[1..], key);
      }
      assert key == PrefixedNames(styles[0].0)[pre];
    } else {
      WrittenOwn(styles[1..], j - 1, pre);
    }
  }

  /** A name no property produces is not written. */
  lemma {:induction false} NotWritten(styles: Table, key: string)
    requires forall i :: 0 <= i < |styles| ==> key !in PrefixedNames(styles[i].0)
    ensures Written(styles, key).None?
    decreases |styles|
  {
    if styles != [] {
      NotWritten(styles[1..], key);
    }
  }

  // ---------------------------------------------------------------------------
  // Camel case

  /** A lower-case ASCII letter, what `[a-z]` matches. */
  predicate IsLower(ch: char) {
    'a' <= ch <= 'z'
  }

  /** `toUpperCase` of a lower-case ASCII letter. */
  function Upper(ch: char): (r: char)
    requires IsLower(ch)
    ensures 'A' <= r <= 'Z'
  {
    (ch as int - 32) as char
  }

  /** `str.replace(/-([a-z])/g, upper-cased letter)`: every hyphen before a lower-case letter dropped, the letter raised. */
  function HyphensToCamelCase(s: string): (r: string)
    ensures |r| <= |s|
  {
    if |s| >= 2 && s[0] == '-' && IsLower(s[1]) then [Upper(s[1])] + HyphensToCamelCase(s[2..])
    else if s == [] then []
    else [s[0]] + HyphensToCamelCase(s[1..])
  }

  /** No hyphen followed by a lower-case letter: nothing left for the pattern to match. */
  predicate NoHyphenLower(s: string) {
    forall i :: 0 <= i < |s| - 1 ==> !(s[i] == '-' && IsLower(s[i + 1]))
  }

  /** The conversion of a text that does not begin with a lower-case letter does not either. */
  lemma FirstNotLower(s: string)
    requires s != [] && !IsLower(s[0])
    ensures HyphensToCamelCase(s) != [] && !IsLower(HyphensToCamelCase(s)[0])
  {
  }

  /** The converted text leaves no hyphen before a lower-case letter. */
  lemma {:induction false} CamelCaseClean(s: string)
    ensures NoHyphenLower(HyphensToCamelCase(s))
    decreases |s|
  {
    var r := HyphensToCamelCase(s);
    if |s| >= 2 && s[0] == '-' && IsLower(s[1]) {
      CamelCaseClean(s[2..]);
      assert r[1..] == HyphensToCamelCase(s[2..]);
    } else if s != [] {
      var rest := HyphensToCamelCase(s[1..]);
      CamelCaseClean(s[1..]);
      assert r == [s[0]] + rest;
      if s[0] == '-' && |s| >= 2 {
        FirstNotLower(s[1..]);
      }
      assert forall i :: 1 <= i < |r| - 1 ==> r[i] == rest[i - 1] && r[i + 1] == rest[i];
    }
  }

  /** A text with nothing to match is left as it is. */
  lemma {:induction false} CamelCaseKeeps(s: string)
    requires NoHyphenLower(s)
    ensures HyphensToCamelCase(s) == s
    decreases |s|
  {
    if s != [] {
      NoHyphenLowerTail(s);
      CamelCaseKeeps(s[1..]);
    }
  }

  /** Converting twice is converting once. */
  lemma CamelCaseIdempotent(s: string)
    ensures HyphensToCamelCase(HyphensToCamelCase(s)) == HyphensToCamelCase(s)
  {
    CamelCaseClean(s);
    CamelCaseKeeps(HyphensToCamelCase(s));
  }

  /** A hyphen and a lower-case letter at the front become the upper-case letter. */
  lemma CamelCaseHead(ch: char, suffix: string)
    requires IsLower(ch)
    ensures HyphensToCamelCase(['-', ch] + suffix) == [Upper(ch)] + HyphensToCamelCase(suffix)
  {
    var t := ['-', ch] + suffix;
    assert t[0] == '-' && t[1] == ch && t[2..] == suffix;
  }

  /** One hyphen before a lower-case letter, between clean texts: only that pair changes. */
  lemma CamelCaseOfPair(prefix: string, ch: char, suffix: string)
    requires IsLower(ch) && NoHyphenLower(prefix) && (prefix == [] || prefix[|prefix| - 1] != '-')
    requires NoHyphenLower(suffix)
    ensures HyphensToCamelCase(prefix + (['-', ch] + suffix)) == prefix + ([Upper(ch)] + suffix)
  {
    CamelCaseSplit(prefix, ['-', ch] + suffix);
    CamelCaseHead(ch, suffix);
    CamelCaseKeeps(suffix);
    CamelCaseKeeps(prefix);
  }

  /** Dropping the first character keeps a text clean. */
  lemma NoHyphenLowerTail(s: string)
    requires s != [] && NoHyphenLower(s)
    ensures NoHyphenLower(s[1..])
  {
    forall i | 0 <= i < |s[1..]| - 1 ensures !(s[1..][i] == '-' && IsLower(s[1..][i + 1])) {
      assert s[1..][i] == s[i + 1] && s[1..][i + 1] == s[i + 2];
    }
  }

  /** Converting a clean prefix that does not end in a hyphen, then the rest, is converting the whole. */
  lemma {:induction false} CamelCaseSplit(prefix: string, rest: string)
    requires NoHyphenLower(prefix) && (prefix == [] || prefix[|prefix| - 1] != '-')
    ensures HyphensToCamelCase(prefix + rest) == HyphensToCamelCase(prefix) + HyphensToCamelCase(rest)
    decreases |prefix|
  {
    if prefix != [] {
      var s := prefix + rest;
      assert s[1..] == prefix[1..] + rest;
      NoHyphenLowerTail(prefix);
      assert !(s[0] == '-' && |s| >= 2 && IsLower(s[1])) by {
        if |prefix| == 1 {
          assert s[0] == prefix[0];
        } else {
          assert s[0] == prefix[0] && s[1] == prefix[1];
        }
      }
      assert !(prefix[0] == '-' && |prefix| >= 2 && IsLower(prefix[1]));
      assert prefix[1..] == [] || prefix[1..][|prefix[1..]| - 1] == prefix[|prefix| - 1];
      CamelCaseSplit(prefix[1..], rest);
      assert HyphensToCamelCase(s) == [s[0]] + HyphensToCamelCase(s[1..]);
      assert HyphensToCamelCase(prefix) == [prefix[0]] + HyphensToCamelCase(prefix[1..]);
    } else {
      assert prefix + rest == rest;
    }
  }
}
