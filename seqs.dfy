/** Sequence helpers: identity-distinct sequences, positions, removal and insertion. */
module Seqs {

  /** No element occurs twice (identity-based distinctness of a node list). */
  ghost predicate NoDups<T>(s: seq<T>) {
    forall i, j :: 0 <= i < j < |s| ==> s[i] != s[j]
  }

  /** Index of the first occurrence of `x`, or `|s|` when `x` does not occur. */
  function Position<T(==)>(s: seq<T>, x: T): (i: nat)
    ensures i <= |s|
    ensures i < |s| <==> x in s
    ensures i < |s| ==> s[i] == x
    ensures x !in s[..i]
  {
    if s == [] then 0
    else if s[0] == x then 0
    else
      var k := Position(s[1..], x);
      assert s[..k + 1] == [s[0]] + s[1..][..k];
      1 + k
  }

  /** In a distinct sequence the position of the element at `i` is `i`. */
  lemma PositionOfDistinct<T>(s: seq<T>, i: nat)
    requires NoDups(s) && i < |s|
    ensures Position(s, s[i]) == i
  {
  }

  /** The position of `x` is `i` when `s[i]` is its first occurrence. */
  lemma PositionIs<T>(s: seq<T>, x: T, i: nat)
    requires i < |s| && s[i] == x && forall j :: 0 <= j < i ==> s[j] != x
    ensures Position(s, x) == i
  {
  }

  /** `s` with every occurrence of `x` removed, the others kept in order. */
  function Without<T(==,!new)>(s: seq<T>, x: T): (r: seq<T>)
    ensures forall y :: y in r <==> y in s && y != x
    ensures |r| <= |s|
    ensures x !in s ==> r == s
    ensures x in s && NoDups(s) ==> |r| == |s| - 1
    ensures NoDups(s) ==> NoDups(r)
  {
    if s == [] then []
    else
      var tail := Without(s[1..], x);
      assert NoDups(s) ==> NoDups(s[1..]) && s[0] !in s[1..];
      assert NoDups(s) && x in s[1..] ==> s[0] != x;
      (if s[0] == x then [] else [s[0]]) + tail
  }

  /** `x` inserted so that it lands at index `i`. */
  function InsertAt<T(!new)>(s: seq<T>, i: nat, x: T): (r: seq<T>)
    requires i <= |s|
    ensures |r| == |s| + 1 && r[i] == x
    ensures r[..i] == s[..i] && r[i + 1..] == s[i..]
    ensures forall y :: y in r <==> y in s || y == x
    ensures NoDups(s) && x !in s ==> NoDups(r)
  {
    SplicedIn(s, i, x);
    s[..i] + [x] + s[i..]
  }

  lemma SplicedIn<T>(s: seq<T>, i: nat, x: T)
    requires i <= |s|
    ensures var r := s[..i] + [x] + s[i..];
            && |r| == |s| + 1 && r[i] == x
            && r[..i] == s[..i] && r[i + 1..] == s[i..]
            && (forall y :: y in r <==> y in s || y == x)
            && (NoDups(s) && x !in s ==> NoDups(r))
  {
    var r := s[..i] + [x] + s[i..];
    assert r[..i] == s[..i] && r[i + 1..] == s[i..];
    assert s == s[..i] + s[i..];
    forall y ensures y in r <==> y in s || y == x {
      if y in s {
        assert y in s[..i] || y in s[i..];
      }
    }
    if NoDups(s) && x !in s {
      forall p, q | 0 <= p < q < |r| ensures r[p] != r[q] {
        var sp := if p < i then s[p] else if p == i then x else s[p - 1];
        var sq := if q < i then s[q] else if q == i then x else s[q - 1];
        assert r[p] == sp && r[q] == sq;
      }
    }
  }

  /** The elements of `s` in reverse order. */
  function Reverse<T>(s: seq<T>): (r: seq<T>)
    ensures |r| == |s|
    ensures forall k :: 0 <= k < |s| ==> r[k] == s[|s| - 1 - k]
  {
    if s == [] then [] else Reverse(s[1..]) + [s[0]]
  }

  /** A distinct sequence stays distinct when reversed, and holds the same elements. */
  lemma ReverseDistinct<T(!new)>(s: seq<T>)
    requires NoDups(s)
    ensures NoDups(Reverse(s))
    ensures forall y :: y in Reverse(s) <==> y in s
  {
    var r := Reverse(s);
    forall y | y in s ensures y in r {
      var k :| 0 <= k < |s| && s[k] == y;
      assert r[|s| - 1 - k] == y;
    }
  }

  /** The elements of `s` satisfying `p`, in order. */
  function Filter<T(!new)>(s: seq<T>, p: T -> bool): (r: seq<T>)
    ensures forall y :: y in r <==> y in s && p(y)
    ensures |r| <= |s|
  {
    if s == [] then []
    else (if p(s[0]) then [s[0]] else []) + Filter(s[1..], p)
  }

  /** Filtering distributes over appending one element. */
  lemma {:induction false} FilterSnoc<T(!new)>(s: seq<T>, x: T, p: T -> bool)
    ensures Filter(s + [x], p) == Filter(s, p) + (if p(x) then [x] else [])
  {
    if s != [] {
      assert (s + [x])[1..] == s[1..] + [x];
      FilterSnoc(s[1..], x, p);
    }
  }

  /** Filtering after a prefix, one element at a time. */
  lemma FilterCons<T(!new)>(kept: seq<T>, s: seq<T>, p: T -> bool)
    requires s != []
    ensures kept + Filter(s, p) == (if p(s[0]) then kept + [s[0]] else kept) + Filter(s[1..], p)
  {
    if p(s[0]) {
      AppendAssoc(kept, [s[0]], Filter(s[1..], p));
    } else {
      assert Filter(s, p) == Filter(s[1..], p);
    }
  }

  /** Appending is associative; stated once so that proofs about large sequences can cite it. */
  lemma AppendAssoc<T>(a: seq<T>, b: seq<T>, c: seq<T>)
    ensures a + (b + c) == (a + b) + c
  {
  }

  /** In a distinct sequence, the elements other than `s[k]` are those before `k` and those after it. */
  lemma AroundPosition<T>(s: seq<T>, k: nat, y: T)
    requires NoDups(s) && k < |s|
    ensures y in s[..k] || y in s[k + 1..] <==> y in s && y != s[k]
  {
    if y in s && y != s[k] {
      var i :| 0 <= i < |s| && s[i] == y;
      if i < k {
        assert s[..k][i] == y;
      } else {
        assert s[k + 1..][i - k - 1] == y;
      }
    }
    if y in s[..k] {
      var i :| 0 <= i < k && s[..k][i] == y;
      assert s[i] == y;
    }
    if y in s[k + 1..] {
      var i :| 0 <= i < |s| - k - 1 && s[k + 1..][i] == y;
      assert s[k + 1 + i] == y;
    }
  }

  /** The elements of `s` that do not occur in `drop`, in order. */
  function Except<T(==,!new)>(s: seq<T>, drop: seq<T>): (r: seq<T>)
    ensures forall y :: y in r <==> y in s && y !in drop
    ensures |r| <= |s|
  {
    if s == [] then [] else (if s[0] in drop then [] else [s[0]]) + Except(s[1..], drop)
  }

  /** Dropping nothing keeps everything. */
  lemma {:induction false} ExceptNothing<T(!new)>(s: seq<T>)
    ensures Except(s, []) == s
  {
    if s != [] {
      ExceptNothing(s[1..]);
    }
  }

  /** Dropping one element more is removing it from what was left. */
  lemma {:induction false} ExceptSnoc<T(!new)>(s: seq<T>, drop: seq<T>, c: T)
    ensures Except(s, drop + [c]) == Without(Except(s, drop), c)
  {
    if s != [] {
      ExceptSnoc(s[1..], drop, c);
      var head := if s[0] in drop then [] else [s[0]];
      WithoutAppend(head, Except(s[1..], drop), c);
      assert Without(head, c) == if s[0] in drop + [c] then [] else [s[0]] by {
        if head != [] {
          assert head[1..] == [];
        }
      }
    }
  }

  /** Removal distributes over concatenation. */
  lemma {:induction false} WithoutAppend<T(!new)>(a: seq<T>, b: seq<T>, x: T)
    ensures Without(a + b, x) == Without(a, x) + Without(b, x)
  {
    if a != [] {
      assert (a + b)[1..] == a[1..] + b && (a + b)[0] == a[0];
      WithoutAppend(a[1..], b, x);
      var h := if a[0] == x then [] else [a[0]];
      assert Without(a + b, x) == h + Without(a[1..] + b, x);
      assert Without(a, x) == h + Without(a[1..], x);
      AppendAssoc(h, Without(a[1..], x), Without(b, x));
    } else {
      assert a + b == b;
    }
  }

  /** Reversing a sequence with one more element at the end puts that element first. */
  lemma ReverseSnoc<T>(s: seq<T>, c: T)
    ensures Reverse(s + [c]) == [c] + Reverse(s)
  {
  }

  /** In `a + [x] + b` with `x` not in `a`, the first `x` is at `|a|`. */
  lemma PositionAfter<T>(a: seq<T>, x: T, b: seq<T>)
    requires x !in a
    ensures Position(a + [x] + b, x) == |a|
  {
    var s := a + [x] + b;
    assert s[|a|] == x;
    assert s[..|a|] == a;
  }

  /** A non-empty sequence is its front followed by its last element. */
  lemma FrontLast<T>(s: seq<T>)
    requires s != []
    ensures s == s[..|s| - 1] + [s[|s| - 1]]
  {
  }

  /** The first `i` of the first `i + 1` elements are the first `i`. */
  lemma PrefixOfPrefix<T>(s: seq<T>, i: nat)
    requires i < |s|
    ensures s[..i + 1][..i] == s[..i]
  {
  }

  /** Taking every element gives the sequence back. */
  lemma WholePrefix<T>(s: seq<T>)
    ensures s[..|s|] == s
  {
  }

  /** Dropping every element leaves nothing. */
  lemma {:induction false} ExceptCovered<T(!new)>(s: seq<T>, drop: seq<T>)
    requires forall y :: y in s ==> y in drop
    ensures Except(s, drop) == []
  {
    if s != [] {
      ExceptCovered(s[1..], drop);
    }
  }

  /** Dropping from a concatenation drops from each part. */
  lemma {:induction false} ExceptAppend<T(!new)>(a: seq<T>, b: seq<T>, drop: seq<T>)
    ensures Except(a + b, drop) == Except(a, drop) + Except(b, drop)
  {
    if a != [] {
      assert (a + b)[1..] == a[1..] + b && (a + b)[0] == a[0];
      ExceptAppend(a[1..], b, drop);
    } else {
      assert a + b == b;
    }
  }

  /** Dropping what does not occur changes nothing. */
  lemma {:induction false} ExceptDisjoint<T(!new)>(s: seq<T>, drop: seq<T>)
    requires forall y :: y in s ==> y !in drop
    ensures Except(s, drop) == s
  {
    if s != [] {
      ExceptDisjoint(s[1..], drop);
    }
  }

  /** Removing `c` and then dropping `rest` is dropping `c` and `rest`. */
  lemma {:induction false} ExceptWithout<T(!new)>(s: seq<T>, c: T, rest: seq<T>)
    ensures Except(Without(s, c), rest) == Except(s, [c] + rest)
  {
    if s != [] {
      ExceptWithout(s[1..], c, rest);
      var tail := Without(s[1..], c);
      var h := if s[0] in [c] + rest then [] else [s[0]];
      assert Except(s, [c] + rest) == h + Except(s[1..], [c] + rest);
      if s[0] == c {
        assert Without(s, c) == tail;
      } else {
        var w := [s[0]] + tail;
        assert Without(s, c) == w;
        assert w[0] == s[0] && w[1..] == tail;
        assert Except(w, rest) == h + Except(tail, rest);
      }
    }
  }

  /** Inserting at the index of `x` in `a + [x] + b` puts the new element just before `x`. */
  lemma InsertAtSplit<T(!new)>(a: seq<T>, x: T, b: seq<T>, c: T)
    ensures InsertAt(a + [x] + b, |a|, c) == a + [c] + [x] + b
  {
    var s := a + [x] + b;
    var r := InsertAt(s, |a|, c);
    assert s[..|a|] == a && s[|a|..] == [x] + b;
    assert r == r[..|a|] + [r[|a|]] + r[|a| + 1..];
  }

  /** Inserting at the end appends. */
  lemma InsertAtEnd<T(!new)>(s: seq<T>, c: T)
    ensures InsertAt(s, |s|, c) == s + [c]
  {
    var r := InsertAt(s, |s|, c);
    assert r == r[..|s|] + [r[|s|]];
  }

  /** A non-empty suffix is its first element followed by the rest. */
  lemma SuffixCons<T>(s: seq<T>, k: nat)
    requires k < |s|
    ensures s[k..] == [s[k]] + s[k + 1..]
  {
  }

  /** In a distinct sequence, an element does not occur again after its index. */
  lemma DistinctHead<T>(s: seq<T>, k: nat)
    requires NoDups(s) && k < |s|
    ensures s[k] !in s[k + 1..]
  {
  }

  /** Reversing a sequence with one more element in front puts that element last. */
  lemma ReverseCons<T>(c: T, s: seq<T>)
    ensures Reverse([c] + s) == Reverse(s) + [c]
  {
    assert ([c] + s)[1..] == s;
  }

  /** The two parts of a distinct concatenation are distinct and share nothing. */
  lemma DistinctSplit<T>(a: seq<T>, b: seq<T>)
    requires NoDups(a + b)
    ensures NoDups(a) && NoDups(b)
    ensures forall x :: x in a ==> x !in b
  {
    var s := a + b;
    forall i, j | 0 <= i < |a| && 0 <= j < |b| ensures a[i] != b[j] {
      assert s[i] == a[i] && s[|a| + j] == b[j];
    }
    forall i, j | 0 <= i < j < |b| ensures b[i] != b[j] {
      assert s[|a| + i] == b[i] && s[|a| + j] == b[j];
    }
    assert forall i :: 0 <= i < |a| ==> s[i] == a[i];
  }

  /** Regrouping a concatenation around one element. */
  lemma Assoc3<T>(a: seq<T>, x: T, b: seq<T>)
    ensures a + ([x] + b) == a + [x] + b
  {
  }

  /** Regrouping a concatenation around two elements. */
  lemma Assoc4<T>(a: seq<T>, x: T, y: T, b: seq<T>)
    ensures a + [x] + [y] + b == a + ([x] + ([y] + b))
  {
  }

  /** Appending nothing leaves a sequence as it is. */
  lemma AppendEmpty<T>(a: seq<T>)
    ensures a + [] == a
  {
  }

  /** `r` is `s` with some elements left out, the rest kept in order. */
  ghost predicate Subseq<T>(r: seq<T>, s: seq<T>)
    decreases |s|
  {
    if r == [] then true
    else if s == [] then false
    else (r[0] == s[0] && Subseq(r[1..], s[1..])) || Subseq(r, s[1..])
  }

  /** Keeping or dropping the first element of `s` keeps a subsequence of the rest a subsequence of `s`. */
  lemma SubseqCons<T>(x: T, r: seq<T>, s: seq<T>)
    requires Subseq(r, s)
    ensures Subseq(r, [x] + s) && Subseq([x] + r, [x] + s)
  {
    assert ([x] + s)[1..] == s;
    assert ([x] + r)[1..] == r;
  }

  /** A sequence is a subsequence of itself. */
  lemma {:induction false} SubseqRefl<T>(s: seq<T>)
    ensures Subseq(s, s)
    decreases |s|
  {
    if s != [] {
      SubseqRefl(s[1..]);
    }
  }

  /** Two distinct sequences that share nothing join into a distinct sequence. */
  lemma DistinctJoin<T>(a: seq<T>, b: seq<T>)
    requires NoDups(a) && NoDups(b) && forall x :: x in a ==> x !in b
    ensures NoDups(a + b)
  {
    var s := a + b;
    forall i, j | 0 <= i < j < |s| ensures s[i] != s[j] {
      if i < |a| && j >= |a| {
        assert s[i] in a && s[j] == b[j - |a|];
      }
    }
  }

  /** Prepending nothing leaves a sequence as it is. */
  lemma AppendEmptyFront<T>(a: seq<T>)
    ensures [] + a == a
  {
  }
}
