/** Python's ordering of `str` values and the `sorted(list(set(...)))` idiom
    that every scanner of the package uses to return its addresses.

    Python compares strings code point by code point, and a proper prefix
    comes first; so "10.0.0.10" sorts before "10.0.0.9". */
module Ordering {

  /** Python's `a < b` on strings. */
  predicate Below(a: string, b: string)
    decreases |a|
  {
    if |a| == 0 then |b| > 0
    else if |b| == 0 then false
    else if a[0] != b[0] then a[0] < b[0]
    else Below(a[1..], b[1..])
  }

  lemma {:induction false} BelowIrreflexive(a: string)
    ensures !Below(a, a)
    decreases |a|
  {
    if |a| > 0 {
      BelowIrreflexive(a[1..]);
    }
  }

  lemma {:induction false} BelowTransitive(a: string, b: string, c: string)
    requires Below(a, b) && Below(b, c)
    ensures Below(a, c)
    decreases |a|
  {
    if |a| > 0 && |b| > 0 && |c| > 0 && a[0] == b[0] && b[0] == c[0] {
      BelowTransitive(a[1..], b[1..], c[1..]);
    }
  }

  lemma {:induction false} BelowTotal(a: string, b: string)
    requires a != b
    ensures Below(a, b) || Below(b, a)
    decreases |a|
  {
    if |a| > 0 && |b| > 0 && a[0] == b[0] {
      assert a == [a[0]] + a[1..] && b == [b[0]] + b[1..];
      BelowTotal(a[1..], b[1..]);
    }
  }

  lemma {:induction false} BelowAsymmetric(a: string, b: string)
    requires Below(a, b)
    ensures !Below(b, a)
  {
    if Below(b, a) {
      BelowTransitive(a, b, a);
      BelowIrreflexive(a);
    }
  }

  /** Lexicographic, not numeric: the tenth host sorts before the ninth. */
  lemma LexicographicNotNumeric()
    ensures Below("10.0.0.10", "10.0.0.9")
  {
    var a, b := "10.0.0.10", "10.0.0.9";
    assert a[..7] == b[..7] == "10.0.0.";
    assert a[7] == '1' && b[7] == '9';
    BelowCommonPrefix(a, b, 7);
  }

  lemma {:induction false} BelowCommonPrefix(a: string, b: string, k: nat)
    requires k < |a| && k < |b| && a[..k] == b[..k] && a[k] < b[k]
    ensures Below(a, b)
    decreases k
  {
    if k > 0 {
      assert a[0] == a[..k][0] == b[..k][0] == b[0];
      assert a[1..][..k - 1] == a[1..k] == a[..k][1..];
      assert b[1..][..k - 1] == b[1..k] == b[..k][1..];
      BelowCommonPrefix(a[1..], b[1..], k - 1);
    }
  }

  function Elems(s: seq<string>): set<string>
  {
    set x | x in s
  }

  lemma ElemsEmpty(s: seq<string>)
    ensures Elems(s) == {} <==> s == []
  {
    if s != [] {
      assert s[0] in Elems(s);
    }
  }

  /** Sorted in Python string order, each element strictly above the one before. */
  predicate StrictlySorted(s: seq<string>)
  {
    forall i, j :: 0 <= i < j < |s| ==> Below(s[i], s[j])
  }

  predicate Distinct(s: seq<string>)
  {
    forall i, j :: 0 <= i < j < |s| ==> s[i] != s[j]
  }

  /** A strictly sorted list has no duplicates. */
  lemma StrictlySortedDistinct(s: seq<string>)
    requires StrictlySorted(s)
    ensures Distinct(s)
  {
    forall i, j | 0 <= i < j < |s| ensures s[i] != s[j] {
      if s[i] == s[j] {
        BelowIrreflexive(s[i]);
      }
    }
  }

  lemma ElemsCons(x: string, s: seq<string>)
    ensures Elems([x] + s) == {x} + Elems(s)
  {
    assert forall y :: y in [x] + s <==> y == x || y in s;
  }

  /** A list whose elements all lie above `x` stays strictly sorted with
      `x` put in front. */
  lemma SortedCons(x: string, s: seq<string>)
    requires StrictlySorted(s)
    requires forall y :: y in Elems(s) ==> Below(x, y)
    ensures StrictlySorted([x] + s)
  {
    var r := [x] + s;
    forall i, j | 0 <= i < j < |r| ensures Below(r[i], r[j]) {
      assert r[j] == s[j - 1] && s[j - 1] in Elems(s);
      if i > 0 {
        assert r[i] == s[i - 1];
      }
    }
  }

  /** Inserts `x` into a strictly sorted list, keeping it strictly sorted. */
  function Insert(s: seq<string>, x: string): (r: seq<string>)
    requires StrictlySorted(s)
    ensures StrictlySorted(r)
    ensures Elems(r) == Elems(s) + {x}
    decreases |s|
  {
    if s == [] then [x]
    else if x == s[0] then s
    else if Below(x, s[0]) then
      InsertFront(s, x);
      [x] + s
    else
      var tail := Insert(s[1..], x);
      InsertBehind(s, x, tail);
      [s[0]] + tail
  }

  lemma InsertFront(s: seq<string>, x: string)
    requires StrictlySorted(s) && s != [] && Below(x, s[0])
    ensures StrictlySorted([x] + s)
    ensures Elems([x] + s) == Elems(s) + {x}
  {
    forall y | y in Elems(s) ensures Below(x, y) {
      var j :| 0 <= j < |s| && s[j] == y;
      if j > 0 {
        BelowTransitive(x, s[0], s[j]);
      }
    }
    SortedCons(x, s);
    ElemsCons(x, s);
  }

  lemma InsertBehind(s: seq<string>, x: string, tail: seq<string>)
    requires StrictlySorted(s) && s != [] && x != s[0] && !Below(x, s[0])
    requires StrictlySorted(tail) && Elems(tail) == Elems(s[1..]) + {x}
    ensures StrictlySorted([s[0]] + tail)
    ensures Elems([s[0]] + tail) == Elems(s) + {x}
  {
    BelowTotal(x, s[0]);
    forall y | y in Elems(tail) ensures Below(s[0], y) {
      if y != x {
        var j :| 0 <= j < |s[1..]| && s[1..][j] == y;
        assert s[j + 1] == y;
      }
    }
    SortedCons(s[0], tail);
    ElemsCons(s[0], tail);
    ElemsCons(s[0], s[1..]);
    assert s == [s[0]] + s[1..];
  }

  /** `sorted(list(s))` for a Python set `s` of strings: the elements of `s`
      in increasing order, each once. */
  method SortedList(s: set<string>) returns (r: seq<string>)
    ensures StrictlySorted(r)
    ensures Elems(r) == s
    ensures |r| == |s|
  {
    r := [];
    var rest := s;
    while rest != {}
      invariant StrictlySorted(r)
      invariant Elems(r) + rest == s
      invariant Elems(r) !! rest
      decreases |rest|
    {
      var x :| x in rest;
      r := Insert(r, x);
      rest := rest - {x};
    }
    StrictlySortedDistinct(r);
    DistinctCardinality(r);
  }

  lemma {:induction false} DistinctCardinality(s: seq<string>)
    requires Distinct(s)
    ensures |Elems(s)| == |s|
  {
    if s != [] {
      var t := s[..|s| - 1];
      assert Distinct(t);
      DistinctCardinality(t);
      assert s == t + [s[|s| - 1]];
      assert Elems(s) == Elems(t) + {s[|s| - 1]};
      assert s[|s| - 1] !in Elems(t);
    }
  }

  /** The order `sorted` produces is determined by the elements alone: two
      strictly sorted lists holding the same strings are the same list.  So
      the order in which a set is iterated, or in which concurrent probes
      complete, never shows in a result. */
  lemma {:induction false} SortedListUnique(a: seq<string>, b: seq<string>)
    requires StrictlySorted(a) && StrictlySorted(b)
    requires Elems(a) == Elems(b)
    ensures a == b
    decreases |a|
  {
    ElemsEmpty(a);
    ElemsEmpty(b);
    if a != [] && b != [] {
      assert a[0] in Elems(b) && b[0] in Elems(a);
      if a[0] != b[0] {
        var i :| 0 <= i < |b| && b[i] == a[0];
        var j :| 0 <= j < |a| && a[j] == b[0];
        assert i > 0 && j > 0;
        BelowAsymmetric(b[0], a[0]);
      }
      assert Elems(a[1..]) == Elems(a) - {a[0]} by {
        StrictlySortedDistinct(a);
        assert a == [a[0]] + a[1..];
      }
      assert Elems(b[1..]) == Elems(b) - {b[0]} by {
        StrictlySortedDistinct(b);
        assert b == [b[0]] + b[1..];
      }
      SortedListUnique(a[1..], b[1..]);
      assert a == [a[0]] + a[1..] && b == [b[0]] + b[1..];
    }
  }

  /** The one sorted list of a single string. */
  lemma SortedSingleton(a: seq<string>, x: string)
    requires StrictlySorted(a) && Elems(a) == {x}
    ensures a == [x]
  {
    assert Elems([x]) == {x} by {
      assert forall y :: y in Elems([x]) <==> y in [x];
    }
    SortedListUnique(a, [x]);
  }

  /** In a list without duplicates every element occurs once. */
  lemma {:induction false} DistinctOnce(s: seq<string>, x: string)
    requires Distinct(s)
    ensures multiset(s)[x] == if x in s then 1 else 0
    decreases |s|
  {
    if s != [] {
      var t := s[..|s| - 1];
      assert Distinct(t);
      DistinctOnce(t, x);
      assert s == t + [s[|s| - 1]];
      assert s[|s| - 1] !in t;
    }
  }

  /** `sorted(xs)` of a list without duplicates: the strictly sorted list of
      its elements is a permutation of it. */
  lemma SortedPermutation(r: seq<string>, xs: seq<string>)
    requires StrictlySorted(r) && Distinct(xs) && Elems(r) == Elems(xs)
    ensures multiset(r) == multiset(xs)
  {
    StrictlySortedDistinct(r);
    forall x ensures multiset(r)[x] == multiset(xs)[x] {
      DistinctOnce(r, x);
      DistinctOnce(xs, x);
      assert x in r <==> x in Elems(r);
      assert x in xs <==> x in Elems(xs);
    }
  }
}
