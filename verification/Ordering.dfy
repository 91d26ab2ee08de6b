/** String comparison and the stable list sort that the planner, the mission
    builder and the dispatcher rely on. Strings compare by code point. The sort is an
    insertion sort; what matters is that it permutes, that it sorts by any comparison
    that behaves as one on sort keys, and that sorted lists of the same strings are equal,
    so that the result does not depend on how the list was arranged before. */
module Ordering {
  import opened Digraph

  /** Code-point lexicographic order on strings. */
  predicate LexLess(a: string, b: string) {
    if b == [] then false
    else if a == [] then true
    else a[0] < b[0] || (a[0] == b[0] && LexLess(a[1..], b[1..]))
  }

  lemma {:induction false} LexTotal(a: string, b: string)
    ensures a == b || LexLess(a, b) || LexLess(b, a)
  {
    if a != [] && b != [] && a[0] == b[0] {
      LexTotal(a[1..], b[1..]);
      assert a == [a[0]] + a[1..] && b == [b[0]] + b[1..];
    }
  }

  lemma {:induction false} LexAsymmetric(a: string, b: string)
    ensures !(LexLess(a, b) && LexLess(b, a))
  {
    if a != [] && b != [] && a[0] == b[0] {
      LexAsymmetric(a[1..], b[1..]);
    }
  }

  lemma {:induction false} LexTransitive(a: string, b: string, c: string)
    requires LexLess(a, b) && LexLess(b, c)
    ensures LexLess(a, c)
  {
    if a != [] && a[0] == b[0] && b[0] == c[0] {
      LexTransitive(a[1..], b[1..], c[1..]);
    }
  }

  /** The strings agree up to `k`, and there the first one ends or has the smaller character. */
  predicate SmallerAt(a: string, b: string, k: nat) {
    k <= |a| && k < |b| && a[..k] == b[..k] && (k == |a| || a[k] < b[k])
  }

  /** One string is below another exactly if at the first place where they differ it ends or
      has the smaller character. */
  lemma {:induction false} LexExactly(a: string, b: string)
    ensures LexLess(a, b) <==> exists k :: SmallerAt(a, b, k)
  {
    forall k: nat | k > 0 && SmallerAt(a, b, k) ensures a != [] && a[0] == b[0] {
      assert a[..k][0] == b[..k][0];
    }
    if a != [] && b != [] && a[0] == b[0] {
      LexExactly(a[1..], b[1..]);
      forall k: nat | SmallerAt(a[1..], b[1..], k) ensures SmallerAt(a, b, k + 1) {
        assert a[..k + 1] == [a[0]] + a[1..][..k] && b[..k + 1] == [b[0]] + b[1..][..k];
      }
      forall k: nat | k > 0 && SmallerAt(a, b, k) ensures SmallerAt(a[1..], b[1..], k - 1) {
        assert a[1..][..k - 1] == a[..k][1..] && b[1..][..k - 1] == b[..k][1..];
      }
      if exists k :: SmallerAt(a[1..], b[1..], k) {
        var k: nat :| SmallerAt(a[1..], b[1..], k);
        assert SmallerAt(a, b, k + 1);
      }
      if exists k :: SmallerAt(a, b, k) {
        var k: nat :| SmallerAt(a, b, k);
        assert k > 0;
      }
    } else {
      assert LexLess(a, b) ==> SmallerAt(a, b, 0);
    }
  }

  /** `less` behaves on the elements of `s` as the comparison of a sort key does. */
  ghost predicate IsKeyOrder<T(!new)>(less: (T, T) -> bool, s: set<T>) {
    && (forall a, b :: a in s && b in s && less(a, b) ==> !less(b, a))
    && (forall a, b, c :: a in s && b in s && c in s && !less(b, a) && !less(c, b) ==> !less(c, a))
  }

  ghost predicate SortedBy<T(!new)>(less: (T, T) -> bool, s: seq<T>) {
    forall i, j :: 0 <= i < j < |s| ==> !less(s[j], s[i])
  }

  function Insert<T>(less: (T, T) -> bool, x: T, s: seq<T>): (r: seq<T>)
    ensures multiset(r) == multiset(s) + multiset{x}
  {
    if s == [] then [x]
    else if less(x, s[|s| - 1]) then
      assert s == s[..|s| - 1] + [s[|s| - 1]];
      Insert(less, x, s[..|s| - 1]) + [s[|s| - 1]]
    else s + [x]
  }

  /** A stable sort of `s` by `less`. */
  function SortBy<T>(less: (T, T) -> bool, s: seq<T>): (r: seq<T>)
    ensures multiset(r) == multiset(s)
  {
    if s == [] then []
    else
      assert s == s[..|s| - 1] + [s[|s| - 1]];
      Insert(less, s[|s| - 1], SortBy(less, s[..|s| - 1]))
  }

  lemma MultisetElements<T>(a: seq<T>, b: seq<T>)
    requires multiset(a) == multiset(b)
    ensures |a| == |b|
    ensures forall x :: x in a <==> x in b
    ensures Elements(a) == Elements(b)
  {
    assert |multiset(a)| == |a| && |multiset(b)| == |b|;
    forall x ensures x in a <==> x in b {
      assert x in a <==> x in multiset(a);
    }
  }

  lemma DistinctPermutation<T>(a: seq<T>, b: seq<T>)
    requires multiset(a) == multiset(b) && Distinct(a)
    ensures Distinct(b)
  {
    MultisetElements(a, b);
    DistinctSize(a);
    DistinctSize(b);
  }

  /** What is not below the last of a sorted list is below none of it. */
  lemma NotBelowLast<T(!new)>(less: (T, T) -> bool, x: T, s: seq<T>, i: nat)
    requires IsKeyOrder(less, Elements(s) + {x}) && SortedBy(less, s)
    requires i < |s| && !less(x, s[|s| - 1])
    ensures !less(x, s[i])
  {
    var last := s[|s| - 1];
    assert s[i] in Elements(s) && last in Elements(s);
    assert i == |s| - 1 || !less(last, s[i]);
  }

  lemma SortedSnoc<T(!new)>(less: (T, T) -> bool, s: seq<T>, x: T)
    requires SortedBy(less, s) && forall i :: 0 <= i < |s| ==> !less(x, s[i])
    ensures SortedBy(less, s + [x])
  {
  }

  lemma {:induction false} InsertSorted<T(!new)>(less: (T, T) -> bool, x: T, s: seq<T>)
    requires IsKeyOrder(less, Elements(s) + {x}) && SortedBy(less, s)
    ensures SortedBy(less, Insert(less, x, s))
  {
    if s != [] && less(x, s[|s| - 1]) {
      var last, rest := s[|s| - 1], s[..|s| - 1];
      assert s == rest + [last];
      InsertSorted(less, x, rest);
      var r := Insert(less, x, rest);
      MultisetElements(r, rest + [x]);
      forall i | 0 <= i < |r| ensures !less(last, r[i]) {
        assert r[i] in rest + [x];
      }
      SortedSnoc(less, r, last);
    } else {
      forall i | 0 <= i < |s| ensures !less(x, s[i]) {
        NotBelowLast(less, x, s, i);
      }
      SortedSnoc(less, s, x);
    }
  }

  lemma {:induction false} SortBySorted<T(!new)>(less: (T, T) -> bool, s: seq<T>)
    requires IsKeyOrder(less, Elements(s))
    ensures SortedBy(less, SortBy(less, s))
  {
    if s != [] {
      var last, rest := s[|s| - 1], s[..|s| - 1];
      assert s == rest + [last];
      SortBySorted(less, rest);
      MultisetElements(SortBy(less, rest), rest);
      InsertSorted(less, last, SortBy(less, rest));
    }
  }

  lemma {:induction false} DistinctCounts<T>(s: seq<T>)
    requires Distinct(s)
    ensures forall x :: multiset(s)[x] == if x in s then 1 else 0
  {
    if s != [] {
      var last, rest := s[|s| - 1], s[..|s| - 1];
      DistinctCounts(rest);
      assert s == rest + [last];
    }
  }

  lemma SameElementsPermute<T>(a: seq<T>, b: seq<T>)
    requires Distinct(a) && Distinct(b) && Elements(a) == Elements(b)
    ensures multiset(a) == multiset(b)
  {
    DistinctCounts(a);
    DistinctCounts(b);
    assert forall x :: (x in a <==> x in Elements(a)) && (x in b <==> x in Elements(b));
  }

  lemma LexIsKeyOrder(s: set<string>)
    ensures IsKeyOrder(LexLess, s)
  {
    forall a, b | a in s && b in s && LexLess(a, b) ensures !LexLess(b, a) {
      LexAsymmetric(a, b);
    }
    forall a, b, c | a in s && b in s && c in s && !LexLess(b, a) && !LexLess(c, b) ensures !LexLess(c, a) {
      LexTotal(a, b);
      LexTotal(b, c);
      LexAsymmetric(a, c);
      if a != b && b != c {
        LexTransitive(a, b, c);
      }
    }
  }

  lemma DropLast<T(!new)>(less: (T, T) -> bool, s: seq<T>)
    requires s != [] && SortedBy(less, s)
    ensures multiset(s[..|s| - 1]) == multiset(s) - multiset{s[|s| - 1]}
    ensures SortedBy(less, s[..|s| - 1])
  {
    assert s == s[..|s| - 1] + [s[|s| - 1]];
  }

  /** Lists of the same strings that are both sorted are equal. */
  lemma {:induction false} SortedUnique(a: seq<string>, b: seq<string>)
    requires multiset(a) == multiset(b) && SortedBy(LexLess, a) && SortedBy(LexLess, b)
    ensures a == b
  {
    MultisetElements(a, b);
    if a != [] {
      var n := |a| - 1;
      GreatestLast(a, b);
      DropLast(LexLess, a);
      DropLast(LexLess, b);
      SortedUnique(a[..n], b[..n]);
      assert a == a[..n] + [a[n]] && b == b[..n] + [b[n]];
    }
  }

  lemma GreatestLast(a: seq<string>, b: seq<string>)
    requires multiset(a) == multiset(b) && SortedBy(LexLess, a) && SortedBy(LexLess, b) && a != [] && |a| == |b|
    ensures a[|a| - 1] == b[|b| - 1]
  {
    MultisetElements(a, b);
    LastIsGreatest(a, b[|b| - 1]);
    LastIsGreatest(b, a[|a| - 1]);
    LexTotal(a[|a| - 1], b[|b| - 1]);
  }

  lemma LastIsGreatest(s: seq<string>, x: string)
    requires SortedBy(LexLess, s) && s != [] && x in s
    ensures x == s[|s| - 1] || !LexLess(s[|s| - 1], x)
  {
    var i :| 0 <= i < |s| && s[i] == x;
  }

  lemma SameSize(a: seq<string>, b: seq<string>)
    requires multiset(a) == multiset(b)
    ensures |a| == |b|
  {
    assert |multiset(a)| == |a| && |multiset(b)| == |b|;
  }
}
