/** Sequence utilities shared by the models: order-preserving filtering,
    the subsequence relation, duplicate removal and a stable sort on an
    integer key (JavaScript's `Array.prototype.sort` is stable). */
module Seqs {

  /** `s.filter(keep)`. */
  function Filter<T>(s: seq<T>, keep: T -> bool): (r: seq<T>)
    ensures |r| <= |s|
    ensures forall i :: 0 <= i < |r| ==> r[i] in s && keep(r[i])
    ensures forall i :: 0 <= i < |s| && keep(s[i]) ==> s[i] in r
    decreases |s|
  {
    if s == [] then []
    else (if keep(s[0]) then [s[0]] else []) + Filter(s[1..], keep)
  }

  /** Taking one more element of `s`. */
  lemma TakeSnoc<T>(s: seq<T>, i: nat)
    requires i < |s|
    ensures s[..i + 1] == s[..i] + [s[i]]
  {
  }

  /** `a` can be obtained from `b` by deleting elements. */
  predicate IsSubsequence<T(==)>(a: seq<T>, b: seq<T>)
    decreases |b|
  {
    if a == [] then true
    else if b == [] then false
    else if a[0] == b[0] then IsSubsequence(a[1..], b[1..])
    else IsSubsequence(a, b[1..])
  }

  /** Prepending an element keeps a subsequence a subsequence. */
  lemma {:induction false} SubsequenceOfCons<T>(a: seq<T>, x: T, b: seq<T>)
    requires IsSubsequence(a, b)
    ensures IsSubsequence(a, [x] + b)
    decreases |b|, 1
  {
    assert ([x] + b)[1..] == b;
    if a != [] && a[0] == x {
      SubsequenceSkipFirst(a, b);
    }
  }

  /** Dropping the first element of a subsequence keeps it a subsequence. */
  lemma {:induction false} SubsequenceSkipFirst<T>(a: seq<T>, b: seq<T>)
    requires a != [] && IsSubsequence(a, b)
    ensures IsSubsequence(a[1..], b)
    decreases |b|, 0
  {
    assert b != [];
    assert [b[0]] + b[1..] == b;
    if a[0] == b[0] {
      SubsequenceOfCons(a[1..], b[0], b[1..]);
    } else {
      SubsequenceSkipFirst(a, b[1..]);
      SubsequenceOfCons(a[1..], b[0], b[1..]);
    }
  }

  lemma {:induction false} SubsequenceReflexive<T>(a: seq<T>)
    ensures IsSubsequence(a, a)
    decreases |a|
  {
    if a != [] { SubsequenceReflexive(a[1..]); }
  }

  /** Filtering keeps the survivors in their original order. */
  lemma {:induction false} FilterIsSubsequence<T>(s: seq<T>, keep: T -> bool)
    ensures IsSubsequence(Filter(s, keep), s)
    decreases |s|
  {
    if s != [] {
      FilterIsSubsequence(s[1..], keep);
      var rest := Filter(s[1..], keep);
      if keep(s[0]) {
        assert Filter(s, keep) == [s[0]] + rest;
        assert ([s[0]] + rest)[1..] == rest;
      } else {
        assert Filter(s, keep) == rest;
        SubsequenceOfCons(rest, s[0], s[1..]);
        assert [s[0]] + s[1..] == s;
      }
    }
  }

  /** A filter that keeps everything is the identity. */
  lemma {:induction false} FilterKeepAll<T>(s: seq<T>, keep: T -> bool)
    requires forall x :: x in s ==> keep(x)
    ensures Filter(s, keep) == s
    decreases |s|
  {
    if s != [] {
      FilterKeepAll(s[1..], keep);
    }
  }

  /** A stronger filter keeps a subsequence of what a weaker one keeps. */
  lemma {:induction false} FilterMonotone<T>(s: seq<T>, strong: T -> bool, weak: T -> bool)
    requires forall x :: x in s && strong(x) ==> weak(x)
    ensures IsSubsequence(Filter(s, strong), Filter(s, weak))
    decreases |s|
  {
    if s == [] {
    } else {
      FilterMonotone(s[1..], strong, weak);
      var rs, rw := Filter(s[1..], strong), Filter(s[1..], weak);
      if strong(s[0]) {
        assert Filter(s, strong) == [s[0]] + rs;
        assert Filter(s, weak) == [s[0]] + rw;
        assert ([s[0]] + rs)[1..] == rs;
        assert ([s[0]] + rw)[1..] == rw;
      } else if weak(s[0]) {
        assert Filter(s, strong) == rs;
        assert Filter(s, weak) == [s[0]] + rw;
        SubsequenceOfCons(rs, s[0], rw);
      } else {
        assert Filter(s, strong) == rs;
        assert Filter(s, weak) == rw;
      }
    }
  }

  /** The number of elements `keep` accepts. */
  function Count<T>(s: seq<T>, keep: T -> bool): (n: nat)
    ensures n == |Filter(s, keep)|
    decreases |s|
  {
    if s == [] then 0 else (if keep(s[0]) then 1 else 0) + Count(s[1..], keep)
  }

  /** No element occurs twice. */
  predicate Distinct<T(==)>(s: seq<T>) {
    forall i, j :: 0 <= i < j < |s| ==> s[i] != s[j]
  }

  /** The distinct elements of `s` in order of first occurrence
      (what a JavaScript `Set` or `Map` iterates in). */
  function FirstOccurrences<T(==)>(s: seq<T>): (r: seq<T>)
    ensures Distinct(r)
    ensures forall i :: 0 <= i < |r| ==> r[i] in s
    ensures forall i :: 0 <= i < |s| ==> s[i] in r
    decreases |s|
  {
    if s == [] then []
    else
      var prefix := FirstOccurrences(s[..|s| - 1]);
      assert forall i :: 0 <= i < |s| - 1 ==> s[i] == s[..|s| - 1][i];
      if s[|s| - 1] in prefix then prefix else prefix + [s[|s| - 1]]
  }

  // ---------------------------------------------------------------------
  // Stable insertion sort on an integer key.

  /** `x` goes before the first element it is less than, so it follows every
      element it ties with. */
  function InsertWith<T>(x: T, s: seq<T>, lt: (T, T) -> bool): (r: seq<T>)
    ensures multiset(r) == multiset(s) + multiset{x}
    ensures |r| == |s| + 1
    decreases |s|
  {
    if s == [] then [x]
    else if lt(x, s[0]) then [x] + s
    else
      assert s == [s[0]] + s[1..];
      [s[0]] + InsertWith(x, s[1..], lt)
  }

  /** Stable insertion sort by a less-than relation: what `Array.prototype.sort`
      returns for a comparator `c` with `c(a, b) < 0` exactly when `lt(a, b)`,
      whenever `lt` is a strict order on the elements. */
  function SortWith<T>(s: seq<T>, lt: (T, T) -> bool): (r: seq<T>)
    ensures multiset(r) == multiset(s)
    ensures |r| == |s|
    decreases |s|
  {
    if s == [] then []
    else
      var sorted := SortWith(s[..|s| - 1], lt);
      assert s == s[..|s| - 1] + [s[|s| - 1]];
      InsertWith(s[|s| - 1], sorted, lt)
  }

  /** No element is less than one before it. */
  predicate SortedWith<T>(s: seq<T>, lt: (T, T) -> bool) {
    forall i, j :: 0 <= i < j < |s| ==> !lt(s[j], s[i])
  }

  /** `lt` is irreflexive and transitive on the elements of `s`. */
  predicate StrictOrderOn<T(==)>(s: seq<T>, lt: (T, T) -> bool) {
    && (forall i :: 0 <= i < |s| ==> !lt(s[i], s[i]))
    && (forall i, j, k :: 0 <= i < |s| && 0 <= j < |s| && 0 <= k < |s| && lt(s[i], s[j]) && lt(s[j], s[k])
          ==> lt(s[i], s[k]))
  }

  lemma StrictOrderOnFacts<T>(s: seq<T>, lt: (T, T) -> bool, a: T, b: T, c: T)
    requires StrictOrderOn(s, lt) && a in s && b in s && c in s
    ensures !lt(a, a)
    ensures lt(a, b) && lt(b, c) ==> lt(a, c)
  {
    var i :| 0 <= i < |s| && s[i] == a;
    var j :| 0 <= j < |s| && s[j] == b;
    var k :| 0 <= k < |s| && s[k] == c;
    if lt(a, b) && lt(b, c) {
      assert lt(s[i], s[j]) && lt(s[j], s[k]);
    }
  }

  lemma StrictOrderOnSub<T>(s: seq<T>, t: seq<T>, lt: (T, T) -> bool)
    requires StrictOrderOn(s, lt)
    requires forall x :: x in t ==> x in s
    ensures StrictOrderOn(t, lt)
  {
    forall i | 0 <= i < |t| ensures !lt(t[i], t[i]) {
      StrictOrderOnFacts(s, lt, t[i], t[i], t[i]);
    }
    forall i, j, k | 0 <= i < |t| && 0 <= j < |t| && 0 <= k < |t| && lt(t[i], t[j]) && lt(t[j], t[k])
      ensures lt(t[i], t[k])
    {
      StrictOrderOnFacts(s, lt, t[i], t[j], t[k]);
    }
  }

  lemma {:induction false} InsertWithSorted<T>(x: T, s: seq<T>, lt: (T, T) -> bool, all: seq<T>)
    requires SortedWith(s, lt)
    requires StrictOrderOn(all, lt) && x in all && forall y :: y in s ==> y in all
    ensures SortedWith(InsertWith(x, s, lt), lt)
    decreases |s|
  {
    var r := InsertWith(x, s, lt);
    if s == [] {
    } else if lt(x, s[0]) {
      forall i, j | 0 <= i < j < |r| ensures !lt(r[j], r[i]) {
        if i == 0 {
          StrictOrderOnFacts(all, lt, s[j - 1], x, s[0]);
          StrictOrderOnFacts(all, lt, s[0], s[0], s[0]);
          if j > 1 {
            assert !lt(s[j - 1], s[0]);
          }
        } else {
          assert r[i] == s[i - 1] && r[j] == s[j - 1];
        }
      }
    } else {
      var rest := InsertWith(x, s[1..], lt);
      assert SortedWith(s[1..], lt) by {
        forall i, j | 0 <= i < j < |s[1..]| ensures !lt(s[1..][j], s[1..][i]) {
          assert s[1..][i] == s[i + 1] && s[1..][j] == s[j + 1];
        }
      }
      InsertWithSorted(x, s[1..], lt, all);
      assert r == [s[0]] + rest;
      forall i, j | 0 <= i < j < |r| ensures !lt(r[j], r[i]) {
        if i == 0 {
          assert r[j] in multiset(rest);
          if r[j] != x {
            assert r[j] in multiset(s[1..]);
            var k :| 0 <= k < |s[1..]| && s[1..][k] == r[j];
            assert s[k + 1] == r[j];
          }
        } else {
          assert r[i] == rest[i - 1] && r[j] == rest[j - 1];
        }
      }
    }
  }

  /** Sorting by a strict order leaves no element less than an earlier one. */
  lemma {:induction false} SortWithSorted<T>(s: seq<T>, lt: (T, T) -> bool)
    requires StrictOrderOn(s, lt)
    ensures SortedWith(SortWith(s, lt), lt)
    decreases |s|
  {
    if s != [] {
      var n := |s| - 1;
      StrictOrderOnSub(s, s[..n], lt);
      SortWithSorted(s[..n], lt);
      var sorted := SortWith(s[..n], lt);
      forall y | y in sorted ensures y in s {
        assert y in multiset(s[..n]);
        var k :| 0 <= k < n && s[..n][k] == y;
      }
      InsertWithSorted(s[n], sorted, lt, s);
    }
  }

  /** `set.add(x)` on a set kept in insertion order. */
  function SetAdd<T(==)>(values: seq<T>, x: T): seq<T> {
    if x in values then values else values + [x]
  }

  /** The first occurrences of a list extended by one element: the element
      is added to the set of those before it. */
  lemma FirstOccurrencesSnoc<T>(s: seq<T>, x: T)
    ensures FirstOccurrences(s + [x]) == SetAdd(FirstOccurrences(s), x)
  {
    assert (s + [x])[..|s + [x]| - 1] == s;
  }

  predicate SortedBy<T>(s: seq<T>, key: T -> int) {
    forall i, j :: 0 <= i < j < |s| ==> key(s[i]) <= key(s[j])
  }

  /** The number of leading elements of a sorted `s` whose key is not larger
      than `x`'s: where a stable insertion puts `x`. */
  function InsertPos<T>(x: T, s: seq<T>, key: T -> int): (p: nat)
    requires SortedBy(s, key)
    ensures p <= |s|
    ensures forall i :: 0 <= i < p ==> key(s[i]) <= key(x)
    ensures forall i :: p <= i < |s| ==> key(x) < key(s[i])
    decreases |s|
  {
    if s == [] || key(x) < key(s[0]) then 0
    else 1 + InsertPos(x, s[1..], key)
  }

  /** Inserts `x` after every element whose key is not larger. */
  function InsertBy<T>(x: T, s: seq<T>, key: T -> int): (r: seq<T>)
    requires SortedBy(s, key)
    ensures SortedBy(r, key)
    ensures multiset(r) == multiset(s) + multiset{x}
    ensures |r| == |s| + 1
  {
    var p := InsertPos(x, s, key);
    InsertAtSplit(x, s, key, p);
    s[..p] + [x] + s[p..]
  }

  /** Putting `x` between the elements whose keys are not larger and those
      whose keys are larger keeps the sequence sorted. */
  lemma InsertAtSplit<T>(x: T, s: seq<T>, key: T -> int, p: nat)
    requires SortedBy(s, key) && p <= |s|
    requires forall i :: 0 <= i < p ==> key(s[i]) <= key(x)
    requires forall i :: p <= i < |s| ==> key(x) < key(s[i])
    ensures SortedBy(s[..p] + [x] + s[p..], key)
    ensures multiset(s[..p] + [x] + s[p..]) == multiset(s) + multiset{x}
    ensures |s[..p] + [x] + s[p..]| == |s| + 1
  {
    var r := s[..p] + [x] + s[p..];
    assert s == s[..p] + s[p..];
    forall i, j | 0 <= i < j < |r| ensures key(r[i]) <= key(r[j]) {
      if j < p {
        assert r[i] == s[i] && r[j] == s[j];
      } else if j == p {
        assert r[i] == s[i];
      } else if i < p {
        assert r[i] == s[i] && r[j] == s[j - 1];
      } else if i == p {
        assert r[j] == s[j - 1];
      } else {
        assert r[i] == s[i - 1] && r[j] == s[j - 1];
      }
    }
  }

  /** `s.sort((a, b) => key(a) - key(b))`: insertion sort, stable. */
  function SortBy<T>(s: seq<T>, key: T -> int): (r: seq<T>)
    ensures SortedBy(r, key)
    ensures multiset(r) == multiset(s)
    ensures |r| == |s|
    decreases |s|
  {
    if s == [] then []
    else
      var sorted := SortBy(s[..|s| - 1], key);
      assert s == s[..|s| - 1] + [s[|s| - 1]];
      InsertBy(s[|s| - 1], sorted, key)
  }

  /** The elements whose key is `k`, in order. */
  function WithKey<T>(s: seq<T>, key: T -> int, k: int): seq<T>
    decreases |s|
  {
    if s == [] then []
    else (if key(s[0]) == k then [s[0]] else []) + WithKey(s[1..], key, k)
  }

  lemma {:induction false} WithKeyAppend<T>(a: seq<T>, b: seq<T>, key: T -> int, k: int)
    ensures WithKey(a + b, key, k) == WithKey(a, key, k) + WithKey(b, key, k)
    decreases |a|
  {
    if a == [] {
      assert a + b == b;
    } else {
      var head := if key(a[0]) == k then [a[0]] else [];
      assert (a + b)[0] == a[0];
      assert (a + b)[1..] == a[1..] + b;
      WithKeyAppend(a[1..], b, key, k);
      calc {
        WithKey(a + b, key, k);
        head + WithKey(a[1..] + b, key, k);
        head + (WithKey(a[1..], key, k) + WithKey(b, key, k));
        (head + WithKey(a[1..], key, k)) + WithKey(b, key, k);
      }
    }
  }

  lemma {:induction false} WithKeyAround<T>(a: seq<T>, x: T, b: seq<T>, key: T -> int, k: int)
    ensures WithKey(a + [x] + b, key, k)
         == WithKey(a, key, k) + (if key(x) == k then [x] else []) + WithKey(b, key, k)
  {
    WithKeyAppend(a + [x], b, key, k);
    WithKeyAppend(a, [x], key, k);
  }

  lemma {:induction false} InsertByStable<T>(x: T, s: seq<T>, key: T -> int, k: int)
    requires SortedBy(s, key)
    ensures WithKey(InsertBy(x, s, key), key, k)
         == WithKey(s, key, k) + (if key(x) == k then [x] else [])
  {
    var p := InsertPos(x, s, key);
    assert InsertBy(x, s, key) == s[..p] + [x] + s[p..];
    WithKeyInsertAt(x, s, key, k, p);
  }

  lemma WithKeyInsertAt<T>(x: T, s: seq<T>, key: T -> int, k: int, p: nat)
    requires p <= |s|
    requires forall i :: p <= i < |s| ==> key(x) < key(s[i])
    ensures WithKey(s[..p] + [x] + s[p..], key, k) == WithKey(s, key, k) + (if key(x) == k then [x] else [])
  {
    var a, b := s[..p], s[p..];
    assert a + b == s;
    forall i | 0 <= i < |b| ensures key(x) < key(b[i]) {
      assert b[i] == s[p + i];
    }
    WithKeyInsert(a, x, b, key, k);
  }

  /** Inserting `x` in front of elements with larger keys puts it last among
      the elements with its key. */
  lemma WithKeyInsert<T>(a: seq<T>, x: T, b: seq<T>, key: T -> int, k: int)
    requires forall i :: 0 <= i < |b| ==> key(x) < key(b[i])
    ensures WithKey(a + [x] + b, key, k) == WithKey(a + b, key, k) + (if key(x) == k then [x] else [])
  {
    WithKeyAppend(a, b, key, k);
    WithKeyAround(a, x, b, key, k);
    if key(x) == k {
      WithKeyAllGreater(b, key, k);
    }
  }

  lemma {:induction false} WithKeyAllGreater<T>(s: seq<T>, key: T -> int, k: int)
    requires forall i :: 0 <= i < |s| ==> key(s[i]) > k
    ensures WithKey(s, key, k) == []
    decreases |s|
  {
    if s != [] { WithKeyAllGreater(s[1..], key, k); }
  }

  /** Stability: among elements with equal keys, SortBy keeps the input order. */
  lemma {:induction false} SortByStable<T>(s: seq<T>, key: T -> int, k: int)
    ensures WithKey(SortBy(s, key), key, k) == WithKey(s, key, k)
    decreases |s|
  {
    if s != [] {
      var init, last := s[..|s| - 1], s[|s| - 1];
      SortByStable(init, key, k);
      InsertByStable(last, SortBy(init, key), key, k);
      assert s == init + [last];
      WithKeyAppend(init, [last], key, k);
    }
  }

  /** No element before position `i` is accepted with key `k`. */
  predicate NoneBefore<T>(s: seq<T>, keep: T -> bool, key: T -> int, k: int, i: int)
    requires 0 <= i <= |s|
  {
    forall j :: 0 <= j < i ==> !(keep(s[j]) && key(s[j]) == k)
  }

  /** The first element with key `k` among those `keep` accepts is the
      earliest such element of `s`. */
  lemma {:induction false} WithKeyFilterFirst<T>(s: seq<T>, keep: T -> bool, key: T -> int, k: int)
    requires WithKey(Filter(s, keep), key, k) != []
    ensures exists i :: 0 <= i < |s| && s[i] == WithKey(Filter(s, keep), key, k)[0]
              && keep(s[i]) && key(s[i]) == k && NoneBefore(s, keep, key, k, i)
    decreases |s|
  {
    var rest := Filter(s[1..], keep);
    if keep(s[0]) && key(s[0]) == k {
      assert Filter(s, keep) == [s[0]] + rest;
      assert NoneBefore(s, keep, key, k, 0);
    } else {
      if keep(s[0]) {
        assert Filter(s, keep) == [s[0]] + rest;
        assert ([s[0]] + rest)[1..] == rest;
      } else {
        assert Filter(s, keep) == rest;
      }
      assert WithKey(Filter(s, keep), key, k) == WithKey(rest, key, k);
      WithKeyFilterFirst(s[1..], keep, key, k);
      var i :| 0 <= i < |s[1..]| && s[1..][i] == WithKey(rest, key, k)[0]
            && keep(s[1..][i]) && key(s[1..][i]) == k && NoneBefore(s[1..], keep, key, k, i);
      assert s[i + 1] == s[1..][i];
      assert NoneBefore(s, keep, key, k, i + 1) by {
        forall j | 0 <= j < i + 1 ensures !(keep(s[j]) && key(s[j]) == k) {
          if j > 0 { assert s[j] == s[1..][j - 1]; }
        }
      }
    }
  }

  /** The index of the last element `keep` accepts, or -1 when there is none. */
  function LastKept<T>(s: seq<T>, keep: T -> bool): (i: int)
    ensures -1 <= i < |s|
    ensures i >= 0 ==> keep(s[i])
    ensures forall j :: i < j < |s| ==> !keep(s[j])
    decreases |s|
  {
    if s == [] then -1
    else if keep(s[|s| - 1]) then |s| - 1
    else LastKept(s[..|s| - 1], keep)
  }

  /** The index of the first element `keep` accepts, or `|s|` when there is none. */
  function FirstWhere<T>(s: seq<T>, keep: T -> bool): (i: nat)
    ensures i <= |s|
    ensures i < |s| ==> keep(s[i])
    ensures forall j :: 0 <= j < i ==> !keep(s[j])
    decreases |s|
  {
    if s == [] then 0
    else if keep(s[0]) then 0
    else 1 + FirstWhere(s[1..], keep)
  }

  /** In a concatenation, the first list decides when it holds an accepted
      element; otherwise the search goes on in the second. */
  lemma FirstWhereAppend<T>(a: seq<T>, b: seq<T>, keep: T -> bool)
    ensures FirstWhere(a + b, keep) == if FirstWhere(a, keep) < |a| then FirstWhere(a, keep) else |a| + FirstWhere(b, keep)
  {
    var ia, ib := FirstWhere(a, keep), FirstWhere(b, keep);
    var k := if ia < |a| then ia else |a| + ib;
    forall j | 0 <= j < k ensures !keep((a + b)[j]) {
      if j < |a| {
        assert (a + b)[j] == a[j];
      } else {
        assert (a + b)[j] == b[j - |a|];
      }
    }
    if k < |a + b| {
      if ia < |a| {
        assert (a + b)[k] == a[ia];
      } else {
        assert (a + b)[k] == b[ib];
      }
    }
    FirstWhereIs(a + b, keep, k);
  }

  /** The first accepted index is the one before which nothing is accepted
      and at which something is. */
  lemma FirstWhereIs<T>(s: seq<T>, keep: T -> bool, k: nat)
    requires k <= |s| && (k < |s| ==> keep(s[k]))
    requires forall j :: 0 <= j < k ==> !keep(s[j])
    ensures FirstWhere(s, keep) == k
  {
  }

  /** The last accepted index among one more element. */
  lemma LastKeptSnoc<T>(s: seq<T>, i: nat, keep: T -> bool)
    requires i < |s|
    ensures LastKept(s[..i + 1], keep) == if keep(s[i]) then i else LastKept(s[..i], keep)
  {
    assert s[..i + 1][..i] == s[..i];
  }

  /** A filter that rejects some element is shorter than its input. */
  lemma {:induction false} FilterShorter<T>(s: seq<T>, keep: T -> bool, i: nat)
    requires i < |s| && !keep(s[i])
    ensures |Filter(s, keep)| < |s|
    decreases |s|
  {
    if i > 0 {
      assert s[1..][i - 1] == s[i];
      FilterShorter(s[1..], keep, i - 1);
    }
  }

  /** The last element a filter keeps is the last element of `s` it accepts. */
  lemma {:induction false} FilterLast<T>(s: seq<T>, keep: T -> bool)
    requires Filter(s, keep) != []
    ensures LastKept(s, keep) >= 0
    ensures Filter(s, keep)[|Filter(s, keep)| - 1] == s[LastKept(s, keep)]
    decreases |s|
  {
    var n := |s| - 1;
    var init, last := s[..n], s[n];
    TakeSnoc(s, n);
    assert s[..n + 1] == s;
    FilterSnoc(init, last, keep);
    if keep(last) {
      assert Filter(s, keep) == Filter(init, keep) + [last];
    } else {
      assert Filter(s, keep) == Filter(init, keep);
      FilterLast(init, keep);
      assert LastKept(s, keep) == LastKept(init, keep);
      assert s[LastKept(s, keep)] == init[LastKept(init, keep)];
    }
  }

  /** Filtering distributes over concatenation. */
  lemma {:induction false} FilterAppend<T>(a: seq<T>, b: seq<T>, keep: T -> bool)
    ensures Filter(a + b, keep) == Filter(a, keep) + Filter(b, keep)
    decreases |a|
  {
    if a == [] {
      assert a + b == b;
    } else {
      assert (a + b)[1..] == a[1..] + b;
      FilterAppend(a[1..], b, keep);
    }
  }

  /** Filtering a list extended by one element. */
  lemma FilterSnoc<T>(s: seq<T>, x: T, keep: T -> bool)
    ensures Filter(s + [x], keep) == Filter(s, keep) + if keep(x) then [x] else []
  {
    FilterAppend(s, [x], keep);
    assert [x][1..] == [];
  }

  /** A test that holds on a prefix and on the next element holds on the
      longer prefix. */
  lemma ExtendAll<T>(s: seq<T>, i: nat, test: T -> bool)
    requires i < |s|
    requires forall j :: 0 <= j < i ==> test(s[j])
    requires test(s[i])
    ensures forall j :: 0 <= j < i + 1 ==> test(s[j])
  {
  }

  /** A map whose keys are the elements of a list, updated at one more key,
      has the elements of the extended list as its keys. */
  lemma KeysSnoc<K, V>(m: map<K, V>, s: seq<K>, k: K, v: V)
    requires forall x :: x in m <==> x in s
    ensures forall x :: x in m[k := v] <==> x in s + [k]
  {
  }

  /** One step of a loop that filters a list into `r`. */
  lemma FilterStep<T>(s: seq<T>, i: nat, keep: T -> bool, r: seq<T>, b: bool)
    requires i < |s| && r == Filter(s[..i], keep) && b == keep(s[i])
    ensures Filter(s[..i + 1], keep) == if b then r + [s[i]] else r
  {
    TakeSnoc(s, i);
    FilterSnoc(s[..i], s[i], keep);
  }

  /** The filter of a literal of four elements, one element at a time. */
  lemma FilterFour<T>(a: T, b: T, c: T, d: T, keep: T -> bool)
    ensures Filter([a, b, c, d], keep)
            == (if keep(a) then [a] else []) + ((if keep(b) then [b] else [])
               + ((if keep(c) then [c] else []) + (if keep(d) then [d] else [])))
  {
    var ka, kb, kc, kd := (if keep(a) then [a] else []), (if keep(b) then [b] else []),
                          (if keep(c) then [c] else []), (if keep(d) then [d] else []);
    assert [a, b, c, d][1..] == [b, c, d];
    assert [b, c, d][1..] == [c, d];
    assert [c, d][1..] == [d];
    assert [d][1..] == [];
    assert Filter([d], keep) == kd;
    assert Filter([c, d], keep) == kc + kd;
    assert Filter([b, c, d], keep) == kb + (kc + kd);
  }

  /** Two tests that agree on every element filter alike. */
  lemma {:induction false} FilterCongruent<T>(s: seq<T>, f: T -> bool, g: T -> bool)
    requires forall x :: x in s ==> f(x) == g(x)
    ensures Filter(s, f) == Filter(s, g)
    decreases |s|
  {
    if s != [] {
      FilterCongruent(s[1..], f, g);
    }
  }

  /** Membership in a filtered list. */
  lemma FilterIn<T>(s: seq<T>, keep: T -> bool, x: T)
    ensures x in Filter(s, keep) <==> x in s && keep(x)
  {
    if x in s && keep(x) {
      var i :| 0 <= i < |s| && s[i] == x;
    }
    if x in Filter(s, keep) {
      var r := Filter(s, keep);
      var i :| 0 <= i < |r| && r[i] == x;
    }
  }

  /** Sorting keeps the elements. */
  lemma SortByIn<T>(s: seq<T>, key: T -> int, x: T)
    ensures x in SortBy(s, key) <==> x in s
  {
    assert x in SortBy(s, key) <==> x in multiset(SortBy(s, key));
    assert x in s <==> x in multiset(s);
  }

  /** A list is free of repetitions exactly when no element occurs twice in its multiset. */
  lemma {:induction false} DistinctMultiset<T>(s: seq<T>)
    ensures Distinct(s) <==> forall x :: multiset(s)[x] <= 1
    decreases |s|
  {
    if s != [] {
      var rest := s[1..];
      DistinctMultiset(rest);
      assert s == [s[0]] + rest;
      assert multiset(s) == multiset{s[0]} + multiset(rest);
      if Distinct(s) {
        assert Distinct(rest) by {
          forall i, j | 0 <= i < j < |rest| ensures rest[i] != rest[j] {
            assert rest[i] == s[i + 1] && rest[j] == s[j + 1];
          }
        }
        assert s[0] !in rest by {
          forall i | 0 <= i < |rest| ensures rest[i] != s[0] {
            assert rest[i] == s[i + 1];
          }
        }
      } else {
        var i, j :| 0 <= i < j < |s| && s[i] == s[j];
        if i == 0 {
          assert s[j] == rest[j - 1];
          assert multiset(rest)[s[0]] >= 1;
          assert multiset(s)[s[0]] >= 2;
        } else {
          assert rest[i - 1] == rest[j - 1];
          assert !Distinct(rest);
        }
      }
      if forall x :: multiset(s)[x] <= 1 {
        assert forall x :: multiset(rest)[x] <= 1 by {
          forall x ensures multiset(rest)[x] <= 1 {
            assert multiset(s)[x] <= 1;
          }
        }
      }
    }
  }

  /** Reordering keeps a list free of repetitions. */
  lemma DistinctPermutation<T>(a: seq<T>, b: seq<T>)
    requires multiset(a) == multiset(b) && Distinct(a)
    ensures Distinct(b)
  {
    DistinctMultiset(a);
    DistinctMultiset(b);
  }

  /** The sum of `f` over a list. */
  function SumBy<T>(s: seq<T>, f: T -> nat): nat
    decreases |s|
  {
    if s == [] then 0 else f(s[0]) + SumBy(s[1..], f)
  }

  lemma {:induction false} SumByAppend<T>(a: seq<T>, b: seq<T>, f: T -> nat)
    ensures SumBy(a + b, f) == SumBy(a, f) + SumBy(b, f)
    decreases |a|
  {
    if a == [] {
      assert a + b == b;
    } else {
      assert (a + b)[1..] == a[1..] + b;
      SumByAppend(a[1..], b, f);
    }
  }

  /** Removing one element from a list. */
  lemma RemoveAt<T>(b: seq<T>, j: nat, f: T -> nat)
    requires j < |b|
    ensures multiset(b) == multiset(b[..j] + b[j + 1..]) + multiset{b[j]}
    ensures SumBy(b, f) == SumBy(b[..j] + b[j + 1..], f) + f(b[j])
  {
    var pre, x, post := b[..j], b[j], b[j + 1..];
    assert b[j..] == [x] + post;
    assert pre + b[j..] == b;
    MultisetAround(pre, x, post);
    SumByAround(pre, x, post, f);
  }

  lemma MultisetAround<T>(pre: seq<T>, x: T, post: seq<T>)
    ensures multiset(pre + ([x] + post)) == multiset(pre + post) + multiset{x}
  {
  }

  lemma SumByAround<T>(pre: seq<T>, x: T, post: seq<T>, f: T -> nat)
    ensures SumBy(pre + ([x] + post), f) == SumBy(pre + post, f) + f(x)
  {
    SumByAppend(pre, [x] + post, f);
    SumByAppend(pre, post, f);
    assert ([x] + post)[1..] == post;
  }

  /** Reordering keeps a sum. */
  lemma {:induction false} SumByPermutation<T>(a: seq<T>, b: seq<T>, f: T -> nat)
    requires multiset(a) == multiset(b)
    ensures SumBy(a, f) == SumBy(b, f)
    decreases |a|
  {
    if a == [] {
      assert |multiset(b)| == 0;
    } else {
      var x := a[0];
      assert x in multiset(b) by { assert x in multiset(a); }
      var j :| 0 <= j < |b| && b[j] == x;
      var b' := b[..j] + b[j + 1..];
      RemoveAt(b, j, f);
      assert a == [x] + a[1..];
      assert multiset(a) == multiset(a[1..]) + multiset{x};
      assert forall y :: multiset(a[1..])[y] == multiset(b')[y] by {
        forall y ensures multiset(a[1..])[y] == multiset(b')[y] {
          assert multiset(a)[y] == multiset(b)[y];
        }
      }
      assert multiset(a[1..]) == multiset(b');
      SumByPermutation(a[1..], b', f);
    }
  }
}
