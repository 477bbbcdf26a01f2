/**
 * Python's `sorted(xs, key=f)` and `sorted(xs, key=f, reverse=True)`: a stable sort by a key.
 * The order is given as a strict "comes first" relation `lt` on keys (`<` for ascending,
 * `>` for `reverse=True`, which Python keeps stable). `SortBy` is an insertion sort; the lemmas
 * show that it is a permutation, ordered and stable, and that these three facts determine the
 * result, so any stable sort (Python's included) returns the same sequence.
 */
module Sorting {

  ghost predicate StrictTotalOrder<K(!new)>(lt: (K, K) -> bool)
  {
    && (forall a :: !lt(a, a))
    && (forall a, b, c :: lt(a, b) && lt(b, c) ==> lt(a, c))
    && (forall a, b :: a != b ==> lt(a, b) || lt(b, a))
  }

  /** No element comes strictly before an element that precedes it. */
  ghost predicate SortedBy<T, K>(s: seq<T>, key: T -> K, lt: (K, K) -> bool)
  {
    forall i, j :: 0 <= i < j < |s| ==> !lt(key(s[j]), key(s[i]))
  }

  /** The elements of `s` whose key is `k`, in the order of `s`. */
  ghost function Select<T, K>(s: seq<T>, key: T -> K, k: K): seq<T>
  {
    if |s| == 0 then [] else (if key(s[0]) == k then [s[0]] else []) + Select(s[1..], key, k)
  }

  /** Puts `x` in front of the first element that does not come strictly before it. */
  function Insert<T, K>(x: T, s: seq<T>, key: T -> K, lt: (K, K) -> bool): seq<T>
  {
    if |s| == 0 || !lt(key(s[0]), key(x)) then [x] + s
    else [s[0]] + Insert(x, s[1..], key, lt)
  }

  function SortBy<T, K>(s: seq<T>, key: T -> K, lt: (K, K) -> bool): seq<T>
  {
    if |s| == 0 then [] else Insert(s[0], SortBy(s[1..], key, lt), key, lt)
  }

  lemma {:induction false} SelectMembers<T, K>(s: seq<T>, key: T -> K, k: K, x: T)
    ensures x in Select(s, key, k) <==> x in s && key(x) == k
  {
    if |s| > 0 {
      SelectMembers(s[1..], key, k, x);
      assert s == [s[0]] + s[1..];
    }
  }

  lemma {:induction false} InsertPermutes<T, K>(x: T, s: seq<T>, key: T -> K, lt: (K, K) -> bool)
    ensures multiset(Insert(x, s, key, lt)) == multiset(s) + multiset{x}
  {
    if |s| > 0 && lt(key(s[0]), key(x)) {
      InsertPermutes(x, s[1..], key, lt);
      assert s == [s[0]] + s[1..];
    }
  }

  lemma {:induction false} SortPermutes<T, K>(s: seq<T>, key: T -> K, lt: (K, K) -> bool)
    ensures multiset(SortBy(s, key, lt)) == multiset(s)
  {
    if |s| > 0 {
      SortPermutes(s[1..], key, lt);
      InsertPermutes(s[0], SortBy(s[1..], key, lt), key, lt);
      assert s == [s[0]] + s[1..];
    }
  }

  /** A sorted sequence stays sorted under a head that nothing in it comes strictly before. */
  lemma ConsSorted<T, K>(y: T, t: seq<T>, key: T -> K, lt: (K, K) -> bool)
    requires SortedBy(t, key, lt)
    requires forall j :: 0 <= j < |t| ==> !lt(key(t[j]), key(y))
    ensures SortedBy([y] + t, key, lt)
  {
    var r := [y] + t;
    forall i, j | 0 <= i < j < |r| ensures !lt(key(r[j]), key(r[i])) {
      assert r[j] == t[j - 1];
      if i > 0 {
        assert r[i] == t[i - 1];
      }
    }
  }

  lemma {:induction false} InsertSorted<T, K(!new)>(x: T, s: seq<T>, key: T -> K, lt: (K, K) -> bool)
    requires StrictTotalOrder(lt)
    requires SortedBy(s, key, lt)
    ensures SortedBy(Insert(x, s, key, lt), key, lt)
  {
    if |s| == 0 || !lt(key(s[0]), key(x)) {
      forall j | 0 <= j < |s| ensures !lt(key(s[j]), key(x)) {
        if j > 0 { assert !lt(key(s[j]), key(s[0])); }
      }
      ConsSorted(x, s, key, lt);
    } else {
      InsertSorted(x, s[1..], key, lt);
      var t := Insert(x, s[1..], key, lt);
      InsertPermutes(x, s[1..], key, lt);
      forall j | 0 <= j < |t| ensures !lt(key(t[j]), key(s[0])) {
        assert t[j] in multiset(s[1..]) + multiset{x};
        if t[j] != x {
          assert t[j] in s[1..];
          var m :| 0 <= m < |s[1..]| && s[1..][m] == t[j];
          assert s[m + 1] == t[j];
        }
      }
      ConsSorted(s[0], t, key, lt);
    }
  }

  lemma {:induction false} SortSorted<T, K(!new)>(s: seq<T>, key: T -> K, lt: (K, K) -> bool)
    requires StrictTotalOrder(lt)
    ensures SortedBy(SortBy(s, key, lt), key, lt)
  {
    if |s| > 0 {
      SortSorted(s[1..], key, lt);
      InsertSorted(s[0], SortBy(s[1..], key, lt), key, lt);
    }
  }

  /** Inserting `x` never moves it past an element with the same key. */
  lemma {:induction false} InsertSelect<T, K>(x: T, s: seq<T>, key: T -> K, lt: (K, K) -> bool, k: K)
    requires forall a :: !lt(a, a)
    ensures Select(Insert(x, s, key, lt), key, k)
         == (if key(x) == k then [x] else []) + Select(s, key, k)
  {
    if |s| == 0 || !lt(key(s[0]), key(x)) {
      assert ([x] + s)[1..] == s;
    } else {
      var t := Insert(x, s[1..], key, lt);
      InsertSelect(x, s[1..], key, lt, k);
      assert ([s[0]] + t)[0] == s[0] && ([s[0]] + t)[1..] == t;
      var rest := Select(s[1..], key, k);
      // `x` went past `s[0]`, so at most one of the two has key `k`.
      if key(x) == k {
        assert key(s[0]) != k;
        assert Select(s, key, k) == rest;
        assert Select([s[0]] + t, key, k) == Select(t, key, k) == [x] + rest;
      } else if key(s[0]) == k {
        assert Select(s, key, k) == [s[0]] + rest;
        assert Select([s[0]] + t, key, k) == [s[0]] + Select(t, key, k);
        assert Select(t, key, k) == rest;
      } else {
        assert Select(s, key, k) == rest;
        assert Select([s[0]] + t, key, k) == Select(t, key, k) == rest;
      }
    }
  }

  lemma {:induction false} SortStable<T, K(!new)>(s: seq<T>, key: T -> K, lt: (K, K) -> bool, k: K)
    requires StrictTotalOrder(lt)
    ensures Select(SortBy(s, key, lt), key, k) == Select(s, key, k)
  {
    if |s| > 0 {
      SortStable(s[1..], key, lt, k);
      InsertSelect(s[0], SortBy(s[1..], key, lt), key, lt, k);
    }
  }

  /** Two ordered sequences that agree on every key class are equal. */
  lemma {:induction false} SortedSelectDetermines<T, K(!new)>(a: seq<T>, b: seq<T>, key: T -> K, lt: (K, K) -> bool)
    requires StrictTotalOrder(lt)
    requires SortedBy(a, key, lt) && SortedBy(b, key, lt)
    requires forall k :: Select(a, key, k) == Select(b, key, k)
    ensures a == b
  {
    // An element of either side shows up in its own key class on both sides.
    if |a| > 0 { SelectMembers(a, key, key(a[0]), a[0]); SelectMembers(b, key, key(a[0]), a[0]); }
    if |b| > 0 { SelectMembers(b, key, key(b[0]), b[0]); SelectMembers(a, key, key(b[0]), b[0]); }
    if |a| == 0 || |b| == 0 {
    } else {
      var ka, kb := key(a[0]), key(b[0]);
      assert Select(b, key, kb)[0] == b[0];
      SelectMembers(a, key, kb, b[0]);
      var i :| 0 <= i < |a| && a[i] == b[0];
      assert !lt(kb, ka) by { if i > 0 { assert !lt(key(a[i]), key(a[0])); } }
      assert Select(a, key, ka)[0] == a[0];
      SelectMembers(b, key, ka, a[0]);
      var j :| 0 <= j < |b| && b[j] == a[0];
      assert !lt(ka, kb) by { if j > 0 { assert !lt(key(b[j]), key(b[0])); } }
      assert ka == kb;
      assert a[0] == Select(a, key, ka)[0] == Select(b, key, ka)[0] == b[0];
      forall k ensures Select(a[1..], key, k) == Select(b[1..], key, k) {
        var head := if key(a[0]) == k then [a[0]] else [];
        assert Select(a, key, k) == head + Select(a[1..], key, k);
        assert Select(b, key, k) == head + Select(b[1..], key, k);
        assert Select(a[1..], key, k) == Select(a, key, k)[|head|..];
      }
      SortedSelectDetermines(a[1..], b[1..], key, lt);
      assert a == [a[0]] + a[1..] && b == [b[0]] + b[1..];
    }
  }

  /**
   * What Python promises of a stable sort: a permutation, in order, with every key class in its
   * input order.
   */
  lemma SortByIsStableSort<T, K(!new)>(s: seq<T>, key: T -> K, lt: (K, K) -> bool)
    requires StrictTotalOrder(lt)
    ensures multiset(SortBy(s, key, lt)) == multiset(s)
    ensures SortedBy(SortBy(s, key, lt), key, lt)
    ensures forall k :: Select(SortBy(s, key, lt), key, k) == Select(s, key, k)
  {
    SortPermutes(s, key, lt);
    SortSorted(s, key, lt);
    forall k ensures Select(SortBy(s, key, lt), key, k) == Select(s, key, k) {
      SortStable(s, key, lt, k);
    }
  }

  /** Any ordered sequence that keeps every key class of `s` in its input order is `SortBy(s)`. */
  lemma StableSortIsUnique<T, K(!new)>(r: seq<T>, s: seq<T>, key: T -> K, lt: (K, K) -> bool)
    requires StrictTotalOrder(lt)
    requires SortedBy(r, key, lt)
    requires forall k :: Select(r, key, k) == Select(s, key, k)
    ensures r == SortBy(s, key, lt)
  {
    SortByIsStableSort(s, key, lt);
    SortedSelectDetermines(r, SortBy(s, key, lt), key, lt);
  }

  /** Cutting a sequence short cuts each of its same-key runs short. */
  lemma {:induction false} SelectPrefix<T, K>(a: seq<T>, b: seq<T>, key: T -> K, k: K)
    requires a <= b
    ensures Select(a, key, k) <= Select(b, key, k)
  {
    if |a| > 0 {
      assert a[1..] <= b[1..];
      SelectPrefix(a[1..], b[1..], key, k);
    }
  }

  /**
   * A prefix of the sorted sequence holds the least elements of `s`, in order: nothing left out
   * comes strictly first, and each key keeps a prefix of its elements in their input order.
   */
  lemma PrefixOfSort<T, K(!new)>(p: seq<T>, s: seq<T>, key: T -> K, lt: (K, K) -> bool)
    requires StrictTotalOrder(lt) && p <= SortBy(s, key, lt)
    ensures multiset(p) <= multiset(s)
    ensures SortedBy(p, key, lt)
    ensures forall x, y :: x in p && y in multiset(s) - multiset(p) ==> !lt(key(y), key(x))
    ensures forall k :: Select(p, key, k) <= Select(s, key, k)
  {
    SortByIsStableSort(s, key, lt);
    PrefixOfStableSort(p, SortBy(s, key, lt), s, key, lt);
  }

  lemma PrefixOfStableSort<T, K>(p: seq<T>, sorted: seq<T>, s: seq<T>, key: T -> K, lt: (K, K) -> bool)
    requires p <= sorted && multiset(sorted) == multiset(s) && SortedBy(sorted, key, lt)
    requires forall k :: Select(sorted, key, k) == Select(s, key, k)
    ensures multiset(p) <= multiset(s)
    ensures SortedBy(p, key, lt)
    ensures forall x, y :: x in p && y in multiset(s) - multiset(p) ==> !lt(key(y), key(x))
    ensures forall k :: Select(p, key, k) <= Select(s, key, k)
  {
    var rest := sorted[|p|..];
    assert sorted == p + rest;
    assert multiset(sorted) == multiset(p) + multiset(rest);
    forall x, y | x in p && y in multiset(s) - multiset(p) ensures !lt(key(y), key(x)) {
      assert y in rest;
      var i :| 0 <= i < |p| && p[i] == x;
      var j :| 0 <= j < |rest| && rest[j] == y;
      assert sorted[i] == x && sorted[|p| + j] == y;
    }
    forall k ensures Select(p, key, k) <= Select(s, key, k) {
      SelectPrefix(p, sorted, key, k);
    }
  }

  /** No element occurs twice. */
  ghost predicate Distinct<T>(s: seq<T>)
  {
    forall i, j :: 0 <= i < j < |s| ==> s[i] != s[j]
  }

  lemma {:induction false} DistinctCounts<T>(s: seq<T>, x: T)
    requires Distinct(s)
    ensures multiset(s)[x] <= 1
  {
    if |s| > 0 {
      var init := s[..|s| - 1];
      DistinctCounts(init, x);
      assert s == init + [s[|s| - 1]];
      if x == s[|s| - 1] {
        assert x !in init;
      }
    }
  }

  /** Two positions holding an element that occurs at most once hold different elements. */
  lemma OccursOnce<T>(s: seq<T>, i: nat, j: nat)
    requires i < j < |s| && multiset(s)[s[i]] <= 1
    ensures s[i] != s[j]
  {
    assert s == s[..i] + [s[i]] + s[i + 1..j] + [s[j]] + s[j + 1..];
  }

  lemma PermutationKeepsDistinct<T>(a: seq<T>, b: seq<T>)
    requires Distinct(a) && multiset(a) == multiset(b)
    ensures Distinct(b)
  {
    forall i, j | 0 <= i < j < |b| ensures b[i] != b[j] {
      DistinctCounts(a, b[i]);
      OccursOnce(b, i, j);
    }
  }
}
