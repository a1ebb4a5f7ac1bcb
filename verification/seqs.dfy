/** Generic sequence operations behind the incident views: order-preserving
    filtering (`Array.prototype.filter`), subsequences, duplicate removal in
    first-seen order (`Array.from(new Set(...))`), and the stable sort by an
    integer key that `Array.prototype.sort` performs with a numeric comparator. */
module Seqs {

  /** `a` is obtained from `b` by deleting elements; the rest keep their order. */
  predicate IsSubseq<T(==,!new)>(a: seq<T>, b: seq<T>)
    decreases |b|
  {
    |a| <= |b| &&
    (|a| == 0 || (a[0] == b[0] && IsSubseq(a[1..], b[1..])) || IsSubseq(a, b[1..]))
  }

  /** No element occurs twice. */
  predicate NoDuplicates<T(==,!new)>(s: seq<T>) {
    forall i, j :: 0 <= i < j < |s| ==> s[i] != s[j]
  }

  // ---------------------------------------------------------------------------
  // Filtering
  // ---------------------------------------------------------------------------

  /** The elements of `s` that satisfy `p`, in their original order. */
  function Filter<T(==,!new)>(s: seq<T>, p: T -> bool): (r: seq<T>)
    ensures |r| <= |s|
    ensures forall x {:trigger x in r} :: x in r <==> x in s && p(x)
  {
    if |s| == 0 then []
    else if p(s[0]) then [s[0]] + Filter(s[1..], p)
    else Filter(s[1..], p)
  }

  lemma FilterCons<T(!new)>(x: T, s: seq<T>, p: T -> bool)
    ensures Filter([x] + s, p) == (if p(x) then [x] else []) + Filter(s, p)
  {
    assert ([x] + s)[1..] == s;
  }

  /** Filtering deletes elements and keeps the order of the rest. */
  lemma {:induction false} FilterIsSubseq<T(!new)>(s: seq<T>, p: T -> bool)
    ensures IsSubseq(Filter(s, p), s)
    decreases |s|
  {
    if |s| > 0 {
      FilterIsSubseq(s[1..], p);
      var rest := Filter(s[1..], p);
      if p(s[0]) {
        assert Filter(s, p) == [s[0]] + rest;
        assert ([s[0]] + rest)[1..] == rest;
      } else {
        IsSubseqPrepend(rest, [s[0]], s[1..]);
        assert [s[0]] + s[1..] == s;
      }
    }
  }

  /** Filtering keeps every copy of an element that passes and none of one
      that fails. */
  lemma {:induction false} FilterMultiset<T(!new)>(s: seq<T>, p: T -> bool)
    ensures forall x :: multiset(Filter(s, p))[x] == if p(x) then multiset(s)[x] else 0
    decreases |s|
  {
    if |s| > 0 {
      FilterMultiset(s[1..], p);
      assert s == [s[0]] + s[1..];
    }
  }

  /** Filtering distributes over concatenation. */
  lemma {:induction false} FilterAppend<T(!new)>(a: seq<T>, b: seq<T>, p: T -> bool)
    ensures Filter(a + b, p) == Filter(a, p) + Filter(b, p)
    decreases |a|
  {
    if |a| == 0 {
      assert a + b == b;
    } else {
      var t := a[1..];
      FilterAppend(t, b, p);
      assert (a + b)[0] == a[0] && (a + b)[1..] == t + b;
      if p(a[0]) {
        assert Filter(a + b, p) == [a[0]] + Filter(t + b, p);
        assert Filter(a, p) == [a[0]] + Filter(t, p);
        assert [a[0]] + (Filter(t, p) + Filter(b, p)) == ([a[0]] + Filter(t, p)) + Filter(b, p);
      } else {
        assert Filter(a + b, p) == Filter(t + b, p);
      }
    }
  }

  /** A filter every element passes keeps the whole sequence. */
  lemma {:induction false} FilterKeepsAll<T(!new)>(s: seq<T>, p: T -> bool)
    ensures (forall x :: x in s ==> p(x)) ==> Filter(s, p) == s
    decreases |s|
  {
    if |s| > 0 && forall x :: x in s ==> p(x) {
      FilterKeepsAll(s[1..], p);
    }
  }

  /** Filtering with a predicate no element meets leaves nothing. */
  lemma {:induction false} FilterKeepsNone<T(!new)>(s: seq<T>, p: T -> bool)
    ensures (forall x :: x in s ==> !p(x)) ==> Filter(s, p) == []
    decreases |s|
  {
    if |s| > 0 && forall x :: x in s ==> !p(x) {
      FilterKeepsNone(s[1..], p);
    }
  }

  /** A filter that drops some element yields a strictly shorter sequence. */
  lemma {:induction false} FilterShorter<T(!new)>(s: seq<T>, p: T -> bool, x: T)
    requires x in s && !p(x)
    ensures |Filter(s, p)| < |s|
    decreases |s|
  {
    if s[0] != x {
      FilterShorter(s[1..], p, x);
    }
  }

  /** Two predicates that agree on the elements of `s` filter it alike. */
  lemma {:induction false} FilterExt<T(!new)>(s: seq<T>, p: T -> bool, q: T -> bool)
    requires forall x :: x in s ==> p(x) == q(x)
    ensures Filter(s, p) == Filter(s, q)
    decreases |s|
  {
    if |s| > 0 {
      FilterExt(s[1..], p, q);
    }
  }

  /** Filtering twice is filtering once by the conjunction. */
  lemma {:induction false} FilterFilter<T(!new)>(s: seq<T>, p: T -> bool, q: T -> bool, pq: T -> bool)
    requires forall x :: x in s ==> pq(x) == (p(x) && q(x))
    ensures Filter(Filter(s, p), q) == Filter(s, pq)
    decreases |s|
  {
    if |s| > 0 {
      FilterFilter(s[1..], p, q, pq);
      var rest := Filter(s[1..], p);
      if p(s[0]) {
        FilterCons(s[0], rest, q);
      }
    }
  }

  /** A stronger predicate keeps a subsequence of what a weaker one keeps. */
  lemma {:induction false} FilterStronger<T(!new)>(s: seq<T>, p: T -> bool, q: T -> bool)
    requires forall x :: x in s && p(x) ==> q(x)
    ensures IsSubseq(Filter(s, p), Filter(s, q))
    decreases |s|
  {
    if |s| > 0 {
      FilterStronger(s[1..], p, q);
      var a, b := Filter(s[1..], p), Filter(s[1..], q);
      if p(s[0]) {
        assert Filter(s, p) == [s[0]] + a;
        assert Filter(s, q) == [s[0]] + b;
        assert ([s[0]] + a)[1..] == a;
      } else if q(s[0]) {
        assert Filter(s, q) == [s[0]] + b;
        assert ([s[0]] + b)[1..] == b;
        IsSubseqLength(a, b);
      }
    }
  }

  /** Counting under two disjoint predicates adds up to counting under their union. */
  lemma {:induction false} FilterDisjointUnion<T(!new)>(s: seq<T>, p: T -> bool, q: T -> bool, pq: T -> bool)
    requires forall x :: x in s ==> (pq(x) <==> p(x) || q(x))
    requires forall x :: x in s ==> !(p(x) && q(x))
    ensures |Filter(s, pq)| == |Filter(s, p)| + |Filter(s, q)|
    decreases |s|
  {
    if |s| > 0 {
      FilterDisjointUnion(s[1..], p, q, pq);
    }
  }

  /** Filtering a duplicate-free sequence leaves it duplicate-free. */
  lemma FilterNoDuplicates<T(!new)>(s: seq<T>, p: T -> bool)
    ensures NoDuplicates(s) ==> NoDuplicates(Filter(s, p))
  {
    NoDuplicatesMultiset(s);
    FilterMultiset(s, p);
    NoDuplicatesMultiset(Filter(s, p));
  }

  // ---------------------------------------------------------------------------
  // Subsequences and duplicates
  // ---------------------------------------------------------------------------

  lemma {:induction false} IsSubseqLength<T(!new)>(a: seq<T>, b: seq<T>)
    requires IsSubseq(a, b)
    ensures |a| <= |b|
  {
  }

  /** A subsequence stays one when the longer sequence grows at the front. */
  lemma {:induction false} IsSubseqPrepend<T(!new)>(a: seq<T>, p: seq<T>, b: seq<T>)
    requires IsSubseq(a, b)
    ensures IsSubseq(a, p + b)
    decreases |p|
  {
    if |p| == 0 {
      assert p + b == b;
    } else {
      var pb := p + b;
      assert pb[1..] == p[1..] + b;
      IsSubseqPrepend(a, p[1..], b);
      IsSubseqLength(a, pb[1..]);
    }
  }

  lemma {:induction false} IsSubseqRefl<T(!new)>(s: seq<T>)
    ensures IsSubseq(s, s)
    decreases |s|
  {
    if |s| > 0 {
      IsSubseqRefl(s[1..]);
    }
  }

  /** Duplicate-freedom is a statement about multiplicities. */
  lemma {:induction false} NoDuplicatesMultiset<T(!new)>(s: seq<T>)
    ensures NoDuplicates(s) <==> forall x :: multiset(s)[x] <= 1
    decreases |s|
  {
    if |s| > 0 {
      var a, t := s[0], s[1..];
      assert s == [a] + t;
      NoDuplicatesMultiset(t);
      if NoDuplicates(s) {
        assert NoDuplicates(t) by {
          forall i, j | 0 <= i < j < |t| ensures t[i] != t[j] {
            assert t[i] == s[i + 1] && t[j] == s[j + 1];
          }
        }
        assert a !in t;
      } else {
        var i, j :| 0 <= i < j < |s| && s[i] == s[j];
        if i == 0 {
          assert s[j] in t;
          assert multiset(t)[a] >= 1;
          assert multiset(s)[a] >= 2;
        } else {
          assert t[i - 1] == t[j - 1];
          assert !NoDuplicates(t);
          var x :| multiset(t)[x] > 1;
          assert multiset(s)[x] > 1;
        }
      }
    }
  }

  /** Reordering a sequence does not change whether it is duplicate-free. */
  lemma NoDuplicatesPermutation<T(!new)>(a: seq<T>, b: seq<T>)
    requires multiset(a) == multiset(b)
    requires NoDuplicates(a)
    ensures NoDuplicates(b)
  {
    NoDuplicatesMultiset(a);
    NoDuplicatesMultiset(b);
  }

  /** The position of the first occurrence of `x` in `s`. */
  function IndexOf<T(==,!new)>(s: seq<T>, x: T): (k: nat)
    requires x in s
    ensures k < |s| && s[k] == x
    ensures forall j :: 0 <= j < k ==> s[j] != x
  {
    if s[0] == x then 0 else 1 + IndexOf(s[1..], x)
  }

  /** The first occurrence of `x` in a prefix is its first occurrence overall. */
  lemma {:induction false} IndexOfPrefix<T(!new)>(s: seq<T>, n: nat, x: T)
    requires n <= |s| && x in s[..n]
    ensures IndexOf(s, x) == IndexOf(s[..n], x)
    decreases n
  {
    if s[0] != x {
      assert s[..n][1..] == s[1..][..n - 1];
      assert x in s[1..][..n - 1];
      IndexOfPrefix(s[1..], n - 1, x);
    }
  }

  /** The distinct elements of `s`, each at the position of its first
      occurrence: what a `Set` built by inserting `s` left to right iterates.
      The last clause states membership per position, the form that contracts
      indexing into the result (such as `DedupFirstSeen`'s) rely on. */
  function Dedup<T(==,!new)>(s: seq<T>): (r: seq<T>)
    ensures NoDuplicates(r)
    ensures forall x {:trigger x in r} :: x in r <==> x in s
    ensures forall i :: 0 <= i < |r| ==> r[i] in s
    decreases |s|
  {
    if |s| == 0 then []
    else
      var init, x := s[..|s| - 1], s[|s| - 1];
      assert s == init + [x];
      var d := Dedup(init);
      if x in d then d else d + [x]
  }

  /** `Dedup` lists the elements in the order they are first seen. */
  lemma {:induction false} DedupFirstSeen<T(!new)>(s: seq<T>)
    ensures forall i, j :: 0 <= i < j < |Dedup(s)| ==> IndexOf(s, Dedup(s)[i]) < IndexOf(s, Dedup(s)[j])
    decreases |s|
  {
    if |s| > 0 {
      var n := |s| - 1;
      var init, x := s[..n], s[n];
      var d := Dedup(init);
      DedupFirstSeen(init);
      var r := Dedup(s);
      assert r == if x in d then d else d + [x];
      forall i, j | 0 <= i < j < |r| ensures IndexOf(s, r[i]) < IndexOf(s, r[j]) {
        assert r[i] == d[i] && d[i] in init;
        IndexOfPrefix(s, n, d[i]);
        if j < |d| {
          assert r[j] == d[j] && d[j] in init;
          IndexOfPrefix(s, n, d[j]);
        } else {
          assert r[j] == x && x !in init;
        }
      }
    }
  }

  /** Deduplicating a longer sequence extends the deduplicated prefix. */
  lemma {:induction false} DedupAppend<T(!new)>(a: seq<T>, b: seq<T>)
    ensures |Dedup(a)| <= |Dedup(a + b)| && Dedup(a + b)[..|Dedup(a)|] == Dedup(a)
    decreases |b|
  {
    if |b| == 0 {
      assert a + b == a;
    } else {
      var b', y := b[..|b| - 1], b[|b| - 1];
      assert a + b == (a + b') + [y];
      assert (a + b)[..|a + b| - 1] == a + b';
      DedupAppend(a, b');
    }
  }

  // ---------------------------------------------------------------------------
  // Stable sorting by an integer key
  // ---------------------------------------------------------------------------

  /** Keys never decrease along `s`. */
  predicate SortedBy<T(==,!new)>(s: seq<T>, key: T -> int) {
    forall i, j :: 0 <= i < j < |s| ==> key(s[i]) <= key(s[j])
  }

  /** Keys strictly increase along `s`. */
  predicate StrictlySortedBy<T(==,!new)>(s: seq<T>, key: T -> int) {
    forall i, j :: 0 <= i < j < |s| ==> key(s[i]) < key(s[j])
  }

  /** No two positions of `s` share a key. */
  predicate KeysDistinct<T(==,!new)>(s: seq<T>, key: T -> int) {
    forall i, j :: 0 <= i < j < |s| ==> key(s[i]) != key(s[j])
  }

  /** The elements of `s` whose key is `k`, in their order in `s`. */
  function WithKey<T(==,!new)>(s: seq<T>, key: T -> int, k: int): seq<T> {
    Filter(s, x => key(x) == k)
  }

  lemma WithKeyCons<T(!new)>(x: T, s: seq<T>, key: T -> int, k: int)
    ensures WithKey([x] + s, key, k) == (if key(x) == k then [x] else []) + WithKey(s, key, k)
  {
    FilterCons(x, s, y => key(y) == k);
  }

  /** Two key selections that pick the same elements of `s` give the same result. */
  lemma {:induction false} WithKeyExt<T(!new)>(s: seq<T>, key1: T -> int, k1: int, key2: T -> int, k2: int)
    requires forall x :: x in s ==> (key1(x) == k1) == (key2(x) == k2)
    ensures WithKey(s, key1, k1) == WithKey(s, key2, k2)
    decreases |s|
  {
    if |s| > 0 {
      WithKeyExt(s[1..], key1, k1, key2, k2);
    }
  }

  /** Inserts `x` before the first element whose key is not smaller. */
  function InsertBy<T(==,!new)>(x: T, s: seq<T>, key: T -> int): (r: seq<T>)
    ensures multiset(r) == multiset([x] + s)
    ensures forall y {:trigger y in r} :: y in r <==> y == x || y in s
  {
    if |s| == 0 || key(x) <= key(s[0]) then [x] + s
    else
      assert s == [s[0]] + s[1..];
      [s[0]] + InsertBy(x, s[1..], key)
  }

  lemma {:induction false} InsertBySorted<T(!new)>(x: T, s: seq<T>, key: T -> int)
    requires SortedBy(s, key)
    ensures SortedBy(InsertBy(x, s, key), key)
    decreases |s|
  {
    if |s| > 0 && key(x) > key(s[0]) {
      var t := s[1..];
      var rest := InsertBy(x, t, key);
      InsertBySorted(x, t, key);
      forall j | 0 <= j < |rest| ensures key(s[0]) <= key(rest[j]) {
        var y := rest[j];
        assert y in rest;
        if y != x {
          assert y in t;
          var m :| 0 <= m < |t| && t[m] == y;
          assert s[m + 1] == y;
        }
      }
      var r := [s[0]] + rest;
      assert r == InsertBy(x, s, key);
      forall i, j | 0 <= i < j < |r| ensures key(r[i]) <= key(r[j]) {
        assert r[j] == rest[j - 1];
        if i > 0 {
          assert r[i] == rest[i - 1];
        }
      }
    }
  }

  /** Insertion places `x` ahead of every element with the same key. */
  lemma {:induction false} InsertByStable<T(!new)>(x: T, s: seq<T>, key: T -> int, k: int)
    ensures WithKey(InsertBy(x, s, key), key, k) == WithKey([x] + s, key, k)
    decreases |s|
  {
    if |s| > 0 && key(x) > key(s[0]) {
      var t := s[1..];
      InsertByStable(x, t, key, k);
      WithKeyCons(s[0], InsertBy(x, t, key), key, k);
      WithKeyCons(x, t, key, k);
      assert s == [s[0]] + t;
      WithKeyCons(s[0], t, key, k);
      WithKeyCons(x, s, key, k);
    }
  }

  /** The stable sort of `s` by ascending key: insertion sort, each element
      inserted ahead of the equal keys that follow it in `s`. */
  function SortBy<T(==,!new)>(s: seq<T>, key: T -> int): (r: seq<T>)
    ensures multiset(r) == multiset(s)
    ensures SortedBy(r, key)
    decreases |s|
  {
    if |s| == 0 then []
    else
      var t := SortBy(s[1..], key);
      assert s == [s[0]] + s[1..];
      InsertBySorted(s[0], t, key);
      InsertBy(s[0], t, key)
  }

  /** Two sequences with the same multiset have the same length and members. */
  lemma PermutationMembers<T(!new)>(a: seq<T>, b: seq<T>)
    requires multiset(a) == multiset(b)
    ensures |a| == |b|
    ensures forall x :: x in a <==> x in b
  {
    assert |a| == |multiset(a)|;
    forall x ensures x in a <==> x in b {
      assert x in a <==> x in multiset(a);
      assert x in b <==> x in multiset(b);
    }
  }

  /** Inserting `x` into a sequence that selects like `rest` selects like
      `x` ahead of `rest`. */
  lemma InsertKeepsWithKey<T(!new)>(x: T, t: seq<T>, rest: seq<T>, key: T -> int, k: int)
    requires WithKey(t, key, k) == WithKey(rest, key, k)
    ensures WithKey(InsertBy(x, t, key), key, k) == WithKey([x] + rest, key, k)
  {
    InsertByStable(x, t, key, k);
    WithKeyCons(x, t, key, k);
    WithKeyCons(x, rest, key, k);
  }

  /** The sort is stable: the elements sharing any one key keep their order. */
  lemma {:induction false} SortByStable<T(!new)>(s: seq<T>, key: T -> int, k: int)
    ensures WithKey(SortBy(s, key), key, k) == WithKey(s, key, k)
    decreases |s|
  {
    if |s| > 0 {
      var x, rest := s[0], s[1..];
      SortByStable(rest, key, k);
      InsertKeepsWithKey(x, SortBy(rest, key), rest, key, k);
      assert [x] + rest == s;
    }
  }

  /** Reordering cannot make two positions share a key. */
  lemma KeysDistinctPermutation<T(!new)>(a: seq<T>, b: seq<T>, key: T -> int)
    requires multiset(a) == multiset(b)
    requires KeysDistinct(a, key)
    ensures KeysDistinct(b, key)
  {
    assert NoDuplicates(a);
    NoDuplicatesPermutation(a, b);
    forall i, j | 0 <= i < j < |b| ensures key(b[i]) != key(b[j]) {
      assert b[i] in multiset(a) && b[j] in multiset(a);
      var p :| 0 <= p < |a| && a[p] == b[i];
      var q :| 0 <= q < |a| && a[q] == b[j];
      assert p != q;
    }
  }

  /** The head of a strictly sorted sequence is its only element of least key. */
  lemma StrictlySortedHead<T(!new)>(a: seq<T>, y: T, key: T -> int)
    requires StrictlySortedBy(a, key) && y in a
    ensures key(a[0]) <= key(y)
    ensures key(y) <= key(a[0]) ==> y == a[0]
  {
    var i :| 0 <= i < |a| && a[i] == y;
  }

  lemma MultisetTails<T(!new)>(a: seq<T>, b: seq<T>)
    requires |a| > 0 && |b| > 0 && a[0] == b[0]
    requires multiset(a) == multiset(b)
    ensures multiset(a[1..]) == multiset(b[1..])
  {
    assert a == [a[0]] + a[1..] && b == [b[0]] + b[1..];
    assert multiset(a) == multiset{a[0]} + multiset(a[1..]);
    assert multiset(b) == multiset{b[0]} + multiset(b[1..]);
    assert multiset(a[1..]) == multiset(a) - multiset{a[0]};
  }

  lemma StrictlySortedTail<T(!new)>(a: seq<T>, key: T -> int)
    requires |a| > 0 && StrictlySortedBy(a, key)
    ensures StrictlySortedBy(a[1..], key)
  {
  }

  /** A strictly sorted arrangement of a multiset is unique. */
  lemma {:induction false} StrictlySortedUnique<T(!new)>(a: seq<T>, b: seq<T>, key: T -> int)
    requires StrictlySortedBy(a, key) && StrictlySortedBy(b, key)
    requires multiset(a) == multiset(b)
    ensures a == b
    decreases |a|
  {
    assert |b| == |multiset(b)| == |multiset(a)| == |a|;
    if |a| > 0 {
      assert a[0] in multiset(b) && b[0] in multiset(a);
      StrictlySortedHead(a, b[0], key);
      StrictlySortedHead(b, a[0], key);
      MultisetTails(a, b);
      StrictlySortedTail(a, key);
      StrictlySortedTail(b, key);
      StrictlySortedUnique(a[1..], b[1..], key);
      assert a == [a[0]] + a[1..] && b == [b[0]] + b[1..];
    }
  }

  /** `s` back to front. */
  function Reverse<T(==,!new)>(s: seq<T>): (r: seq<T>)
    ensures |r| == |s|
    ensures forall i :: 0 <= i < |s| ==> r[i] == s[|s| - 1 - i]
    ensures multiset(r) == multiset(s)
  {
    if |s| == 0 then []
    else
      assert s == [s[0]] + s[1..];
      Reverse(s[1..]) + [s[0]]
  }
}
