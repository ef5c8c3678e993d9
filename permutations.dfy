/** Index permutations: the orders derived from keywords, their inverses, and what rearranging by them keeps. */
module Permutations {

  import opened Seqs
  import opened Sorting

  /** `p` lists each of 0..n-1 exactly once. */
  ghost predicate IsPermutation(p: seq<nat>, n: nat) {
    multiset(p) == multiset(Range(n))
  }

  /** `p` holds `n` distinct positions below `n`. */
  ghost predicate Injective(p: seq<nat>, n: nat) {
    |p| == n && (forall i :: 0 <= i < n ==> p[i] < n) && Distinct(p)
  }

  lemma {:induction false} DistinctCounts<T>(s: seq<T>, x: T)
    requires Distinct(s)
    ensures multiset(s)[x] <= 1
  {
    if s != [] {
      var s' := s[..|s| - 1];
      assert s == s' + [s[|s| - 1]];
      DistinctCounts(s', x);
      if x == s[|s| - 1] {
        assert x !in s';
      }
    }
  }

  lemma CountsDistinct<T>(s: seq<T>, t: seq<T>)
    requires Distinct(t) && multiset(s) == multiset(t)
    ensures Distinct(s)
  {
    forall i, j | 0 <= i < j < |s| ensures s[i] != s[j] {
      if s[i] == s[j] {
        assert s == s[..j] + s[j..];
        assert s[i] in s[..j] && s[j] in s[j..];
        assert multiset(s)[s[i]] == multiset(s[..j])[s[i]] + multiset(s[j..])[s[i]];
        DistinctCounts(t, s[i]);
        assert false;
      }
    }
  }

  lemma RangeDistinct(n: nat)
    ensures Distinct(Range(n))
  {
  }

  /** A permutation has length `n`, stays below `n`, repeats nothing and misses nothing. */
  lemma PermutationFacts(p: seq<nat>, n: nat)
    requires IsPermutation(p, n)
    ensures Injective(p, n)
    ensures forall v: nat :: v < n ==> v in p
  {
    assert |p| == |multiset(p)| == |Range(n)| == n;
    forall i | 0 <= i < n ensures p[i] < n {
      assert p[i] in multiset(Range(n));
    }
    RangeDistinct(n);
    CountsDistinct(p, Range(n));
    forall v: nat | v < n ensures v in p {
      assert Range(n)[v] == v;
      assert v in multiset(p);
    }
  }

  /** Sorting `range(n)` by any key yields a permutation of 0..n-1. */
  lemma SortedRangeIsPermutation(n: nat, key: nat -> int)
    ensures IsPermutation(SortBy(Range(n), key), n)
  {
  }

  /**
   * `sorted(range(n), key=key)` lists every position once, in non-decreasing key order,
   * with positions of equal key in ascending order.
   */
  lemma SortedRangeSpec(n: nat, key: nat -> int)
    ensures IsPermutation(SortBy(Range(n), key), n) && Injective(SortBy(Range(n), key), n)
    ensures forall a, b :: 0 <= a < b < n ==> key(SortBy(Range(n), key)[a]) <= key(SortBy(Range(n), key)[b])
    ensures forall a, b :: 0 <= a < b < n && key(SortBy(Range(n), key)[a]) == key(SortBy(Range(n), key)[b])
              ==> SortBy(Range(n), key)[a] < SortBy(Range(n), key)[b]
  {
    var order := SortBy(Range(n), key);
    PermutationFacts(order, n);
    forall a, b | 0 <= a < b < n && key(order[a]) == key(order[b]) ensures order[a] < order[b] {
      RangeDistinct(n);
      SortByStable(Range(n), key, a, b);
      FirstIndexOfDistinct(Range(n), order[a]);
      FirstIndexOfDistinct(Range(n), order[b]);
    }
  }

  /** A strictly increasing sequence of `n` numbers below `n` is 0, 1, ..., n-1. */
  lemma IncreasingIsIdentity(v: seq<int>, i: nat)
    requires forall a, b :: 0 <= a < b < |v| ==> v[a] < v[b]
    requires forall a :: 0 <= a < |v| ==> 0 <= v[a] < |v|
    requires i < |v|
    ensures v[i] == i
  {
    IncreasingGap(v, 0, i);
    IncreasingGap(v, i, |v| - 1);
  }

  lemma {:induction false} IncreasingGap(v: seq<int>, a: nat, b: nat)
    requires forall x, y :: 0 <= x < y < |v| ==> v[x] < v[y]
    requires a <= b < |v|
    ensures v[b] - v[a] >= b - a
  {
    if a < b { IncreasingGap(v, a, b - 1); }
  }

  /** The key `lambda x: p[x]`, total on all naturals. */
  function At(p: seq<nat>): nat -> int {
    (x: nat) => if x < |p| then p[x] as int else 0
  }

  /** `sorted(range(n), key=lambda x: p[x])`: the column-restore order of a decoder. */
  function InverseOrder(p: seq<nat>): (q: seq<nat>)
    ensures IsPermutation(q, |p|) && SortedBy(q, At(p))
  {
    SortBy(Range(|p|), At(p))
  }

  lemma ComposedIncreasing(p: seq<nat>, n: nat)
    requires Injective(p, n)
    requires Injective(InverseOrder(p), n)
    ensures forall a, b :: 0 <= a < b < n ==> p[InverseOrder(p)[a]] < p[InverseOrder(p)[b]]
  {
    var q := InverseOrder(p);
    forall a, b | 0 <= a < b < n ensures p[q[a]] < p[q[b]] {
      assert At(p)(q[a]) <= At(p)(q[b]);
      assert q[a] != q[b];
    }
  }

  /** Sorting positions by the values a permutation holds there inverts the permutation. */
  lemma InverseOrderInverts(p: seq<nat>, n: nat)
    requires IsPermutation(p, n)
    ensures IsPermutation(InverseOrder(p), n) && Injective(p, n) && Injective(InverseOrder(p), n)
    ensures forall c :: 0 <= c < n ==> p[InverseOrder(p)[c]] == c
    ensures forall k :: 0 <= k < n ==> InverseOrder(p)[p[k]] == k
  {
    var q := InverseOrder(p);
    PermutationFacts(p, n);
    PermutationFacts(q, n);
    ComposedIncreasing(p, n);
    var v := seq(n, c requires 0 <= c < n => p[q[c]] as int);
    forall c | 0 <= c < n ensures p[q[c]] == c {
      IncreasingIsIdentity(v, c);
    }
    forall k | 0 <= k < n ensures q[p[k]] == k {
      assert p[q[p[k]]] == p[k];
    }
  }

  /** Rearranging a sequence along a permutation of its positions keeps its multiset. */
  lemma {:induction false} PermutedMultiset<T>(s: seq<T>, t: seq<T>, p: seq<nat>)
    requires Injective(p, |s|) && |t| == |s|
    requires forall i :: 0 <= i < |t| ==> t[i] == s[p[i]]
    ensures multiset(t) == multiset(s)
  {
    if |t| > 0 {
      var n := |t|;
      var j := p[n - 1];
      var s' := s[..j] + s[j + 1..];
      var t' := t[..n - 1];
      var p' := Unshift(p[..n - 1], j);
      forall i | 0 <= i < n - 1 ensures t'[i] == s'[p'[i]] {
        assert p[i] != j;
      }
      UnshiftInjective(p, j);
      PermutedMultiset(s', t', p');
      RemoveAtMultiset(s, j);
      assert t == t' + [t[n - 1]];
    }
  }

  lemma RemoveAtMultiset<T>(s: seq<T>, j: nat)
    requires j < |s|
    ensures multiset(s) == multiset(s[..j] + s[j + 1..]) + multiset{s[j]}
  {
    assert s == s[..j] + [s[j]] + s[j + 1..];
  }

  /** Closes the gap left by removing position `j`. */
  function Unshift(p: seq<nat>, j: nat): (r: seq<nat>)
    ensures |r| == |p|
    ensures forall i :: 0 <= i < |p| ==> r[i] == if p[i] <= j then p[i] else p[i] - 1
  {
    seq(|p|, i requires 0 <= i < |p| => if p[i] <= j then p[i] else p[i] - 1)
  }

  lemma UnshiftInjective(p: seq<nat>, j: nat)
    requires |p| > 0 && Injective(p, |p|) && j == p[|p| - 1]
    ensures Injective(Unshift(p[..|p| - 1], j), |p| - 1)
  {
    var n := |p|;
    var r := Unshift(p[..n - 1], j);
    forall a | 0 <= a < n - 1 ensures r[a] < n - 1 {
      assert p[a] != j;
    }
    forall a, b | 0 <= a < b < n - 1 ensures r[a] != r[b] {
      assert p[a] != j && p[b] != j && p[a] != p[b];
    }
  }

  /** Rows with the same multisets flatten to the same multiset. */
  lemma {:induction false} FlattenRowwiseMultiset<T>(a: seq<seq<T>>, b: seq<seq<T>>)
    requires |a| == |b| && forall i :: 0 <= i < |a| ==> multiset(a[i]) == multiset(b[i])
    ensures multiset(Flatten(a)) == multiset(Flatten(b))
  {
    if a != [] {
      FlattenRowwiseMultiset(a[1..], b[1..]);
    }
  }

  /** Taking row `j` out of a matrix takes its elements out of the flattening. */
  lemma SplitAt<T>(b: seq<T>, j: nat)
    requires j < |b|
    ensures b == (b[..j] + [b[j]]) + b[j + 1..]
  {
  }

  lemma FlattenRemoveAt<T>(b: seq<seq<T>>, j: nat)
    requires j < |b|
    ensures multiset(Flatten(b)) == multiset(b[j]) + multiset(Flatten(b[..j] + b[j + 1..]))
  {
    var pre, post := b[..j], b[j + 1..];
    SplitAt(b, j);
    FlattenConcat(pre + [b[j]], post);
    FlattenConcat(pre, [b[j]]);
    FlattenConcat(pre, post);
    FlattenOne(b[j]);
    var f, g := Flatten(pre), Flatten(post);
    assert Flatten(b) == (f + b[j]) + g;
    assert Flatten(pre + post) == f + g;
    assert multiset((f + b[j]) + g) == multiset(f) + multiset(b[j]) + multiset(g);
  }

  /** Removing one copy of the same element from two equal multisets of sequences leaves them equal. */
  lemma RemoveSame<T>(a: seq<T>, b: seq<T>, j: nat)
    requires a != [] && j < |b| && b[j] == a[0] && multiset(a) == multiset(b)
    ensures multiset(a[1..]) == multiset(b[..j] + b[j + 1..])
  {
    var b' := b[..j] + b[j + 1..];
    assert a == [a[0]] + a[1..];
    RemoveAtMultiset(b, j);
    forall y ensures multiset(a[1..])[y] == multiset(b')[y] {
      assert multiset(a)[y] == multiset(a[1..])[y] + multiset{a[0]}[y];
      assert multiset(b)[y] == multiset(b')[y] + multiset{a[0]}[y];
    }
  }

  /** Reordering the rows of a matrix keeps the multiset of its flattening. */
  lemma {:induction false} FlattenReorderedMultiset<T>(a: seq<seq<T>>, b: seq<seq<T>>)
    requires multiset(a) == multiset(b)
    ensures multiset(Flatten(a)) == multiset(Flatten(b))
  {
    if a == [] {
      assert |b| == |multiset(b)| == 0;
    } else {
      assert a[0] in multiset(b);
      var j := FirstIndex(b, a[0]);
      RemoveSame(a, b, j);
      FlattenReorderedMultiset(a[1..], b[..j] + b[j + 1..]);
      FlattenRemoveAt(b, j);
    }
  }
}
