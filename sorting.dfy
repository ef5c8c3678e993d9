/** Python's `sorted(s, key=key)`: a stable sort, modelled as insertion sort on sequences. */
module Sorting {

  import opened Seqs

  ghost predicate SortedBy<T>(s: seq<T>, key: T -> int) {
    forall i, j :: 0 <= i < j < |s| ==> key(s[i]) <= key(s[j])
  }

  /** Where a stable insertion puts `x`: after every leading element whose key does not exceed `key(x)`. */
  function InsertPos<T>(s: seq<T>, x: T, key: T -> int): (k: nat)
    ensures k <= |s|
  {
    if s == [] || key(x) < key(s[0]) then 0 else 1 + InsertPos(s[1..], x, key)
  }

  function Insert<T>(s: seq<T>, x: T, key: T -> int): (r: seq<T>)
    ensures |r| == |s| + 1 && multiset(r) == multiset(s) + multiset{x}
  {
    if s == [] || key(x) < key(s[0]) then [x] + s
    else
      assert s == [s[0]] + s[1..];
      [s[0]] + Insert(s[1..], x, key)
  }

  /** `x` lands at the insertion point; the elements before it stay, the ones after it move up by one. */
  lemma {:induction false} InsertAt<T>(s: seq<T>, x: T, key: T -> int)
    ensures Insert(s, x, key)[InsertPos(s, x, key)] == x
    ensures forall i :: 0 <= i < InsertPos(s, x, key) ==> Insert(s, x, key)[i] == s[i]
    ensures forall i :: InsertPos(s, x, key) < i <= |s| ==> Insert(s, x, key)[i] == s[i - 1]
  {
    if s != [] && key(x) >= key(s[0]) {
      InsertAt(s[1..], x, key);
    }
  }

  /** In a sorted sequence, everything before the insertion point has key at most `key(x)`
      and everything from it on has a larger key. */
  lemma {:induction false} InsertPosSplits<T>(s: seq<T>, x: T, key: T -> int)
    requires SortedBy(s, key)
    ensures forall i :: 0 <= i < InsertPos(s, x, key) ==> key(s[i]) <= key(x)
    ensures forall i :: InsertPos(s, x, key) <= i < |s| ==> key(x) < key(s[i])
  {
    if s != [] && key(x) >= key(s[0]) {
      InsertPosSplits(s[1..], x, key);
    }
  }

  lemma InsertKeepsSorted<T>(s: seq<T>, x: T, key: T -> int)
    requires SortedBy(s, key)
    ensures SortedBy(Insert(s, x, key), key)
  {
    InsertPosSplits(s, x, key);
    InsertAt(s, x, key);
    var k := InsertPos(s, x, key);
    var r := Insert(s, x, key);
    forall i, j | 0 <= i < j < |r| ensures key(r[i]) <= key(r[j]) {
      if i < k && j > k {
        assert r[i] == s[i] && r[j] == s[j - 1];
      } else if i == k {
        assert r[j] == s[j - 1];
      } else if j == k {
        assert r[i] == s[i];
      } else if j < k {
        assert r[i] == s[i] && r[j] == s[j];
      } else {
        assert r[i] == s[i - 1] && r[j] == s[j - 1];
      }
    }
  }

  /** `sorted(s, key=key)` */
  function SortBy<T>(s: seq<T>, key: T -> int): (r: seq<T>)
    ensures |r| == |s|
    ensures multiset(r) == multiset(s)
    ensures SortedBy(r, key)
  {
    if s == [] then []
    else
      var s', x := s[..|s| - 1], s[|s| - 1];
      assert s == s' + [x];
      var r' := SortBy(s', key);
      InsertKeepsSorted(r', x, key);
      Insert(r', x, key)
  }

  /** Stability: two elements with equal keys keep the order of their first occurrences in `s`. */
  lemma {:induction false} SortByStable<T>(s: seq<T>, key: T -> int, i: nat, j: nat)
    requires Distinct(s)
    requires i < j < |SortBy(s, key)|
    requires key(SortBy(s, key)[i]) == key(SortBy(s, key)[j])
    ensures SortBy(s, key)[i] in s && SortBy(s, key)[j] in s
    ensures FirstIndex(s, SortBy(s, key)[i]) < FirstIndex(s, SortBy(s, key)[j])
  {
    var r := SortBy(s, key);
    var s', x := s[..|s| - 1], s[|s| - 1];
    var r' := SortBy(s', key);
    assert r == Insert(r', x, key);
    var k := InsertPos(r', x, key);
    InsertAt(r', x, key);
    if i == k {
      InsertPosSplits(r', x, key);
      assert false;
    }
    var i' := if i < k then i else i - 1;
    assert r[i] == r'[i'];
    SortedMember(r', s', i');
    if j == k {
      LastRanksLast(s, r[i]);
    } else {
      var j' := if j < k then j else j - 1;
      assert r[j] == r'[j'];
      SortedMember(r', s', j');
      assert Distinct(s');
      SortByStable(s', key, i', j');
      PrefixRanks(s, s', r[i], r[j]);
    }
  }

  lemma LastRanksLast<T>(s: seq<T>, y: T)
    requires Distinct(s) && |s| > 0 && y in s[..|s| - 1]
    ensures y in s && FirstIndex(s, y) < FirstIndex(s, s[|s| - 1])
  {
    FirstIndexOfDistinct(s, |s| - 1);
    FirstIndexPrefix(s, y, |s| - 1);
  }

  lemma PrefixRanks<T>(s: seq<T>, p: seq<T>, y: T, z: T)
    requires |s| > 0 && p == s[..|s| - 1] && y in p && z in p
    requires FirstIndex(p, y) < FirstIndex(p, z)
    ensures y in s && z in s && FirstIndex(s, y) < FirstIndex(s, z)
  {
    var a, b := FirstIndex(p, y), FirstIndex(p, z);
    FirstIndexPrefix(s, y, |p|);
    FirstIndexPrefix(s, z, |p|);
    assert FirstIndex(s, y) == a && FirstIndex(s, z) == b;
  }

  lemma SortedMember<T>(r: seq<T>, s: seq<T>, i: nat)
    requires multiset(r) == multiset(s) && i < |r|
    ensures r[i] in s
  {
    assert r[i] in multiset(r);
  }

  /** Sorting depends only on the keys of the elements being sorted. */
  lemma {:induction false} SortByKeyCongruence<T>(s: seq<T>, f: T -> int, g: T -> int)
    requires forall i :: 0 <= i < |s| ==> f(s[i]) == g(s[i])
    ensures SortBy(s, f) == SortBy(s, g)
  {
    if s != [] {
      var s', x := s[..|s| - 1], s[|s| - 1];
      SortByKeyCongruence(s', f, g);
      var r := SortBy(s', f);
      forall i | 0 <= i < |r| ensures f(r[i]) == g(r[i]) {
        assert r[i] in multiset(s');
      }
      InsertKeyCongruence(r, x, f, g);
    }
  }

  lemma {:induction false} InsertKeyCongruence<T>(s: seq<T>, x: T, f: T -> int, g: T -> int)
    requires f(x) == g(x)
    requires forall i :: 0 <= i < |s| ==> f(s[i]) == g(s[i])
    ensures Insert(s, x, f) == Insert(s, x, g)
  {
    if s != [] && f(x) >= f(s[0]) {
      InsertKeyCongruence(s[1..], x, f, g);
    }
  }
}
