/** Kasiski examination: repeated trigrams, the distances between their occurrences, and a tally of proper divisors. */
module Kasiski {

  import opened Seqs
  import opened Sorting
  import opened Permutations

  /** `cipher_text[i : i + 3]` for every `i in range(len(cipher_text) - 2)`. */
  function Trigrams(t: string): (g: seq<string>)
    ensures |g| == if |t| >= 2 then |t| - 2 else 0
    ensures forall i :: 0 <= i < |g| ==> i + 3 <= |t| && g[i] == t[i..i + 3]
  {
    seq(if |t| >= 2 then |t| - 2 else 0, i requires 0 <= i && i + 3 <= |t| => t[i..i + 3])
  }

  /** The positions below `n` at which `s` holds `g`, as the position list of a `repeats` entry. */
  function Occurrences<T(==)>(s: seq<T>, g: T, n: nat): seq<nat>
    requires n <= |s|
  {
    if n == 0 then []
    else Occurrences(s, g, n - 1) + (if s[n - 1] == g then [n - 1] else [])
  }

  /**
   * Each trigram's position list is strictly increasing, every position in it starts that trigram,
   * and every position starting that trigram is in it.
   */
  lemma {:induction false} OccurrencesSpec<T>(s: seq<T>, g: T, n: nat)
    requires n <= |s|
    ensures forall j :: 0 <= j < |Occurrences(s, g, n)| ==> Occurrences(s, g, n)[j] < n && s[Occurrences(s, g, n)[j]] == g
    ensures forall a, b :: 0 <= a < b < |Occurrences(s, g, n)| ==> Occurrences(s, g, n)[a] < Occurrences(s, g, n)[b]
    ensures forall i :: 0 <= i < n && s[i] == g ==> i in Occurrences(s, g, n)
  {
    if n > 0 {
      OccurrencesSpec(s, g, n - 1);
    }
  }

  /** `indices[i + 1] - indices[i]` for consecutive entries of a position list. */
  function Gaps(xs: seq<nat>): seq<int> {
    seq(if |xs| > 1 then |xs| - 1 else 0, j requires 0 <= j < |xs| - 1 => xs[j + 1] as int - xs[j] as int)
  }

  /** The distances contributed by the first `m` dict entries, in the dict's insertion order. */
  function DistancesOver(s: seq<string>, keys: seq<string>, m: nat): seq<int>
    requires m <= |keys|
  {
    if m == 0 then []
    else DistancesOver(s, keys, m - 1) + Gaps(Occurrences(s, keys[m - 1], |s|))
  }

  /** The `distances` list of `kasiski_examination`. */
  function Distances(t: string): seq<int> {
    var s := Trigrams(t);
    DistancesOver(s, Dedup(s), |Dedup(s)|)
  }

  /** The `i in range(2, n)` with `d % i == 0`, in increasing order. */
  function DivisorsBelow(d: int, n: int): seq<int>
    decreases n
  {
    if n <= 2 then []
    else DivisorsBelow(d, n - 1) + (if d % (n - 1) == 0 then [n - 1] else [])
  }

  /** Each `k` in `range(2, n)` dividing `d` is listed exactly once, and nothing else is. */
  lemma {:induction false} DivisorsBelowCount(d: int, n: int, k: int)
    ensures multiset(DivisorsBelow(d, n))[k] == if 2 <= k < n && d % k == 0 then 1 else 0
    decreases n
  {
    if n > 2 {
      DivisorsBelowCount(d, n - 1, k);
    }
  }

  /** The divisors of `d` that the inner loop visits: `range(2, d)`. */
  function ProperDivisors(d: int): seq<int> {
    DivisorsBelow(d, d)
  }

  /** Every divisor the tally loop counts, in the order it counts them. */
  function DivisorStream(ds: seq<int>): seq<int> {
    if ds == [] then [] else DivisorStream(ds[..|ds| - 1]) + ProperDivisors(ds[|ds| - 1])
  }

  /** How many distances `d` have `k` as a divisor in `range(2, d)`. */
  function CountDividing(ds: seq<int>, k: int): nat {
    if ds == [] then 0
    else CountDividing(ds[..|ds| - 1], k) + if 2 <= k < ds[|ds| - 1] && ds[|ds| - 1] % k == 0 then 1 else 0
  }

  /** The sort key of the result: a larger tally sorts first. */
  function ByTally(stream: seq<int>): int -> int {
    (k: int) => -(multiset(stream)[k] as int)
  }

  /** `kasiski_examination(t)`: the tallied divisors, most frequent first, stable on ties. */
  function LikelyKeyLengths(t: string): seq<int> {
    var stream := DivisorStream(Distances(t));
    SortBy(Dedup(stream), ByTally(stream))
  }

  // ----- the three phases of the examination, as the source's loops -----

  /** The `repeats` dict after the first `i` trigrams: each trigram seen mapped to its start positions. */
  function RepeatsMap<T(==)>(s: seq<T>, i: nat): map<T, seq<nat>>
    requires i <= |s|
  {
    if i == 0 then map[]
    else
      var m, g := RepeatsMap(s, i - 1), s[i - 1];
      m[g := if g in m then m[g] + [i - 1] else [i - 1]]
  }

  /** The dict's keys are exactly the trigrams seen. */
  lemma {:induction false} RepeatsMapKeys<T>(s: seq<T>, i: nat, g: T)
    requires i <= |s|
    ensures g in RepeatsMap(s, i) <==> g in s[..i]
  {
    if i > 0 {
      RepeatsMapKeys(s, i - 1, g);
      assert s[..i] == s[..i - 1] + [s[i - 1]];
    }
  }

  /** A trigram not yet seen has no positions. */
  lemma {:induction false} OccurrencesNone<T>(s: seq<T>, g: T, i: nat)
    requires i <= |s| && g !in s[..i]
    ensures Occurrences(s, g, i) == []
  {
    if i > 0 {
      assert s[..i][i - 1] == s[i - 1];
      assert s[..i - 1] == s[..i][..i - 1];
      OccurrencesNone(s, g, i - 1);
    }
  }

  /** Each key is mapped to the full list of its positions. */
  lemma {:induction false} RepeatsMapSpec<T>(s: seq<T>, i: nat, g: T)
    requires i <= |s| && g in RepeatsMap(s, i)
    ensures RepeatsMap(s, i)[g] == Occurrences(s, g, i)
  {
    var p, h := RepeatsMap(s, i - 1), s[i - 1];
    if g in p {
      RepeatsMapSpec(s, i - 1, g);
    } else {
      RepeatsMapKeys(s, i - 1, g);
      OccurrencesNone(s, g, i - 1);
    }
  }

  /** The state of the first loop after `i` trigrams: the dict's keys in insertion order, and the dict. */
  ghost predicate RepeatsUpTo(s: seq<string>, i: nat, keys: seq<string>, repeats: map<string, seq<nat>>)
    requires i <= |s|
  {
    keys == Dedup(s[..i]) && repeats == RepeatsMap(s, i)
  }

  lemma DedupStep<T>(s: seq<T>, i: nat)
    requires i < |s|
    ensures Dedup(s[..i + 1]) == if s[i] in Dedup(s[..i]) then Dedup(s[..i]) else Dedup(s[..i]) + [s[i]]
  {
    assert s[..i + 1][..i] == s[..i];
  }

  lemma RepeatsStep(s: seq<string>, i: nat, keys: seq<string>, repeats: map<string, seq<nat>>)
    requires i < |s| && RepeatsUpTo(s, i, keys, repeats)
    ensures s[i] in repeats ==> RepeatsUpTo(s, i + 1, keys, repeats[s[i] := repeats[s[i]] + [i]])
    ensures s[i] !in repeats ==> RepeatsUpTo(s, i + 1, keys + [s[i]], repeats[s[i] := [i]])
  {
    DedupStep(s, i);
    DedupHas(s[..i], s[i]);
    RepeatsMapKeys(s, i, s[i]);
  }

  /** The first loop: every trigram's start positions, keyed in order of first appearance. */
  method FindRepeats(cipherText: string) returns (keys: seq<string>, repeats: map<string, seq<nat>>)
    ensures RepeatsUpTo(Trigrams(cipherText), |Trigrams(cipherText)|, keys, repeats)
  {
    ghost var s := Trigrams(cipherText);
    keys, repeats := [], map[];
    var n := if |cipherText| >= 2 then |cipherText| - 2 else 0;
    var i := 0;
    while i < n
      invariant 0 <= i <= n == |s|
      invariant RepeatsUpTo(s, i, keys, repeats)
    {
      var trigram := cipherText[i..i + 3];
      RepeatsStep(s, i, keys, repeats);
      if trigram in repeats {
        repeats := repeats[trigram := repeats[trigram] + [i]];
      } else {
        repeats := repeats[trigram := [i]];
        keys := keys + [trigram];
      }
      i := i + 1;
    }
  }

  lemma RepeatsLookup(s: seq<string>, keys: seq<string>, repeats: map<string, seq<nat>>, m: nat)
    requires RepeatsUpTo(s, |s|, keys, repeats) && m < |keys|
    ensures keys[m] in repeats && repeats[keys[m]] == Occurrences(s, keys[m], |s|)
    ensures DistancesOver(s, keys, m + 1) == DistancesOver(s, keys, m) + Gaps(repeats[keys[m]])
  {
    assert s[..|s|] == s;
    DedupHas(s, keys[m]);
    RepeatsMapKeys(s, |s|, keys[m]);
    RepeatsMapSpec(s, |s|, keys[m]);
  }

  lemma GapsStep(base: seq<int>, xs: seq<nat>, j: nat)
    requires j + 1 < |xs|
    ensures base + Gaps(xs)[..j + 1] == (base + Gaps(xs)[..j]) + [xs[j + 1] as int - xs[j] as int]
  {
    assert Gaps(xs)[..j + 1] == Gaps(xs)[..j] + [xs[j + 1] as int - xs[j] as int];
  }

  /** The inner loop of the second loop: appends the gaps between consecutive positions of `indices`. */
  method AppendGaps(distances: seq<int>, indices: seq<nat>) returns (r: seq<int>)
    ensures r == distances + Gaps(indices)
  {
    r := distances;
    if |indices| > 1 {
      var j := 0;
      while j < |indices| - 1
        invariant 0 <= j <= |indices| - 1
        invariant r == distances + Gaps(indices)[..j]
      {
        GapsStep(distances, indices, j);
        r := r + [indices[j + 1] as int - indices[j] as int];
        j := j + 1;
      }
      assert Gaps(indices)[..j] == Gaps(indices);
    } else {
      assert Gaps(indices) == [];
    }
  }

  /** The second loop: the gaps between consecutive positions of every repeated trigram. */
  method CollectDistances(ghost s: seq<string>, keys: seq<string>, repeats: map<string, seq<nat>>)
    returns (distances: seq<int>)
    requires RepeatsUpTo(s, |s|, keys, repeats)
    ensures distances == DistancesOver(s, keys, |keys|)
  {
    distances := [];
    var m := 0;
    while m < |keys|
      invariant 0 <= m <= |keys|
      invariant distances == DistancesOver(s, keys, m)
    {
      RepeatsLookup(s, keys, repeats, m);
      distances := AppendGaps(distances, repeats[keys[m]]);
      m := m + 1;
    }
  }

  /** The `common_factors` dict after tallying `stream`: each value's number of occurrences. */
  function Tally(stream: seq<int>): map<int, nat> {
    if stream == [] then map[]
    else
      var m, k := Tally(stream[..|stream| - 1]), stream[|stream| - 1];
      m[k := (if k in m then m[k] else 0) + 1]
  }

  /** The tally holds exactly the values of `stream`, each with its multiplicity. */
  lemma {:induction false} TallyCounts(stream: seq<int>, k: int)
    ensures k in Tally(stream) <==> k in stream
    ensures k in Tally(stream) ==> Tally(stream)[k] == multiset(stream)[k]
  {
    if stream != [] {
      var p := stream[..|stream| - 1];
      assert stream == p + [stream[|stream| - 1]];
      TallyCounts(p, k);
    }
  }

  /** The `common_factors` dict as a tally of `stream`: keys in insertion order, values the counts. */
  ghost predicate TallyOf(stream: seq<int>, keys: seq<int>, counts: map<int, nat>) {
    keys == Dedup(stream) && counts == Tally(stream)
  }

  /** `common_factors[k] = common_factors.get(k, 0) + 1` keeps the tally. */
  lemma TallyStep(stream: seq<int>, keys: seq<int>, counts: map<int, nat>, k: int)
    requires TallyOf(stream, keys, counts)
    ensures TallyOf(stream + [k], if k in counts then keys else keys + [k],
                    counts[k := (if k in counts then counts[k] else 0) + 1])
  {
    var s' := stream + [k];
    assert s'[..|s'| - 1] == stream && s'[|s'| - 1] == k;
    DedupHas(stream, k);
    TallyCounts(stream, k);
    assert (k in counts) == (k in Dedup(stream));
    assert Tally(s') == counts[k := (if k in counts then counts[k] else 0) + 1];
    assert Dedup(s') == if k in counts then keys else keys + [k];
  }

  lemma TallyEmpty()
    ensures TallyOf([], [], map[])
  {
  }

  /** One step of the inner loop extends the visited divisors by `k` exactly when `k` divides `d`. */
  lemma DivisorsBelowStep(before: seq<int>, d: int, k: int)
    requires k >= 2
    ensures before + DivisorsBelow(d, k + 1) ==
            if d % k == 0 then (before + DivisorsBelow(d, k)) + [k] else before + DivisorsBelow(d, k)
  {
    assert (before + DivisorsBelow(d, k)) + [k] == before + (DivisorsBelow(d, k) + [k]);
  }

  lemma DivisorStreamStep(ds: seq<int>, q: nat)
    requires q < |ds|
    ensures DivisorStream(ds[..q + 1]) == DivisorStream(ds[..q]) + ProperDivisors(ds[q])
  {
    assert ds[..q + 1][..q] == ds[..q];
  }

  /** The inner loop of the third loop: tallies every `k` in `range(2, distance)` that divides `distance`. */
  method TallyDistance(ghost before: seq<int>, distance: int, factors: seq<int>, counts: map<int, nat>)
    returns (factors': seq<int>, counts': map<int, nat>)
    requires TallyOf(before, factors, counts)
    ensures TallyOf(before + ProperDivisors(distance), factors', counts')
  {
    factors', counts' := factors, counts;
    ghost var cur := before;
    var k := 2;
    assert before + DivisorsBelow(distance, k) == before;
    while k < distance
      invariant 2 <= k && (k <= distance || k == 2)
      invariant cur == before + DivisorsBelow(distance, k)
      invariant TallyOf(cur, factors', counts')
    {
      DivisorsBelowStep(before, distance, k);
      if distance % k == 0 {
        TallyStep(cur, factors', counts', k);
        if k !in counts' {
          factors' := factors' + [k];
        }
        counts' := counts'[k := (if k in counts' then counts'[k] else 0) + 1];
        cur := cur + [k];
      }
      k := k + 1;
    }
  }

  /** The third loop: tallies every divisor in `range(2, distance)` of every distance. */
  method TallyDivisors(distances: seq<int>) returns (factors: seq<int>, counts: map<int, nat>)
    ensures TallyOf(DivisorStream(distances), factors, counts)
  {
    factors, counts := [], map[];
    TallyEmpty();
    var q := 0;
    while q < |distances|
      invariant 0 <= q <= |distances|
      invariant TallyOf(DivisorStream(distances[..q]), factors, counts)
    {
      DivisorStreamStep(distances, q);
      factors, counts := TallyDistance(DivisorStream(distances[..q]), distances[q], factors, counts);
      q := q + 1;
    }
    assert distances[..q] == distances;
  }

  /** `kasiski_examination`: the three loops, then the tallied divisors sorted by tally, largest first. */
  method KasiskiExamination(cipherText: string) returns (likely: seq<int>)
    ensures likely == LikelyKeyLengths(cipherText)
  {
    var keys, repeats := FindRepeats(cipherText);
    assert Trigrams(cipherText)[..|Trigrams(cipherText)|] == Trigrams(cipherText);
    var distances := CollectDistances(Trigrams(cipherText), keys, repeats);
    assert distances == Distances(cipherText);
    var factors, counts := TallyDivisors(distances);
    var byCount: int -> int := k => -(if k in counts then counts[k] as int else 0);
    likely := SortBy(factors, byCount);
    ghost var stream := DivisorStream(distances);
    forall i | 0 <= i < |factors| ensures byCount(factors[i]) == ByTally(stream)(factors[i]) {
      DedupHas(stream, factors[i]);
      TallyCounts(stream, factors[i]);
    }
    SortByKeyCongruence(factors, byCount, ByTally(stream));
  }

  // ----- what the examination reports -----

  /** Every distance of the first `m` dict entries separates two occurrences of one trigram. */
  lemma {:induction false} DistancesOverWitness(s: seq<string>, keys: seq<string>, m: nat, i: nat)
    requires m <= |keys| && i < |DistancesOver(s, keys, m)|
    ensures exists p, q :: 0 <= p < q < |s| && s[p] == s[q] && DistancesOver(s, keys, m)[i] == q - p
  {
    var prev := DistancesOver(s, keys, m - 1);
    if i < |prev| {
      DistancesOverWitness(s, keys, m - 1, i);
    } else {
      var occ := Occurrences(s, keys[m - 1], |s|);
      OccurrencesSpec(s, keys[m - 1], |s|);
      var j := i - |prev|;
      assert DistancesOver(s, keys, m)[i] == occ[j + 1] - occ[j];
      assert s[occ[j]] == s[occ[j + 1]];
    }
  }

  /** Each reported distance is `q - p` for two positions `p < q` that start the same trigram `t[p..p + 3]`. */
  lemma DistanceWitness(t: string, i: nat)
    requires i < |Distances(t)|
    ensures Distances(t)[i] > 0
    ensures exists p, q :: 0 <= p < q < |Trigrams(t)| && Trigrams(t)[p] == Trigrams(t)[q] && Distances(t)[i] == q - p
  {
    var s := Trigrams(t);
    DistancesOverWitness(s, Dedup(s), |Dedup(s)|, i);
  }

  /** A trigram with two positions contributes at least one distance once its entry is reached. */
  lemma {:induction false} DistancesOverGrow(s: seq<string>, keys: seq<string>, m: nat, m0: nat)
    requires m0 < m <= |keys|
    ensures |DistancesOver(s, keys, m)| >= |Gaps(Occurrences(s, keys[m0], |s|))|
  {
    if m0 < m - 1 {
      DistancesOverGrow(s, keys, m - 1, m0);
    }
  }

  /** There are no distances exactly when no trigram occurs twice. */
  lemma NoDistances(t: string)
    ensures Distances(t) == [] <==> Distinct(Trigrams(t))
  {
    var s := Trigrams(t);
    var keys := Dedup(s);
    if Distances(t) != [] {
      DistancesOverWitness(s, keys, |keys|, 0);
    }
    if !Distinct(s) {
      var p, q :| 0 <= p < q < |s| && s[p] == s[q];
      DedupHas(s, s[p]);
      var m0 := FirstIndex(keys, s[p]);
      var occ := Occurrences(s, s[p], |s|);
      OccurrencesSpec(s, s[p], |s|);
      assert p in occ && q in occ;
      var a :| 0 <= a < |occ| && occ[a] == p;
      var b :| 0 <= b < |occ| && occ[b] == q;
      assert a != b;
      DistancesOverGrow(s, keys, |keys|, m0);
    }
  }

  /** The tally of `k` is the number of distances `d` with `k` in `range(2, d)` dividing `d`. */
  lemma {:induction false} TallyIsCount(ds: seq<int>, k: int)
    ensures multiset(DivisorStream(ds))[k] == CountDividing(ds, k)
  {
    if ds != [] {
      TallyIsCount(ds[..|ds| - 1], k);
      DivisorsBelowCount(ds[|ds| - 1], ds[|ds| - 1], k);
    }
  }

  /** A key length is reported exactly when it properly divides some distance. */
  lemma LikelyMembers(t: string, k: int)
    ensures k in LikelyKeyLengths(t) <==> CountDividing(Distances(t), k) > 0
  {
    var stream := DivisorStream(Distances(t));
    DedupHas(stream, k);
    TallyIsCount(Distances(t), k);
    assert multiset(LikelyKeyLengths(t)) == multiset(Dedup(stream));
    assert k in LikelyKeyLengths(t) <==> k in multiset(LikelyKeyLengths(t));
  }

  /**
   * Each key length is reported once, larger tallies first; equal tallies keep the order
   * in which the tally first met them (the dict's insertion order, kept by a stable sort).
   */
  lemma LikelyOrder(t: string, i: nat, j: nat)
    requires i < j < |LikelyKeyLengths(t)|
    ensures LikelyKeyLengths(t)[i] != LikelyKeyLengths(t)[j]
    ensures CountDividing(Distances(t), LikelyKeyLengths(t)[i]) >= CountDividing(Distances(t), LikelyKeyLengths(t)[j])
    ensures CountDividing(Distances(t), LikelyKeyLengths(t)[i]) == CountDividing(Distances(t), LikelyKeyLengths(t)[j]) ==>
              LikelyKeyLengths(t)[i] in DivisorStream(Distances(t)) && LikelyKeyLengths(t)[j] in DivisorStream(Distances(t)) &&
              FirstIndex(DivisorStream(Distances(t)), LikelyKeyLengths(t)[i]) < FirstIndex(DivisorStream(Distances(t)), LikelyKeyLengths(t)[j])
  {
    var ds := Distances(t);
    var stream := DivisorStream(ds);
    var keys := Dedup(stream);
    var r := LikelyKeyLengths(t);
    CountsDistinct(r, keys);
    TallyIsCount(ds, r[i]);
    TallyIsCount(ds, r[j]);
    assert ByTally(stream)(r[i]) <= ByTally(stream)(r[j]);
    if CountDividing(ds, r[i]) == CountDividing(ds, r[j]) {
      SortByStable(keys, ByTally(stream), i, j);
      DedupOrderOf(stream, r[i], r[j]);
    }
  }
}
