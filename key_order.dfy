/** The column order a transposition keyword induces (`get_permutation_order`). */
module KeyOrder {

  import opened Seqs
  import opened Sorting
  import opened Permutations

  /** The sort key `lambda x: keyword[x]`, total on all naturals. */
  function CharAt(keyword: string): nat -> int {
    (x: nat) => if x < |keyword| then keyword[x] as int else 0
  }

  /** `sorted(range(len(keyword)), key=lambda x: keyword[x])`. */
  function PermutationOrder(keyword: string): (order: seq<nat>)
    ensures |order| == |keyword|
    ensures forall k :: 0 <= k < |order| ==> order[k] < |keyword|
  {
    var order := SortBy(Range(|keyword|), CharAt(keyword));
    PermutationFacts(order, |keyword|);
    order
  }

  /**
   * The order lists every column exactly once, keyword characters never decrease along it,
   * and equal characters keep their left-to-right order.
   */
  lemma PermutationOrderSpec(keyword: string)
    ensures IsPermutation(PermutationOrder(keyword), |keyword|)
    ensures Injective(PermutationOrder(keyword), |keyword|)
    ensures forall a, b :: 0 <= a < b < |keyword| ==>
      keyword[PermutationOrder(keyword)[a]] <= keyword[PermutationOrder(keyword)[b]]
    ensures forall a, b ::
      0 <= a < b < |keyword| && keyword[PermutationOrder(keyword)[a]] == keyword[PermutationOrder(keyword)[b]]
      ==> PermutationOrder(keyword)[a] < PermutationOrder(keyword)[b]
  {
    var n := |keyword|;
    var order := PermutationOrder(keyword);
    SortedRangeSpec(n, CharAt(keyword));
    forall a, b | 0 <= a < b < n ensures keyword[order[a]] <= keyword[order[b]] {
      assert CharAt(keyword)(order[a]) <= CharAt(keyword)(order[b]);
    }
    forall a, b | 0 <= a < b < n && keyword[order[a]] == keyword[order[b]]
      ensures order[a] < order[b]
    {
      assert CharAt(keyword)(order[a]) == CharAt(keyword)(order[b]);
    }
  }

  /** `Rank(keyword)[c]`: where column `c` stands in the order, i.e. `sorted(range(n), key=order)`. */
  function Rank(keyword: string): (rank: seq<nat>)
    ensures |rank| == |keyword|
    ensures forall c :: 0 <= c < |rank| ==> rank[c] < |rank|
  {
    PermutationFacts(InverseOrder(PermutationOrder(keyword)), |keyword|);
    InverseOrder(PermutationOrder(keyword))
  }

  /** The order and the ranks undo each other, and both stay below the keyword length. */
  lemma OrderRanks(keyword: string)
    ensures forall k :: 0 <= k < |keyword| ==>
              PermutationOrder(keyword)[k] < |keyword| && Rank(keyword)[PermutationOrder(keyword)[k]] == k
    ensures forall c :: 0 <= c < |keyword| ==>
              Rank(keyword)[c] < |keyword| && PermutationOrder(keyword)[Rank(keyword)[c]] == c
  {
    PermutationOrderSpec(keyword);
    InverseOrderInverts(PermutationOrder(keyword), |keyword|);
  }

  /** The `k`-th column in the order has rank `k`. */
  lemma RankOfOrder(keyword: string, k: nat)
    requires k < |keyword|
    ensures PermutationOrder(keyword)[k] < |keyword| && Rank(keyword)[PermutationOrder(keyword)[k]] == k
  {
    OrderRanks(keyword);
  }

  /** Column `c` stands at place `Rank(keyword)[c]` of the order. */
  lemma OrderOfRank(keyword: string, c: nat)
    requires c < |keyword|
    ensures Rank(keyword)[c] < |keyword| && PermutationOrder(keyword)[Rank(keyword)[c]] == c
  {
    OrderRanks(keyword);
  }
}
