/** The integer part of the index of coincidence: the pair count over the letter counts, and the pair total. */
module Coincidence {

  import opened Wrappers
  import opened Seqs

  /** `sum(f * (f - 1) for f in ...)` over the counts in `m` of the characters in `keys`. */
  function PairSum(keys: seq<char>, m: multiset<char>): nat {
    if keys == [] then 0
    else
      var f: int := m[keys[|keys| - 1]];
      PairsStep(f);
      PairSum(keys[..|keys| - 1], m) + f * (f - 1)
  }

  /** Going from `n` to `n + 1` equal items adds `2 * n` ordered pairs. */
  lemma PairsStep(n: nat)
    ensures n * (n - 1) >= 0
    ensures (n + 1) * n == n * (n - 1) + 2 * n
  {
  }

  /** The numerator: `Counter(text).values()` are the counts of the distinct characters of `text`. */
  function Numerator(text: string): nat {
    PairSum(Dedup(text), multiset(text))
  }

  /** The denominator `n * (n - 1)`. */
  function Denominator(text: string): nat {
    PairsStep(|text|);
    |text| * (|text| - 1)
  }

  /**
   * An independent count: the ordered pairs of distinct positions holding equal characters,
   * each new position pairing both ways with every earlier position holding its character.
   */
  function MatchingPairs(text: string): nat {
    if text == [] then 0
    else
      var p := text[..|text| - 1];
      MatchingPairs(p) + 2 * multiset(p)[text[|text| - 1]]
  }

  /** `calculate_ic` and `friedman_test` as a fraction: an empty or one-character text divides by zero. */
  function IndexOfCoincidence(text: string): (r: Result<(nat, nat)>)
    ensures r.Err? <==> |text| <= 1
    ensures r.Err? ==> r.error == DivisionByZero
    ensures r.Ok? ==> r.value == (Numerator(text), Denominator(text))
    ensures r.Ok? ==> r.value.1 > 0 && r.value.0 <= r.value.1
  {
    if Denominator(text) == 0 then Err(DivisionByZero)
    else
      NumeratorBound(text);
      Ok((Numerator(text), Denominator(text)))
  }

  /** Adding one more occurrence of `c` raises the count of pairs by `2 * f`, where `f` was its count. */
  lemma {:induction false} PairSumStep(keys: seq<char>, m: multiset<char>, c: char)
    requires Distinct(keys)
    ensures PairSum(keys, m[c := m[c] + 1]) == PairSum(keys, m) + if c in keys then 2 * m[c] else 0
  {
    if keys != [] {
      var p, x := keys[..|keys| - 1], keys[|keys| - 1];
      assert keys == p + [x];
      PairSumStep(p, m, c);
      if x == c {
        assert c !in p;
        PairsStep(m[c]);
      }
    }
  }

  /** The numerator counts exactly the ordered pairs of distinct positions with equal characters. */
  lemma {:induction false} NumeratorCountsPairs(text: string)
    ensures Numerator(text) == MatchingPairs(text)
  {
    if text != [] {
      var p, c := text[..|text| - 1], text[|text| - 1];
      assert text == p + [c];
      NumeratorCountsPairs(p);
      var m := multiset(p);
      assert multiset(text) == m[c := m[c] + 1];
      DedupHas(p, c);
      PairSumStep(Dedup(p), m, c);
      if c !in p {
        assert Dedup(text) == Dedup(p) + [c];
        assert m[c] == 0;
        assert (Dedup(p) + [c])[..|Dedup(p)|] == Dedup(p);
      }
    }
  }

  /** At most every ordered pair of distinct positions matches. */
  lemma {:induction false} MatchingPairsBound(text: string)
    ensures MatchingPairs(text) <= Denominator(text)
  {
    if text != [] {
      var p := text[..|text| - 1];
      MatchingPairsBound(p);
      assert multiset(p)[text[|text| - 1]] <= |multiset(p)|;
      PairsStep(|p|);
    }
  }

  /** So the index of coincidence lies between 0 and 1. */
  lemma NumeratorBound(text: string)
    ensures Numerator(text) <= Denominator(text)
  {
    NumeratorCountsPairs(text);
    MatchingPairsBound(text);
  }

  /** A text of one repeated character reaches the bound: every pair matches. */
  lemma {:induction false} UniformText(text: string, c: char)
    requires forall i :: 0 <= i < |text| ==> text[i] == c
    ensures Numerator(text) == Denominator(text)
  {
    NumeratorCountsPairs(text);
    UniformPairs(text, c);
  }

  lemma {:induction false} UniformPairs(text: string, c: char)
    requires forall i :: 0 <= i < |text| ==> text[i] == c
    ensures MatchingPairs(text) == Denominator(text)
  {
    if text != [] {
      var p := text[..|text| - 1];
      UniformPairs(p, c);
      assert multiset(p)[c] == |p| by {
        assert multiset(p) == multiset(Repeat(c, |p|)) by {
          assert p == Repeat(c, |p|);
        }
        RepeatCount(c, |p|);
      }
      PairsStep(|p|);
    }
  }

  lemma {:induction false} RepeatCount(c: char, n: nat)
    ensures multiset(Repeat(c, n))[c] == n
  {
    if n > 0 {
      assert Repeat(c, n) == Repeat(c, n - 1) + [c];
      RepeatCount(c, n - 1);
    }
  }
}
