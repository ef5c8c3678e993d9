/** Sequence helpers shared by the codecs: first occurrences, filters, padding, matrices. */
module Seqs {

  import Arith

  ghost predicate Distinct<T>(s: seq<T>) {
    forall i, j :: 0 <= i < j < |s| ==> s[i] != s[j]
  }

  /** Moving one element from the front of the rest to the end of the output keeps their concatenation. */
  lemma Append<T>(out: seq<T>, x: T, rest: seq<T>)
    ensures (out + [x]) + rest == out + ([x] + rest)
  {
  }

  lemma Concat3<T>(a: seq<T>, b: seq<T>, c: seq<T>)
    ensures a + (b + c) == (a + b) + c
  {
  }

  /** Python's `list.index(x)` / `str.index(x)`: the position of the first `x`. */
  function FirstIndex<T(==)>(s: seq<T>, x: T): (r: nat)
    requires x in s
    ensures r < |s| && s[r] == x && x !in s[..r]
  {
    if s[0] == x then 0
    else
      var r := FirstIndex(s[1..], x);
      assert s[1..][..r] == s[1..r + 1];
      1 + r
  }

  lemma FirstIndexOfDistinct<T>(s: seq<T>, i: nat)
    requires Distinct(s) && i < |s|
    ensures FirstIndex(s, s[i]) == i
  {
    var r := FirstIndex(s, s[i]);
  }

  lemma FirstIndexPrefix<T>(s: seq<T>, x: T, n: nat)
    requires n <= |s| && x in s[..n]
    ensures FirstIndex(s, x) == FirstIndex(s[..n], x)
  {
    var r, r' := FirstIndex(s, x), FirstIndex(s[..n], x);
    assert s[..n][..r'] == s[..r'];
  }

  /** The distinct elements of `s` in order of first occurrence
      (`sorted(set(s), key=s.index)`, or the keys of a dict filled from `s`). */
  function Dedup<T(==)>(s: seq<T>): (r: seq<T>)
    ensures Distinct(r) && |r| <= |s|
  {
    if s == [] then []
    else
      var p, x := Dedup(s[..|s| - 1]), s[|s| - 1];
      if x in p then p else p + [x]
  }

  /** Dedup keeps an element exactly when it occurs in `s`. */
  lemma {:induction false} DedupHas<T>(s: seq<T>, x: T)
    ensures x in Dedup(s) <==> x in s
  {
    if s != [] {
      var s' := s[..|s| - 1];
      assert s == s' + [s[|s| - 1]];
      DedupHas(s', x);
    }
  }

  /** Dedup lists the elements strictly in the order of their first occurrence in `s`. */
  lemma {:induction false} DedupOrder<T>(s: seq<T>, i: nat, j: nat)
    requires i < j < |Dedup(s)|
    ensures Dedup(s)[i] in s && Dedup(s)[j] in s
    ensures FirstIndex(s, Dedup(s)[i]) < FirstIndex(s, Dedup(s)[j])
  {
    DedupHas(s, Dedup(s)[i]);
    DedupHas(s, Dedup(s)[j]);
    var s', x := s[..|s| - 1], s[|s| - 1];
    assert s == s' + [x];
    var p := Dedup(s');
    var d := Dedup(s);
    assert d[i] == p[i];
    DedupHas(s', p[i]);
    FirstIndexPrefix(s, d[i], |s'|);
    assert s[..|s'|] == s';
    if j < |p| {
      DedupHas(s', p[j]);
      FirstIndexPrefix(s, d[j], |s'|);
      DedupOrder(s', i, j);
    } else {
      DedupHas(s', x);
      assert d[j] == x && x !in s';
      assert FirstIndex(s, x) == |s'|;
    }
  }

  /** Comparing first positions in the deduplicated sequence matches comparing them in the original. */
  lemma DedupOrderOf<T>(s: seq<T>, x: T, y: T)
    requires x in Dedup(s) && y in Dedup(s) && FirstIndex(Dedup(s), x) < FirstIndex(Dedup(s), y)
    ensures x in s && y in s && FirstIndex(s, x) < FirstIndex(s, y)
  {
    DedupOrder(s, FirstIndex(Dedup(s), x), FirstIndex(Dedup(s), y));
  }

  function Filter<T>(s: seq<T>, p: T -> bool): (r: seq<T>)
    ensures |r| <= |s|
  {
    if s == [] then []
    else
      var x := s[|s| - 1];
      var f := Filter(s[..|s| - 1], p);
      if p(x) then f + [x] else f
  }

  /** Filter keeps an element exactly when it occurs in `s` and passes `p`. */
  lemma {:induction false} FilterHas<T>(s: seq<T>, p: T -> bool, x: T)
    ensures x in Filter(s, p) <==> x in s && p(x)
  {
    if s != [] {
      var s' := s[..|s| - 1];
      assert s == s' + [s[|s| - 1]];
      FilterHas(s', p, x);
    }
  }

  lemma {:induction false} FilterConcat<T>(a: seq<T>, b: seq<T>, p: T -> bool)
    ensures Filter(a + b, p) == Filter(a, p) + Filter(b, p)
  {
    if b != [] {
      var b' := b[..|b| - 1];
      assert (a + b)[..|a + b| - 1] == a + b';
      FilterConcat(a, b', p);
    } else {
      assert a + b == a;
    }
  }

  lemma {:induction false} FilterDistinct<T>(s: seq<T>, p: T -> bool)
    requires Distinct(s)
    ensures Distinct(Filter(s, p))
  {
    if s != [] {
      var s' := s[..|s| - 1];
      FilterDistinct(s', p);
      FilterHas(s', p, s[|s| - 1]);
    }
  }

  /** Python's `s.replace(a, b)` for single characters. */
  function ReplaceChar(s: string, a: char, b: char): (r: string)
    ensures |r| == |s|
    ensures forall i :: 0 <= i < |s| ==> r[i] == if s[i] == a then b else s[i]
  {
    seq(|s|, i requires 0 <= i < |s| => if s[i] == a then b else s[i])
  }

  lemma ReplaceCharBack(s: string, a: char, b: char)
    requires b !in s
    ensures ReplaceChar(ReplaceChar(s, a, b), b, a) == s
  {
    var r := ReplaceChar(ReplaceChar(s, a, b), b, a);
    assert forall i :: 0 <= i < |s| ==> r[i] == s[i];
  }

  /**
   * Dropping trailing fillers and turning the `~` placeholders back into spaces undoes
   * replacing spaces by `~` and appending fillers, for a text without `~` that does not end in a filler.
   */
  lemma UnpadRoundTrip(text: string, fill: char, n: nat)
    requires fill != '~' && '~' !in text && (text == [] || text[|text| - 1] != fill)
    ensures ReplaceChar(RStrip(ReplaceChar(text, ' ', '~') + Repeat(fill, n), fill), '~', ' ') == text
  {
    var u := ReplaceChar(text, ' ', '~');
    if u != [] {
      assert u[|u| - 1] == if text[|text| - 1] == ' ' then '~' else text[|text| - 1];
    }
    RStripPadding(u, fill, n);
    ReplaceCharBack(text, ' ', '~');
  }

  /** Python's `s.replace(c, "")`: every `c` removed. */
  function RemoveChar(s: string, c: char): string {
    Filter(s, x => x != c)
  }

  /** Removing `c` leaves no `c` and keeps every other character of `s`. */
  lemma RemoveCharHas(s: string, c: char, x: char)
    ensures x in RemoveChar(s, c) <==> x in s && x != c
  {
    FilterHas(s, y => y != c, x);
  }

  function Repeat<T>(x: T, n: nat): (r: seq<T>)
    ensures |r| == n && forall i :: 0 <= i < n ==> r[i] == x
  {
    seq(n, _ => x)
  }

  /** Python's `s.rstrip(c)` for a single character. */
  function RStrip(s: string, c: char): (r: string)
    ensures r <= s
    ensures r == [] || r[|r| - 1] != c
    ensures forall i :: |r| <= i < |s| ==> s[i] == c
  {
    if s == [] || s[|s| - 1] != c then s else RStrip(s[..|s| - 1], c)
  }

  lemma {:induction false} RStripPadding(s: string, c: char, n: nat)
    requires s == [] || s[|s| - 1] != c
    ensures RStrip(s + Repeat(c, n), c) == s
  {
    if n > 0 {
      assert (s + Repeat(c, n))[..|s| + n - 1] == s + Repeat(c, n - 1);
      RStripPadding(s, c, n - 1);
    } else {
      assert s + Repeat(c, 0) == s;
    }
  }

  /** `range(n)` */
  function Range(n: nat): (r: seq<nat>)
    ensures |r| == n && forall i :: 0 <= i < n ==> r[i] == i
  {
    seq(n, i => i)
  }

  /** `"".join(rows)`: the rows of a matrix concatenated. */
  function Flatten<T>(m: seq<seq<T>>): seq<T> {
    if m == [] then [] else m[0] + Flatten(m[1..])
  }

  lemma {:induction false} FlattenConcat<T>(a: seq<seq<T>>, b: seq<seq<T>>)
    ensures Flatten(a + b) == Flatten(a) + Flatten(b)
  {
    if a != [] {
      assert (a + b)[1..] == a[1..] + b;
      FlattenConcat(a[1..], b);
    } else {
      assert a + b == b;
    }
  }

  lemma FlattenOne<T>(u: seq<T>)
    ensures Flatten([u]) == u
  {
    assert [u][1..] == [];
  }

  /** An element in none of the rows is not in their concatenation. */
  lemma {:induction false} FlattenAvoids<T>(m: seq<seq<T>>, x: T)
    requires forall i :: 0 <= i < |m| ==> x !in m[i]
    ensures x !in Flatten(m)
  {
    if m != [] {
      FlattenAvoids(m[1..], x);
    }
  }

  ghost predicate Rectangular<T>(m: seq<seq<T>>, w: nat) {
    forall i :: 0 <= i < |m| ==> |m[i]| == w
  }

  lemma {:induction false} FlattenAt<T>(m: seq<seq<T>>, w: nat, r: nat, c: nat)
    requires Rectangular(m, w) && r < |m| && c < w
    ensures |Flatten(m)| == |m| * w
    ensures r * w + c < |m| * w && Flatten(m)[r * w + c] == m[r][c]
  {
    FlattenLength(m, w);
    Arith.CellBound(r, c, |m|, w);
    if r > 0 {
      FlattenAt(m[1..], w, r - 1, c);
      assert (r - 1) * w + c + w == r * w + c;
    }
  }

  lemma {:induction false} FlattenLength<T>(m: seq<seq<T>>, w: nat)
    requires Rectangular(m, w)
    ensures |Flatten(m)| == |m| * w
  {
    if m != [] { FlattenLength(m[1..], w); }
  }

  /** `[s[r * w:(r + 1) * w] for r in range(n)]`: the first `n * w` elements cut into rows of `w`. */
  function Chunks<T>(s: seq<T>, n: nat, w: nat): (m: seq<seq<T>>)
    requires n * w <= |s|
    ensures |m| == n && Rectangular(m, w)
  {
    var m := seq(n, r requires 0 <= r < n => (ChunkBounds(r, n, w); s[r * w..(r + 1) * w]));
    assert Rectangular(m, w) by {
      forall r | 0 <= r < n ensures |m[r]| == w { ChunkBounds(r, n, w); }
    }
    m
  }

  lemma ChunkBounds(r: nat, n: nat, w: nat)
    requires r < n
    ensures 0 <= r * w <= (r + 1) * w <= n * w
    ensures (r + 1) * w - r * w == w
  {
    Arith.MulNonneg(r, w);
    Arith.MulMono(r + 1, n, w);
  }

  lemma ChunksAt<T>(s: seq<T>, n: nat, w: nat, r: nat, c: nat)
    requires n * w <= |s| && r < n && c < w
    ensures r * w + c < |s| && Chunks(s, n, w)[r][c] == s[r * w + c]
  {
    ChunkBounds(r, n, w);
  }

  /** Appending the next slice of `s` as a row extends the flattened prefix of `s`. */
  lemma FlattenPrefixExtend<T>(runs: seq<seq<T>>, s: seq<T>, i: nat, j: nat)
    requires i <= j <= |s| && Flatten(runs) == s[..i]
    ensures Flatten(runs + [s[i..j]]) == s[..j]
  {
    FlattenConcat(runs, [s[i..j]]);
    assert Flatten([s[i..j]]) == s[i..j] + Flatten([]);
    assert s[..j] == s[..i] + s[i..j];
  }

  /** The rows cut from a sequence depend only on its first `n * w` elements. */
  lemma ChunksPrefix<T>(s: seq<T>, n: nat, w: nat, m: nat)
    requires n * w <= m <= |s|
    ensures Chunks(s, n, w) == Chunks(s[..m], n, w)
  {
    var a, b := Chunks(s, n, w), Chunks(s[..m], n, w);
    forall r | 0 <= r < n ensures a[r] == b[r] {
      ChunkBounds(r, n, w);
    }
  }

  /** Cutting rows from a sequence brings in no element it lacks. */
  lemma ChunksAvoid<T>(s: seq<T>, n: nat, w: nat, x: T)
    requires n * w <= |s| && x !in s
    ensures forall r, c :: 0 <= r < n && 0 <= c < w ==> Chunks(s, n, w)[r][c] != x
  {
    forall r, c | 0 <= r < n && 0 <= c < w ensures Chunks(s, n, w)[r][c] != x {
      ChunksAt(s, n, w, r, c);
    }
  }

  /** Cutting a rectangular matrix's flattening into rows gives the matrix back. */
  lemma ChunksOfFlatten<T>(m: seq<seq<T>>, w: nat)
    requires Rectangular(m, w)
    ensures |Flatten(m)| == |m| * w && Chunks(Flatten(m), |m|, w) == m
  {
    FlattenLength(m, w);
    var c := Chunks(Flatten(m), |m|, w);
    forall r | 0 <= r < |m| ensures c[r] == m[r] {
      forall k | 0 <= k < w ensures c[r][k] == m[r][k] {
        FlattenAt(m, w, r, k);
        ChunksAt(Flatten(m), |m|, w, r, k);
      }
    }
  }

  /** Joining the rows cut from exactly `n * w` elements gives them back. */
  lemma FlattenOfChunks<T>(s: seq<T>, n: nat, w: nat)
    requires |s| == n * w
    ensures Flatten(Chunks(s, n, w)) == s
  {
    var m := Chunks(s, n, w);
    FlattenLength(m, w);
    var f := Flatten(m);
    forall q | 0 <= q < |s| ensures f[q] == s[q] {
      Arith.CellSplit(q, n, w);
      FlattenAt(m, w, q / w, q % w);
      ChunksAt(s, n, w, q / w, q % w);
    }
  }

  lemma {:induction false} DistinctCardinality<T>(s: seq<T>)
    requires Distinct(s)
    ensures |set x | x in s| == |s|
  {
    if s != [] {
      var s' := s[..|s| - 1];
      DistinctCardinality(s');
      assert s == s' + [s[|s| - 1]];
      assert (set x | x in s) == (set x | x in s') + {s[|s| - 1]};
    }
  }

  /** The rows of a character matrix, as strings. */
  function RowsOf(matrix: array2<char>): (rows: seq<string>)
    reads matrix
    ensures |rows| == matrix.Length0 && Rectangular(rows, matrix.Length1)
    ensures forall r, c :: 0 <= r < matrix.Length0 && 0 <= c < matrix.Length1 ==> rows[r][c] == matrix[r, c]
  {
    seq(matrix.Length0, r requires 0 <= r < matrix.Length0 reads matrix =>
      seq(matrix.Length1, c requires 0 <= c < matrix.Length1 reads matrix => matrix[r, c]))
  }
}
