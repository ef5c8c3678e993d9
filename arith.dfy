/** Integer facts about row-major cell numbering and padding to a multiple. */
module Arith {

  lemma MulNonneg(a: int, b: int)
    requires a >= 0 && b >= 0
    ensures a * b >= 0
  {
  }

  lemma MulMono(a: int, b: int, w: int)
    requires a <= b && w >= 0
    ensures a * w <= b * w
  {
    assert b * w - a * w == (b - a) * w;
    MulNonneg(b - a, w);
  }

  /** Cell (r, c) of a matrix with `w` columns is `r * w + c`, and it lies before cell (h, 0). */
  lemma CellBound(r: int, c: int, h: int, w: int)
    requires 0 <= r < h && 0 <= c < w
    ensures 0 <= r * w + c < h * w
    ensures 0 <= r * w && (r + 1) * w <= h * w
  {
    MulNonneg(r, w);
    MulMono(r + 1, h, w);
  }

  lemma DivModUnique(n: int, q: int, r: int, w: int)
    requires w > 0 && 0 <= r < w && n == q * w + r
    ensures n / w == q && n % w == r
  {
    var q', r' := n / w, n % w;
    assert n == q' * w + r';
    if q' < q {
      MulMono(q' + 1, q, w);
      assert false;
    } else if q < q' {
      MulMono(q + 1, q', w);
      assert false;
    }
  }

  /** Any cell number below `h * w` splits into a row below `h` and a column below `w`. */
  lemma CellSplit(n: int, h: int, w: int)
    requires w > 0 && 0 <= n < h * w
    ensures 0 <= n / w < h && 0 <= n % w < w
    ensures n == (n / w) * w + n % w
  {
    var q := n / w;
    if q >= h {
      MulMono(h, q, w);
      assert false;
    }
    if q < 0 {
      MulMono(q, -1, w);
      assert false;
    }
  }

  /** The row and column of cell number `n` in a matrix of `h` rows of `w`. */
  lemma Split(n: int, h: int, w: int) returns (q: int, r: int)
    requires w > 0 && 0 <= n < h * w
    ensures 0 <= q < h && 0 <= r < w && n == q * w + r
  {
    CellSplit(n, h, w);
    q, r := n / w, n % w;
  }

  /** A multiple of `w` in `[q * w, q * w + w)` is `q * w`. */
  lemma RowUnique(q: int, q': int, w: int)
    requires w > 0 && q * w <= q' * w < q * w + w
    ensures q' == q
  {
    if q' > q {
      MulMono(q + 1, q', w);
      assert false;
    } else if q' < q {
      MulMono(q', q - 1, w);
      assert false;
    }
  }

  /** Python's `-(-n // w)`: the least number of rows of width `w` holding `n` cells. */
  function CeilDiv(n: nat, w: nat): (h: nat)
    requires w > 0
    ensures n <= h * w < n + w
    ensures (n == 0) == (h == 0)
    decreases n
  {
    if n == 0 then 0
    else if n <= w then 1
    else
      var h := CeilDiv(n - w, w);
      assert (h + 1) * w == h * w + w;
      h + 1
  }

  /** How many fillers make `n` a multiple of `w`. */
  function PadCount(n: nat, w: nat): (k: nat)
    requires w > 0
    ensures k < w
    ensures n + k == CeilDiv(n, w) * w
    ensures (n + k) % w == 0
  {
    var k := CeilDiv(n, w) * w - n;
    DivModUnique(n + k, CeilDiv(n, w), 0, w);
    k
  }

  /** No length strictly between `n` and `n + PadCount(n, w)` is a multiple of `w`. */
  lemma PadCountMinimal(n: nat, w: nat, j: nat)
    requires w > 0 && j < PadCount(n, w)
    ensures (n + j) % w != 0
  {
    var h := CeilDiv(n, w);
    if (n + j) % w == 0 {
      var q := (n + j) / w;
      assert n + j == q * w;
      assert (h - 1) * w == h * w - w;
      if q >= h {
        MulMono(h, q, w);
      } else {
        MulMono(q, h - 1, w);
      }
      assert false;
    }
  }

  /** For `h * w` cells the row count is exactly `h` and nothing is padded. */
  lemma ExactDiv(h: nat, w: nat)
    requires w > 0
    ensures (h * w) / w == h && (h * w) % w == 0
    ensures CeilDiv(h * w, w) == h
    ensures PadCount(h * w, w) == 0
  {
    DivModUnique(h * w, h, 0, w);
    MulNonneg(h, w);
    RowUnique(h, CeilDiv(h * w, w), w);
  }

  /** Python's `n // w` by repeated subtraction: the number of whole rows of `w` in `n` cells. */
  function Quotient(n: nat, w: nat): (q: nat)
    requires w > 0
    ensures q * w <= n < q * w + w
    ensures w * q <= n
    decreases n
  {
    if n < w then 0
    else
      var q := Quotient(n - w, w);
      assert (q + 1) * w == q * w + w;
      q + 1
  }

  lemma QuotientIsDiv(n: nat, w: nat)
    requires w > 0
    ensures Quotient(n, w) == n / w
  {
    var q := Quotient(n, w);
    DivModUnique(n, q, n - q * w, w);
  }

  lemma QuotientExact(h: nat, w: nat)
    requires w > 0
    ensures Quotient(h * w, w) == h && Quotient(w * h, w) == h
  {
    assert w * h == h * w;
    RowUnique(Quotient(h * w, w), h, w);
  }

  /** `n // w` whole rows of `w` fit in `n` cells. */
  lemma DivBound(n: nat, w: nat)
    requires w > 0
    ensures n / w >= 0 && (n / w) * w <= n && w * (n / w) <= n
  {
    assert n == (n / w) * w + n % w;
    if n / w < 0 {
      MulMono(n / w, -1, w);
      assert false;
    }
  }
}
