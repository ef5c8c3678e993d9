/**
 * Single columnar transposition: spaces become `~`, the text is padded with `@` to whole rows of the
 * keyword's length, and the columns are read out in the keyword's sorted order; decryption refills the grid.
 */
module Transposition {

  import opened Wrappers
  import opened Seqs
  import opened Arith
  import opened Permutations
  import opened KeyOrder

  /** The `while` loop of `encrypt_transposition`: append `@` until the length is a multiple of `width`. */
  method Pad(text: string, width: nat) returns (padded: string)
    requires width > 0
    ensures padded == text + Repeat('@', PadCount(|text|, width))
  {
    padded := text;
    ghost var added := 0;
    while |padded| % width != 0
      invariant added <= PadCount(|text|, width)
      invariant padded == text + Repeat('@', added)
      decreases PadCount(|text|, width) - added
    {
      assert Repeat('@', added + 1) == Repeat('@', added) + ['@'];
      padded := padded + "@";
      added := added + 1;
    }
    if added < PadCount(|text|, width) {
      PadCountMinimal(|text|, width, added);
    }
  }

  /** The text the matrix is built from: spaces replaced by `~`, then padded with `@`. */
  function Padded(text: string, width: nat): string
    requires width > 0
  {
    var u := ReplaceChar(text, ' ', '~');
    u + Repeat('@', PadCount(|u|, width))
  }

  /** `num_rows`: the padded length divided by the keyword length. */
  function RowCount(text: string, width: nat): nat
    requires width > 0
  {
    CeilDiv(|text|, width)
  }

  /** The padded length is a multiple of the width that holds the text with fewer than `width` to spare. */
  lemma PaddedLength(text: string, width: nat)
    requires width > 0
    ensures |Padded(text, width)| == RowCount(text, width) * width
    ensures |Padded(text, width)| % width == 0
    ensures |text| <= |Padded(text, width)| < |text| + width
  {
    ExactDiv(RowCount(text, width), width);
  }

  /** It is the least such multiple: no length between the text's and the padded one is a multiple. */
  lemma PaddedMinimal(text: string, width: nat)
    requires width > 0
    ensures forall n :: |text| <= n < |Padded(text, width)| ==> n % width != 0
  {
    forall n | |text| <= n < |Padded(text, width)| ensures n % width != 0 {
      PadCountMinimal(|text|, width, n - |text|);
    }
  }

  /** The text (spaces replaced) comes first, every added character is `@`, and no space is left. */
  lemma PaddedContent(text: string, width: nat)
    requires width > 0
    ensures Padded(text, width)[..|text|] == ReplaceChar(text, ' ', '~')
    ensures forall i :: |text| <= i < |Padded(text, width)| ==> Padded(text, width)[i] == '@'
    ensures ' ' !in Padded(text, width)
  {
    assert Padded(text, width)[..|text|] == ReplaceChar(text, ' ', '~');
  }

  /** `"".join(row[i] for row in matrix)`: column `i` read top to bottom. */
  function ColumnOf(matrix: seq<seq<char>>, i: nat): string
    requires forall r :: 0 <= r < |matrix| ==> i < |matrix[r]|
  {
    seq(|matrix|, r requires 0 <= r < |matrix| => matrix[r][i])
  }

  /** The columns of `matrix` in the given order. */
  function Columns(matrix: seq<seq<char>>, order: seq<nat>, width: nat): (cols: seq<string>)
    requires Rectangular(matrix, width)
    requires forall k :: 0 <= k < |order| ==> order[k] < width
    ensures |cols| == |order| && Rectangular(cols, |matrix|)
    ensures forall k, r :: 0 <= k < |order| && 0 <= r < |matrix| ==> cols[k][r] == matrix[r][order[k]]
  {
    seq(|order|, k requires 0 <= k < |order| => ColumnOf(matrix, order[k]))
  }

  /** `"".join("".join(row[i] for row in matrix) for i in order)`. */
  function ReadColumns(matrix: seq<seq<char>>, order: seq<nat>, width: nat): string
    requires Rectangular(matrix, width)
    requires forall k :: 0 <= k < |order| ==> order[k] < width
  {
    Flatten(Columns(matrix, order, width))
  }

  /** The read-out holds one column of `|matrix|` characters per entry of the order. */
  lemma ReadColumnsLength(matrix: seq<seq<char>>, order: seq<nat>, width: nat)
    requires Rectangular(matrix, width)
    requires forall k :: 0 <= k < |order| ==> order[k] < width
    ensures |ReadColumns(matrix, order, width)| == |order| * |matrix|
  {
    FlattenLength(Columns(matrix, order, width), |matrix|);
  }

  /** `encrypt_transposition` for a non-empty keyword. */
  function Encipher(text: string, keyword: string): string
    requires |keyword| > 0
  {
    var width := |keyword|;
    PaddedLength(text, width);
    OrderRanks(keyword);
    ReadColumns(Chunks(Padded(text, width), RowCount(text, width), width), PermutationOrder(keyword), width)
  }

  /** `encrypt_transposition`: an empty keyword makes `len(text) % key_length` divide by zero. */
  method EncryptTransposition(text: string, keyword: string) returns (r: Result<string>)
    ensures keyword == [] ==> r == Err(DivisionByZero)
    ensures keyword != [] ==> r == Ok(Encipher(text, keyword))
  {
    if |keyword| == 0 {
      return Err(DivisionByZero);
    }
    var t := ReplaceChar(text, ' ', '~');
    var keyLength := |keyword|;
    var order := PermutationOrder(keyword);
    t := Pad(t, keyLength);
    PaddedLength(text, keyLength);
    ExactDiv(RowCount(text, keyLength), keyLength);
    var numRows := |t| / keyLength;
    var matrix := Chunks(t, numRows, keyLength);
    OrderRanks(keyword);
    r := Ok(ReadColumns(matrix, order, keyLength));
  }

  /** The ciphertext has the padded length. */
  lemma EncipherLength(text: string, keyword: string)
    requires |keyword| > 0
    ensures |Encipher(text, keyword)| == |Padded(text, |keyword|)| == RowCount(text, |keyword|) * |keyword|
  {
    var width := |keyword|;
    PaddedLength(text, width);
    OrderRanks(keyword);
    ReadColumnsLength(Chunks(Padded(text, width), RowCount(text, width), width), PermutationOrder(keyword), width);
  }

  /** Cut into runs of `num_rows`, the ciphertext is the padded matrix's columns in the keyword's order. */
  lemma EncipherRuns(text: string, keyword: string)
    requires |keyword| > 0
    ensures |Padded(text, |keyword|)| == RowCount(text, |keyword|) * |keyword|
    ensures |Encipher(text, keyword)| == |keyword| * RowCount(text, |keyword|)
    ensures Chunks(Encipher(text, keyword), |keyword|, RowCount(text, |keyword|)) ==
            Columns(Chunks(Padded(text, |keyword|), RowCount(text, |keyword|), |keyword|),
                    PermutationOrder(keyword), |keyword|)
  {
    var width, rows := |keyword|, RowCount(text, |keyword|);
    PaddedLength(text, width);
    var cols := Columns(Chunks(Padded(text, width), rows, width), PermutationOrder(keyword), width);
    ChunksOfFlatten(cols, rows);
  }

  /** Character `k * rows + r` of the ciphertext is `padded[r * L + order[k]]`. */
  lemma EncipherAt(text: string, keyword: string, k: nat, r: nat)
    requires |keyword| > 0 && k < |keyword| && r < RowCount(text, |keyword|)
    ensures k * RowCount(text, |keyword|) + r < |Encipher(text, keyword)|
    ensures r * |keyword| + PermutationOrder(keyword)[k] < |Padded(text, |keyword|)|
    ensures Encipher(text, keyword)[k * RowCount(text, |keyword|) + r] ==
            Padded(text, |keyword|)[r * |keyword| + PermutationOrder(keyword)[k]]
  {
    var width, rows := |keyword|, RowCount(text, |keyword|);
    EncipherRuns(text, keyword);
    ChunksAt(Encipher(text, keyword), width, rows, k, r);
    ChunksAt(Padded(text, width), rows, width, r, PermutationOrder(keyword)[k]);
  }

  /** Reading columns brings in no character the matrix lacks. */
  lemma ReadColumnsAvoid(matrix: seq<seq<char>>, order: seq<nat>, width: nat, x: char)
    requires Rectangular(matrix, width)
    requires forall k :: 0 <= k < |order| ==> order[k] < width
    requires forall r, c :: 0 <= r < |matrix| && 0 <= c < width ==> matrix[r][c] != x
    ensures x !in ReadColumns(matrix, order, width)
  {
    var cols := Columns(matrix, order, width);
    forall k | 0 <= k < |order| ensures x !in cols[k] {
      assert forall r :: 0 <= r < |matrix| ==> cols[k][r] == matrix[r][order[k]];
    }
    FlattenAvoids(cols, x);
  }

  /** The ciphertext holds no space: every space was turned into `~` before the rearrangement. */
  lemma EncipherNoSpace(text: string, keyword: string)
    requires |keyword| > 0
    ensures ' ' !in Encipher(text, keyword)
  {
    var width, rows := |keyword|, RowCount(text, |keyword|);
    PaddedLength(text, width);
    PaddedContent(text, width);
    ChunksAvoid(Padded(text, width), rows, width, ' ');
    OrderRanks(keyword);
    ReadColumnsAvoid(Chunks(Padded(text, width), rows, width), PermutationOrder(keyword), width, ' ');
  }

  /** The grid whose column `c` is run number `rank[c]`. */
  function Regroup(runs: seq<string>, rank: seq<nat>, rows: nat): (g: seq<seq<char>>)
    requires |runs| == |rank| && Rectangular(runs, rows)
    requires forall c :: 0 <= c < |rank| ==> rank[c] < |rank|
    ensures |g| == rows && Rectangular(g, |rank|)
    ensures forall r, c :: 0 <= r < rows && 0 <= c < |rank| ==> g[r][c] == runs[rank[c]][r]
  {
    seq(rows, r requires 0 <= r < rows =>
      seq(|rank|, c requires 0 <= c < |rank| => runs[rank[c]][r]))
  }

  /** `num_rows` of `decrypt_transposition`. */
  function GridRows(ciphertext: string, keyword: string): (rows: nat)
    requires |keyword| > 0
    ensures |keyword| * rows <= |ciphertext|
  {
    Quotient(|ciphertext|, |keyword|)
  }

  /** The ciphertext cut into one run of `num_rows` characters per keyword position. */
  function Runs(ciphertext: string, keyword: string): (runs: seq<string>)
    requires |keyword| > 0
    ensures |runs| == |keyword| && Rectangular(runs, GridRows(ciphertext, keyword))
  {
    Chunks(ciphertext, |keyword|, GridRows(ciphertext, keyword))
  }

  /** The grid `decrypt_transposition` fills: column `c` receives run number `Rank(keyword)[c]`. */
  function Grid(ciphertext: string, keyword: string): (g: seq<seq<char>>)
    requires |keyword| > 0
    ensures |g| == GridRows(ciphertext, keyword) && Rectangular(g, |keyword|)
  {
    Regroup(Runs(ciphertext, keyword), Rank(keyword), GridRows(ciphertext, keyword))
  }

  /** Run `k` is the `k`-th stretch of `num_rows` ciphertext characters. */
  lemma RunsAt(ciphertext: string, keyword: string, k: nat, r: nat)
    requires |keyword| > 0 && k < |keyword| && r < GridRows(ciphertext, keyword)
    ensures k * GridRows(ciphertext, keyword) + r < |ciphertext|
    ensures Runs(ciphertext, keyword)[k][r] == ciphertext[k * GridRows(ciphertext, keyword) + r]
  {
    ChunksAt(ciphertext, |keyword|, GridRows(ciphertext, keyword), k, r);
  }

  /** Every cell is written exactly once: cell `(r, order[k])` takes row `r` of run `k`. */
  lemma GridAt(ciphertext: string, keyword: string, k: nat, r: nat)
    requires |keyword| > 0 && k < |keyword| && r < GridRows(ciphertext, keyword)
    ensures PermutationOrder(keyword)[k] < |keyword|
    ensures Grid(ciphertext, keyword)[r][PermutationOrder(keyword)[k]] == Runs(ciphertext, keyword)[k][r]
  {
    RankOfOrder(keyword, k);
  }

  /** `decrypt_transposition` for a non-empty keyword: the grid row by row, trailing `@` dropped, `~` back to spaces. */
  function Decipher(ciphertext: string, keyword: string): string
    requires |keyword| > 0
  {
    ReplaceChar(RStrip(Flatten(Grid(ciphertext, keyword)), '@'), '~', ' ')
  }

  /** The inner loop of `decrypt_transposition`: column `i` takes the next `Length0` characters from `col` on. */
  method FillColumn(matrix: array2<char>, ciphertext: string, i: nat, col: nat) returns (next: nat)
    requires i < matrix.Length1 && col + matrix.Length0 <= |ciphertext|
    modifies matrix
    ensures next == col + matrix.Length0
    ensures forall r :: 0 <= r < matrix.Length0 ==> matrix[r, i] == ciphertext[col + r]
    ensures forall r, c :: 0 <= r < matrix.Length0 && 0 <= c < matrix.Length1 && c != i ==>
              matrix[r, c] == old(matrix[r, c])
  {
    next := col;
    for row := 0 to matrix.Length0
      invariant next == col + row
      invariant forall r :: 0 <= r < row ==> matrix[r, i] == ciphertext[col + r]
      invariant forall r, c :: 0 <= r < matrix.Length0 && 0 <= c < matrix.Length1 && c != i ==>
                  matrix[r, c] == old(matrix[r, c])
    {
      matrix[row, i] := ciphertext[next];
      next := next + 1;
    }
  }

  /** The outer loop of `decrypt_transposition`: column `order[k]` receives the `k`-th run. */
  method FillGrid(matrix: array2<char>, ciphertext: string, keyword: string)
    requires |keyword| > 0
    requires matrix.Length0 == GridRows(ciphertext, keyword) && matrix.Length1 == |keyword|
    modifies matrix
    ensures forall k, r :: 0 <= k < |keyword| && 0 <= r < matrix.Length0 ==>
              matrix[r, PermutationOrder(keyword)[k]] == Runs(ciphertext, keyword)[k][r]
  {
    var order := PermutationOrder(keyword);
    var numRows := matrix.Length0;
    ghost var runs := Runs(ciphertext, keyword);
    var col: nat := 0;
    for k := 0 to |keyword|
      invariant col == k * numRows
      invariant forall j, r :: 0 <= j < k && 0 <= r < numRows ==> matrix[r, order[j]] == runs[j][r]
    {
      MulMono(k + 1, |keyword|, numRows);
      assert (k + 1) * numRows == col + numRows;
      var i := order[k];
      forall r | 0 <= r < numRows ensures runs[k][r] == ciphertext[col + r] {
        ChunksAt(ciphertext, |keyword|, numRows, k, r);
      }
      forall j | 0 <= j < k ensures order[j] != i {
        RankOfOrder(keyword, j);
        RankOfOrder(keyword, k);
      }
      col := FillColumn(matrix, ciphertext, i, col);
    }
  }

  /** A grid holding run `k` in column `order[k]` is the grid `decrypt_transposition` builds. */
  lemma GridOfColumns(ciphertext: string, keyword: string, g: seq<seq<char>>)
    requires |keyword| > 0 && |g| == GridRows(ciphertext, keyword) && Rectangular(g, |keyword|)
    requires forall k, r :: 0 <= k < |keyword| && 0 <= r < |g| ==>
               g[r][PermutationOrder(keyword)[k]] == Runs(ciphertext, keyword)[k][r]
    ensures g == Grid(ciphertext, keyword)
  {
    var grid := Grid(ciphertext, keyword);
    forall r | 0 <= r < |g| ensures g[r] == grid[r] {
      forall c | 0 <= c < |keyword| ensures g[r][c] == grid[r][c] {
        OrderOfRank(keyword, c);
      }
    }
  }

  /** `decrypt_transposition`: an empty keyword makes `len(ciphertext) // key_length` divide by zero. */
  method DecryptTransposition(ciphertext: string, keyword: string) returns (r: Result<string>)
    ensures keyword == [] ==> r == Err(DivisionByZero)
    ensures keyword != [] ==> r == Ok(Decipher(ciphertext, keyword))
  {
    if |keyword| == 0 {
      return Err(DivisionByZero);
    }
    var keyLength := |keyword|;
    var numRows := |ciphertext| / keyLength;
    QuotientIsDiv(|ciphertext|, keyLength);
    var matrix := new char[numRows, keyLength]((_, _) => ' ');
    FillGrid(matrix, ciphertext, keyword);
    var grid := RowsOf(matrix);
    GridOfColumns(ciphertext, keyword, grid);
    r := Ok(ReplaceChar(RStrip(Flatten(grid), '@'), '~', ' '));
  }

  /** The runs of a ciphertext are the padded matrix's columns in the keyword's order. */
  lemma RunsOfEncipher(text: string, keyword: string)
    requires |keyword| > 0
    ensures |Padded(text, |keyword|)| == RowCount(text, |keyword|) * |keyword|
    ensures GridRows(Encipher(text, keyword), keyword) == RowCount(text, |keyword|)
    ensures Runs(Encipher(text, keyword), keyword) ==
            Columns(Chunks(Padded(text, |keyword|), RowCount(text, |keyword|), |keyword|), PermutationOrder(keyword), |keyword|)
  {
    var width, rows := |keyword|, RowCount(text, |keyword|);
    EncipherRuns(text, keyword);
    QuotientExact(rows, width);
  }

  /** Putting the columns read in the keyword's order back by their ranks gives the matrix back. */
  lemma RegroupColumns(m: seq<seq<char>>, keyword: string)
    requires |keyword| > 0 && Rectangular(m, |keyword|)
    ensures Regroup(Columns(m, PermutationOrder(keyword), |keyword|), Rank(keyword), |m|) == m
  {
    OrderRanks(keyword);
    var g := Regroup(Columns(m, PermutationOrder(keyword), |keyword|), Rank(keyword), |m|);
    forall r | 0 <= r < |m| ensures g[r] == m[r] {
      forall c | 0 <= c < |keyword| ensures g[r][c] == m[r][c] {
        OrderOfRank(keyword, c);
      }
    }
  }

  /** Refilling the grid from the ciphertext gives back the padded text's rows. */
  lemma GridOfEncipher(text: string, keyword: string)
    requires |keyword| > 0
    ensures |Padded(text, |keyword|)| == RowCount(text, |keyword|) * |keyword|
    ensures Grid(Encipher(text, keyword), keyword) ==
            Chunks(Padded(text, |keyword|), RowCount(text, |keyword|), |keyword|)
  {
    RunsOfEncipher(text, keyword);
    RegroupColumns(Chunks(Padded(text, |keyword|), RowCount(text, |keyword|), |keyword|), keyword);
  }

  /** Decryption undoes encryption when the text has no `~` and does not end in `@`. */
  lemma DecryptEncrypt(text: string, keyword: string)
    requires |keyword| > 0
    requires '~' !in text && (text == [] || text[|text| - 1] != '@')
    ensures Decipher(Encipher(text, keyword), keyword) == text
  {
    var width := |keyword|;
    GridOfEncipher(text, keyword);
    FlattenOfChunks(Padded(text, width), RowCount(text, width), width);
    var u := ReplaceChar(text, ' ', '~');
    UnpadRoundTrip(text, '@', PadCount(|u|, width));
  }
}
