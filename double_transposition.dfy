/**
 * Double transposition: spaces become `~`, the text is written row by row into a matrix whose last
 * row is padded with `^`, the columns are permuted by the first keyword and the rows by the second.
 */
module DoubleTransposition {

  import opened Wrappers
  import opened Seqs
  import opened Arith
  import opened Sorting
  import opened Permutations
  import opened KeyOrder

  /** Python's `s[a:b]` for `0 <= a <= b`: both ends clamped to the length. */
  function Slice(s: string, a: nat, b: nat): (r: string)
    requires a <= b
    ensures |r| <= b - a
  {
    var lo := if a < |s| then a else |s|;
    var hi := if b < |s| then b else |s|;
    s[lo..hi]
  }

  /** `[list(text[i * cols:(i + 1) * cols]) for i in range(rows)]`. */
  function TextRows(text: string, rows: nat, cols: nat): (m: seq<string>)
    ensures |m| == rows
  {
    seq(rows, i requires 0 <= i < rows => (MulMono(i, i + 1, cols); Slice(text, i * cols, (i + 1) * cols)))
  }

  /** A row extended with `fill` up to `cols` characters. */
  function PadTo(row: string, cols: nat, fill: char): string {
    if |row| < cols then row + Repeat(fill, cols - |row|) else row
  }

  /** `create_matrix`: the rows cut from the text, the last one padded; with no rows `matrix[-1]` fails. */
  function MatrixOf(text: string, rows: nat, cols: nat, fill: char): Result<seq<string>> {
    if rows == 0 then Err(IndexOutOfRange)
    else
      var m := TextRows(text, rows, cols);
      Ok(m[..rows - 1] + [PadTo(m[rows - 1], cols, fill)])
  }

  /** `create_matrix(text, rows, cols, fill_char)`. */
  method CreateMatrix(text: string, rows: nat, cols: nat, fill: char) returns (r: Result<seq<string>>)
    ensures r == MatrixOf(text, rows, cols, fill)
  {
    var matrix := TextRows(text, rows, cols);
    if rows == 0 {
      return Err(IndexOutOfRange);
    }
    var row := matrix[rows - 1];
    var last := row;
    while |last| < cols
      invariant |last| >= |row| && last == row + Repeat(fill, |last| - |row|)
      invariant |last| <= cols || last == row
      decreases cols - |last|
    {
      assert Repeat(fill, |last| + 1 - |row|) == Repeat(fill, |last| - |row|) + [fill];
      last := last + [fill];
    }
    r := Ok(matrix[..rows - 1] + [last]);
  }

  /** The text followed by the `^` that complete its last row. */
  function PaddedText(text: string, cols: nat): string
    requires cols > 0
  {
    text + Repeat('^', PadCount(|text|, cols))
  }

  /** A stretch inside the text is unaffected by padding. */
  lemma SliceOfPadded(text: string, fill: char, n: nat, a: nat, b: nat)
    requires a <= b <= |text|
    ensures (text + Repeat(fill, n))[a..b] == text[a..b] == Slice(text, a, b)
  {
  }

  /** The stretch that runs past the end of the text is its tail followed by padding. */
  lemma LastOfPadded(text: string, fill: char, a: nat, w: nat)
    requires a <= |text| <= a + w
    ensures (text + Repeat(fill, a + w - |text|))[a..a + w] == PadTo(Slice(text, a, a + w), w, fill)
  {
    var p := text + Repeat(fill, a + w - |text|);
    var t := Slice(text, a, a + w);
    assert t == text[a..];
    if |t| < w {
      assert p[a..a + w] == t + Repeat(fill, w - |t|);
    } else {
      assert p[a..a + w] == t;
    }
  }

  /** Row `i` of the matrix built from `rows * cols == |text| + pad` cells is stretch `i` of the padded text. */
  lemma MatrixRow(text: string, rows: nat, cols: nat, pad: nat, i: nat)
    requires cols > 0 && 0 < rows && rows * cols == |text| + pad && pad < cols && i < rows
    ensures MatrixOf(text, rows, cols, '^').Ok?
    ensures 0 <= i * cols <= (i + 1) * cols <= rows * cols
    ensures MatrixOf(text, rows, cols, '^').value[i] == (text + Repeat('^', pad))[i * cols..(i + 1) * cols]
  {
    ChunkBounds(i, rows, cols);
    var m := TextRows(text, rows, cols);
    var b := (rows - 1) * cols;
    assert b + cols == rows * cols;
    if i < rows - 1 {
      MulMono(i + 1, rows - 1, cols);
      assert MatrixOf(text, rows, cols, '^').value[i] == m[i];
      SliceOfPadded(text, '^', pad, i * cols, (i + 1) * cols);
    } else {
      LastOfPadded(text, '^', b, cols);
    }
  }

  /**
   * With `rows = -(-len(text) // cols)` and a non-empty text, `create_matrix` gives `rows` rows of
   * `cols` characters holding the text followed by the padding.
   */
  lemma MatrixOfText(text: string, cols: nat)
    requires cols > 0 && |text| > 0
    ensures MatrixOf(text, CeilDiv(|text|, cols), cols, '^') ==
            Ok(Chunks(PaddedText(text, cols), CeilDiv(|text|, cols), cols))
  {
    var rows := CeilDiv(|text|, cols);
    var pad := PadCount(|text|, cols);
    var c := Chunks(PaddedText(text, cols), rows, cols);
    var out := MatrixOf(text, rows, cols, '^').value;
    assert |out| == rows;
    forall i | 0 <= i < rows ensures out[i] == c[i] {
      MatrixRow(text, rows, cols, pad, i);
      assert c[i] == PaddedText(text, cols)[i * cols..(i + 1) * cols];
    }
    assert out == c;
  }

  /** `[[row[i] for i in idx] for row in matrix]`. */
  function SelectColumns(matrix: seq<string>, idx: seq<nat>, width: nat): (m: seq<string>)
    requires Rectangular(matrix, width)
    requires forall k :: 0 <= k < |idx| ==> idx[k] < width
    ensures |m| == |matrix| && Rectangular(m, |idx|)
    ensures forall r, k :: 0 <= r < |matrix| && 0 <= k < |idx| ==> m[r][k] == matrix[r][idx[k]]
  {
    seq(|matrix|, r requires 0 <= r < |matrix| => seq(|idx|, k requires 0 <= k < |idx| => matrix[r][idx[k]]))
  }

  /** `[matrix[i] for i in idx]`. */
  function SelectRows(matrix: seq<string>, idx: seq<nat>): (m: seq<string>)
    requires forall i :: 0 <= i < |idx| ==> idx[i] < |matrix|
    ensures |m| == |idx|
    ensures forall i :: 0 <= i < |idx| ==> m[i] == matrix[idx[i]]
  {
    seq(|idx|, i requires 0 <= i < |idx| => matrix[idx[i]])
  }

  /** The row sort key `lambda x: key2_order[x % len(key2_order)]`, total on all naturals. */
  function RowKey(order2: seq<nat>): nat -> int {
    (x: nat) => if |order2| > 0 then order2[x % |order2|] as int else 0
  }

  /** `sorted_row_indices`. */
  function RowOrder(key2: string, rows: nat): (sri: seq<nat>)
    ensures |sri| == rows && forall i :: 0 <= i < rows ==> sri[i] < rows
  {
    SortedRangeSpec(rows, RowKey(PermutationOrder(key2)));
    SortBy(Range(rows), RowKey(PermutationOrder(key2)))
  }

  /** The row order lists every row once. */
  lemma RowOrderPermutation(key2: string, rows: nat)
    ensures IsPermutation(RowOrder(key2, rows), rows) && Injective(RowOrder(key2, rows), rows)
  {
    PermutationFacts(RowOrder(key2, rows), rows);
  }

  /**
   * The row order lists every row once, sorted by `key2_order[x % len(key2)]`, rows with the same key
   * in ascending order.
   */
  lemma RowOrderSpec(key2: string, rows: nat)
    requires |key2| > 0
    ensures IsPermutation(RowOrder(key2, rows), rows) && Injective(RowOrder(key2, rows), rows)
    ensures forall a, b :: 0 <= a < b < rows ==>
              PermutationOrder(key2)[RowOrder(key2, rows)[a] % |key2|] <= PermutationOrder(key2)[RowOrder(key2, rows)[b] % |key2|]
    ensures forall a, b :: 0 <= a < b < rows &&
              PermutationOrder(key2)[RowOrder(key2, rows)[a] % |key2|] == PermutationOrder(key2)[RowOrder(key2, rows)[b] % |key2|]
              ==> RowOrder(key2, rows)[a] < RowOrder(key2, rows)[b]
  {
    var key := RowKey(PermutationOrder(key2));
    var sri := RowOrder(key2, rows);
    SortedRangeSpec(rows, key);
    forall a, b | 0 <= a < b < rows
      ensures PermutationOrder(key2)[sri[a] % |key2|] <= PermutationOrder(key2)[sri[b] % |key2|]
    {
      assert key(sri[a]) <= key(sri[b]);
    }
    forall a, b | 0 <= a < b < rows && PermutationOrder(key2)[sri[a] % |key2|] == PermutationOrder(key2)[sri[b] % |key2|]
      ensures sri[a] < sri[b]
    {
      assert key(sri[a]) == key(sri[b]);
    }
  }

  /** Stage 1 then stage 2 of `encrypt_double_transposition`: columns by `key1`, then rows by `key2`. */
  function Scramble(matrix: seq<string>, key1: string, key2: string): (m: seq<string>)
    requires |key1| > 0 && Rectangular(matrix, |key1|)
    ensures |m| == |matrix| && Rectangular(m, |key1|)
  {
    SelectRows(SelectColumns(matrix, PermutationOrder(key1), |key1|), RowOrder(key2, |matrix|))
  }

  /**
   * `encrypt_double_transposition`: an empty first key divides by zero in the row count, an empty
   * text leaves no row for `matrix[-1]`, and an empty second key divides by zero in the row key.
   */
  function Encipher(text: string, key1: string, key2: string): (r: Result<string>)
    ensures key1 == [] ==> r == Err(DivisionByZero)
    ensures key1 != [] && text == [] ==> r == Err(IndexOutOfRange)
    ensures key1 != [] && text != [] && key2 == [] ==> r == Err(DivisionByZero)
    ensures r.Ok? <==> key1 != [] && text != [] && key2 != []
  {
    if |key1| == 0 then Err(DivisionByZero)
    else
      var u := ReplaceChar(text, ' ', '~');
      var rows := CeilDiv(|u|, |key1|);
      if rows == 0 then Err(IndexOutOfRange)
      else if |key2| == 0 then Err(DivisionByZero)
      else Ok(Flatten(Scramble(Chunks(PaddedText(u, |key1|), rows, |key1|), key1, key2)))
  }

  /** `encrypt_double_transposition(text, key1, key2)`. */
  method EncryptDoubleTransposition(text: string, key1: string, key2: string) returns (r: Result<string>)
    ensures r == Encipher(text, key1, key2)
  {
    var t := ReplaceChar(text, ' ', '~');
    var order1 := PermutationOrder(key1);
    var order2 := PermutationOrder(key2);
    if |key1| == 0 {
      return Err(DivisionByZero);
    }
    var cols := |key1|;
    var rows := CeilDiv(|t|, cols);
    var created := CreateMatrix(t, rows, cols, '^');
    if created.Err? {
      return Err(created.error);
    }
    MatrixOfText(t, cols);
    var matrix := created.value;
    var transposed := SelectColumns(matrix, order1, cols);
    if |order2| == 0 {
      return Err(DivisionByZero);
    }
    var sortedRows := SortBy(Range(rows), RowKey(order2));
    assert sortedRows == RowOrder(key2, rows);
    var last := SelectRows(transposed, sortedRows);
    r := Ok(Flatten(last));
  }

  /** The ciphertext has `rows * cols` characters, `rows` being the text length divided by `cols`, rounded up. */
  lemma EncipherLength(text: string, key1: string, key2: string)
    requires Encipher(text, key1, key2).Ok?
    ensures |Encipher(text, key1, key2).value| == CeilDiv(|text|, |key1|) * |key1|
  {
    var u := ReplaceChar(text, ' ', '~');
    var rows := CeilDiv(|u|, |key1|);
    FlattenLength(Scramble(Chunks(PaddedText(u, |key1|), rows, |key1|), key1, key2), |key1|);
  }

  /** Permuting the cells of every row keeps each row's characters. */
  lemma SelectColumnsMultiset(matrix: seq<string>, idx: seq<nat>, width: nat)
    requires Rectangular(matrix, width) && Injective(idx, width)
    ensures forall r :: 0 <= r < |matrix| ==> multiset(SelectColumns(matrix, idx, width)[r]) == multiset(matrix[r])
  {
    var m := SelectColumns(matrix, idx, width);
    forall r | 0 <= r < |matrix| ensures multiset(m[r]) == multiset(matrix[r]) {
      PermutedMultiset(matrix[r], m[r], idx);
    }
  }

  /** The ciphertext is a rearrangement of the padded, space-replaced text. */
  lemma EncipherMultiset(text: string, key1: string, key2: string)
    requires Encipher(text, key1, key2).Ok?
    ensures multiset(Encipher(text, key1, key2).value) ==
            multiset(PaddedText(ReplaceChar(text, ' ', '~'), |key1|))
  {
    var cols := |key1|;
    var u := ReplaceChar(text, ' ', '~');
    var rows := CeilDiv(|u|, cols);
    var matrix := Chunks(PaddedText(u, cols), rows, cols);
    var order1 := PermutationOrder(key1);
    var transposed := SelectColumns(matrix, order1, cols);
    var sri := RowOrder(key2, rows);
    var last := SelectRows(transposed, sri);
    PermutationOrderSpec(key1);
    SelectColumnsMultiset(matrix, order1, cols);
    FlattenRowwiseMultiset(transposed, matrix);
    RowOrderSpec(key2, rows);
    PermutedMultiset(transposed, last, sri);
    FlattenReorderedMultiset(last, transposed);
    FlattenOfChunks(PaddedText(u, cols), rows, cols);
  }

  /** `reverse_row_order` read backwards: row `r` of the refilled matrix is ciphertext row `InverseOrder(sri)[r]`. */
  function PlaceRows(runs: seq<string>, sri: seq<nat>): (m: seq<string>)
    requires IsPermutation(sri, |runs|)
    ensures |m| == |sri|
  {
    PermutationFacts(InverseOrder(sri), |sri|);
    PermutationFacts(sri, |runs|);
    SelectRows(runs, InverseOrder(sri))
  }

  /** `decrypted_matrix`: the refilled rows with the columns put back by `sorted(range(cols), key=key1_order)`. */
  function Unscramble(runs: seq<string>, key1: string, key2: string): (m: seq<string>)
    requires |key1| > 0 && |key2| > 0 && Rectangular(runs, |key1|)
    ensures |m| == |runs| && Rectangular(m, |key1|)
  {
    RowOrderSpec(key2, |runs|);
    var placed := PlaceRows(runs, RowOrder(key2, |runs|));
    assert Rectangular(placed, |key1|) by {
      PermutationFacts(InverseOrder(RowOrder(key2, |runs|)), |runs|);
    }
    SelectColumns(placed, Rank(key1), |key1|)
  }

  /** `.rstrip("^").replace("~", " ")`. */
  function Unpad(s: string): string {
    ReplaceChar(RStrip(s, '^'), '~', ' ')
  }

  /**
   * `decrypt_double_transposition`: an empty first key divides by zero; an empty ciphertext gives the
   * empty text; an empty second key divides by zero in the row key; a ciphertext that does not fill
   * whole rows runs past its end while the matrix is refilled.
   */
  function Decipher(ciphertext: string, key1: string, key2: string): Result<string> {
    if |key1| == 0 then Err(DivisionByZero)
    else
      var rows := CeilDiv(|ciphertext|, |key1|);
      if rows == 0 then Ok([])
      else if |key2| == 0 then Err(DivisionByZero)
      else if |ciphertext| < rows * |key1| then Err(IndexOutOfRange)
      else Ok(Unpad(Flatten(Unscramble(Chunks(ciphertext, rows, |key1|), key1, key2))))
  }

  /** One pass of the inner loop: row `row` takes the characters from `index` on, unless the text runs out. */
  method FillRow(matrix: array2<char>, ciphertext: string, row: nat, index: nat) returns (next: nat, ok: bool)
    requires row < matrix.Length0 && index <= |ciphertext|
    modifies matrix
    ensures ok <==> index + matrix.Length1 <= |ciphertext|
    ensures ok ==> next == index + matrix.Length1
    ensures ok ==> forall j :: 0 <= j < matrix.Length1 ==> matrix[row, j] == ciphertext[index + j]
    ensures forall r, c :: 0 <= r < matrix.Length0 && 0 <= c < matrix.Length1 && r != row ==>
              matrix[r, c] == old(matrix[r, c])
  {
    next := index;
    for j := 0 to matrix.Length1
      invariant next == index + j && next <= |ciphertext|
      invariant forall c :: 0 <= c < j ==> index + c < |ciphertext| && matrix[row, c] == ciphertext[index + c]
      invariant forall r, c :: 0 <= r < matrix.Length0 && 0 <= c < matrix.Length1 && r != row ==>
                  matrix[r, c] == old(matrix[r, c])
    {
      if next >= |ciphertext| {
        return next, false;
      }
      matrix[row, j] := ciphertext[next];
      next := next + 1;
    }
    ok := true;
  }

  /** The nested loops of `decrypt_double_transposition`: ciphertext row `i` goes to matrix row `sri[i]`. */
  method FillRows(matrix: array2<char>, ciphertext: string, sri: seq<nat>) returns (ok: bool)
    requires |sri| == matrix.Length0 && IsPermutation(sri, |sri|) && Injective(sri, |sri|)
    modifies matrix
    ensures ok <==> matrix.Length0 * matrix.Length1 <= |ciphertext|
    ensures ok ==> RowsOf(matrix) == PlaceRows(Chunks(ciphertext, matrix.Length0, matrix.Length1), sri)
  {
    var rows, cols := matrix.Length0, matrix.Length1;
    var index: nat := 0;
    ghost var runs: seq<string> := [];
    for i := 0 to rows
      invariant |runs| == i && Rectangular(runs, cols)
      invariant index <= |ciphertext| && Flatten(runs) == ciphertext[..index]
      invariant forall i', j :: 0 <= i' < i && 0 <= j < cols ==> matrix[sri[i'], j] == runs[i'][j]
    {
      FlattenLength(runs, cols);
      var next, rowOk := FillRow(matrix, ciphertext, sri[i], index);
      if !rowOk {
        MulMono(i + 1, rows, cols);
        return false;
      }
      ghost var run := ciphertext[index..next];
      forall i', j | 0 <= i' < i + 1 && 0 <= j < cols ensures matrix[sri[i'], j] == (runs + [run])[i'][j] {
        if i' < i {
          assert sri[i'] != sri[i];
        }
      }
      FlattenPrefixExtend(runs, ciphertext, index, next);
      runs := runs + [run];
      index := next;
    }
    FlattenLength(runs, cols);
    ChunksOfFlatten(runs, cols);
    ChunksPrefix(ciphertext, rows, cols, index);
    ok := true;
    var filled := RowsOf(matrix);
    forall i, j | 0 <= i < rows && 0 <= j < cols ensures filled[sri[i]][j] == runs[i][j] {
      assert filled[sri[i]][j] == matrix[sri[i], j];
    }
    FilledIsPlaced(filled, runs, sri, cols);
  }

  /** A matrix whose row `sri[i]` is run `i` is the runs put in place. */
  lemma FilledIsPlaced(filled: seq<string>, runs: seq<string>, sri: seq<nat>, cols: nat)
    requires IsPermutation(sri, |runs|) && Injective(sri, |runs|) && |filled| == |runs|
    requires Rectangular(filled, cols) && Rectangular(runs, cols)
    requires forall i, j :: 0 <= i < |runs| && 0 <= j < cols ==> filled[sri[i]][j] == runs[i][j]
    ensures filled == PlaceRows(runs, sri)
  {
    var placed := PlaceRows(runs, sri);
    InverseOrderInverts(sri, |runs|);
    forall i | 0 <= i < |runs| ensures filled[i] == placed[i] {
      var k := InverseOrder(sri)[i];
      assert sri[k] == i && placed[i] == runs[k];
      assert forall j :: 0 <= j < cols ==> filled[i][j] == runs[k][j];
    }
  }

  /** With both keys and a ciphertext of whole rows, deciphering unscrambles its rows. */
  lemma DecipherWhole(ciphertext: string, key1: string, key2: string)
    requires |key1| > 0 && |key2| > 0 && |ciphertext| > 0
    requires CeilDiv(|ciphertext|, |key1|) * |key1| <= |ciphertext|
    ensures Decipher(ciphertext, key1, key2) ==
            Ok(Unpad(Flatten(Unscramble(Chunks(ciphertext, CeilDiv(|ciphertext|, |key1|), |key1|), key1, key2))))
  {
  }

  /** Putting the columns of the placed rows back in key order is the unscrambling. */
  lemma UnscrambleFilled(filled: seq<string>, runs: seq<string>, key1: string, key2: string)
    requires |key1| > 0 && |key2| > 0 && Rectangular(runs, |key1|)
    requires IsPermutation(RowOrder(key2, |runs|), |runs|)
    requires filled == PlaceRows(runs, RowOrder(key2, |runs|))
    ensures Rectangular(filled, |key1|)
    ensures SelectColumns(filled, Rank(key1), |key1|) == Unscramble(runs, key1, key2)
  {
    PermutationFacts(InverseOrder(RowOrder(key2, |runs|)), |runs|);
  }

  /** `decrypt_double_transposition(ciphertext, key1, key2)`. */
  method DecryptDoubleTransposition(ciphertext: string, key1: string, key2: string) returns (r: Result<string>)
    ensures r == Decipher(ciphertext, key1, key2)
  {
    var order1 := PermutationOrder(key1);
    var order2 := PermutationOrder(key2);
    if |key1| == 0 {
      return Err(DivisionByZero);
    }
    var cols := |key1|;
    var rows := CeilDiv(|ciphertext|, cols);
    var matrix := new char[rows, cols]((_, _) => ' ');
    if rows == 0 {
      return Ok([]);
    }
    if |order2| == 0 {
      return Err(DivisionByZero);
    }
    var sortedRows := SortBy(Range(rows), RowKey(order2));
    assert sortedRows == RowOrder(key2, rows);
    RowOrderPermutation(key2, rows);
    var ok := FillRows(matrix, ciphertext, sortedRows);
    if !ok {
      return Err(IndexOutOfRange);
    }
    var restore := Rank(key1);
    var filled := RowsOf(matrix);
    ghost var runs := Chunks(ciphertext, rows, cols);
    UnscrambleFilled(filled, runs, key1, key2);
    var plain := SelectColumns(filled, restore, cols);
    DecipherWhole(ciphertext, key1, key2);
    r := Ok(ReplaceChar(RStrip(Flatten(plain), '^'), '~', ' '));
  }

  /** Putting the columns back by the ranks undoes permuting them by the order. */
  lemma RestoreColumns(matrix: seq<string>, key1: string)
    requires |key1| > 0 && Rectangular(matrix, |key1|)
    ensures SelectColumns(SelectColumns(matrix, PermutationOrder(key1), |key1|), Rank(key1), |key1|) == matrix
  {
    var w := |key1|;
    var t := SelectColumns(matrix, PermutationOrder(key1), w);
    var back := SelectColumns(t, Rank(key1), w);
    forall r | 0 <= r < |matrix| ensures back[r] == matrix[r] {
      forall c | 0 <= c < w ensures back[r][c] == matrix[r][c] {
        OrderOfRank(key1, c);
      }
    }
  }

  /** Placing the rows back by the inverse order undoes selecting them by the order. */
  lemma RestoreRows(matrix: seq<string>, sri: seq<nat>)
    requires IsPermutation(sri, |matrix|) && forall i :: 0 <= i < |sri| ==> sri[i] < |matrix|
    ensures PlaceRows(SelectRows(matrix, sri), sri) == matrix
  {
    PermutationFacts(sri, |matrix|);
    var placed := PlaceRows(SelectRows(matrix, sri), sri);
    InverseOrderInverts(sri, |matrix|);
    forall i | 0 <= i < |matrix| ensures placed[i] == matrix[i] {
      assert sri[InverseOrder(sri)[i]] == i;
    }
  }

  /** A ciphertext that fills whole rows is accepted; one that does not is refused with an index error. */
  lemma DecipherIndexError(ciphertext: string, key1: string, key2: string)
    requires |key1| > 0 && |key2| > 0 && |ciphertext| > 0
    ensures Decipher(ciphertext, key1, key2) == Err(IndexOutOfRange) <==> |ciphertext| % |key1| != 0
    ensures Decipher(ciphertext, key1, key2).Ok? <==> |ciphertext| % |key1| == 0
  {
    var n, w := |ciphertext|, |key1|;
    var k := PadCount(n, w);
    if k > 0 {
      PadCountMinimal(n, w, 0);
    }
    assert n < CeilDiv(n, w) * w <==> n % w != 0;
  }

  /** Unscrambling undoes scrambling: the rows go back to their places, then the columns. */
  lemma UnscrambleScramble(matrix: seq<string>, key1: string, key2: string)
    requires |key1| > 0 && |key2| > 0 && Rectangular(matrix, |key1|)
    ensures Unscramble(Scramble(matrix, key1, key2), key1, key2) == matrix
  {
    RowOrderSpec(key2, |matrix|);
    RestoreRows(SelectColumns(matrix, PermutationOrder(key1), |key1|), RowOrder(key2, |matrix|));
    RestoreColumns(matrix, key1);
  }

  /** Decryption undoes encryption for a non-empty text with no `~` that does not end in `^`. */
  lemma DecryptEncrypt(text: string, key1: string, key2: string)
    requires |key1| > 0 && |key2| > 0 && |text| > 0
    requires '~' !in text && text[|text| - 1] != '^'
    ensures Encipher(text, key1, key2).Ok?
    ensures Decipher(Encipher(text, key1, key2).value, key1, key2) == Ok(text)
  {
    var cols := |key1|;
    var u := ReplaceChar(text, ' ', '~');
    var rows := CeilDiv(|u|, cols);
    var matrix := Chunks(PaddedText(u, cols), rows, cols);
    var last := Scramble(matrix, key1, key2);
    var ct := Flatten(last);
    ChunksOfFlatten(last, cols);
    ExactDiv(rows, cols);
    assert CeilDiv(|ct|, cols) == rows;
    UnscrambleScramble(matrix, key1, key2);
    FlattenOfChunks(PaddedText(u, cols), rows, cols);
    UnpadRoundTrip(text, '^', PadCount(|u|, cols));
  }
}
