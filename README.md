# Classical ciphers and Vigenère cryptanalysis, modelled in Dafny

This project models a small toolkit of classical ciphers and the statistical
attacks used to break them. It covers:

- **Vigenère codec** (`1_1.py`, repeated in `1_2.py`). The 26×26 table is built
  row by row. Encryption and decryption advance the key index only on letters and
  keep each letter's case.
- **Kasiski examination** (`1_2.py`). It collects repeated trigrams and the
  distances between their consecutive occurrences, then tallies the proper
  divisors of those distances. Candidate key lengths come out sorted by tally,
  stably.
- **Index of coincidence** (`1_2.py`). Only the integer numerator `Σ f(f−1)` and
  the denominator `n(n−1)` are modelled.
- **Key recovery** (`1_2.py`). The text is split into residue classes, and each
  class's most frequent character is taken to stand for `E`.
- **Columnar transposition** (`2_1.py`) and **double transposition** (`2_2.py`).
  Both order columns by a stable sort of the keyword. They use `~` for spaces and
  `@` or `^` as padding. Decryption fills a preallocated matrix in place.
- **Playfair** (`3_1.py`). It covers the 5×5 table, the splitting of text into
  digraphs, and the row/column/rectangle rules.
- **Cascade variant** (`3_2.py`). This is a Vigenère encryption whose key index
  advances on every character, a Playfair table built by two loops, and a Playfair
  encryption that cleans the text and pads it to even length.

## How the code is modelled

Each loop in the code is a Dafny `method` with a `while` or `for` loop. So are the
dict and list building, the string accumulators, and the in-place matrix fills
(`array2`). Each method is proved equal to a specification function on values,
and the cipher properties are proved as lemmas about those functions. Pure
expressions become functions: comprehensions, `sorted`, the `.replace` chains and
`divmod`.

**Python failures.** Where Python would raise, the model returns
`Result.Err(...)`:

- `DivisionByZero` for `% 0` or `// 0`;
- `IndexOutOfRange` for `pairs[-1]` on an empty list, `matrix[-1]` with no rows,
  `most_common(1)[0]` on an empty text, and a ciphertext too short for the matrix;
- `NotFound` for `list.index` of a missing character.

**Sorting.** Python's stable `sorted` is modelled as an insertion sort
(`Sorting.SortBy`). Its stability is proved and relied on.

**Where the code departs from the textbook Playfair cipher, the model follows the code:**

- The Playfair table of `3_1.py:4-8` does not fold a keyword's J into I; it keeps
  the keyword's characters as given. The table of `3_2.py:25-34` drops J from the
  key instead of folding it.
- Neither table is checked to hold exactly 25 letters. An odd keyword gives an
  odd table, and the model takes the table as it comes. Results assume a 25-letter
  grid only where a lemma says so (`IsGrid`).
- `split_text` replaces `J` by `I` before raising the case (`3_1.py:12`), so a
  lower-case `j` becomes `J` and stays one.
- `split_text` also gives a trailing non-letter unit an `X` (`3_1.py:37-38`).
- `playfair_decrypt` removes every `X` (`3_1.py:102`), not only the fillers. The
  full Playfair round trip therefore does not hold and is not claimed. The
  per-digraph inverse is proved in both directions.

## Model

| member | source | states |
|---|---|---|
| Vigenere.GenerateTable | 1_1.py:8-12 | the table built by 26 appends has cell (i, j) equal to the capital number (i + j) mod 26 (the builder at 1_2.py:125-129 is the same code) |
| Vigenere.TableRowRotation | 1_1.py:8-12 | row i is the alphabet rotated left by i places |
| Vigenere.TableRowPermutation | 1_1.py:8-12 | every row repeats no letter and contains every capital A–Z |
| Vigenere.TableColumnOf | 1_1.py:10 | capital c occurs in row i, first at column (c − i) mod 26 |
| Vigenere.TableLatin | 1_1.py:8-12 | two different rows never hold the same letter in one column (Latin square) |
| Vigenere.KeyLetter | 1_1.py:37 | the key character read cyclically at any key index is a letter |
| Vigenere.Shift | 1_1.py:37-43 | shifting a letter gives a letter of the same case whose alphabet index is (p + s) mod 26 |
| Vigenere.ShiftBack | 1_1.py:73-78 | shifting by −s undoes shifting by s |
| Vigenere.EncipherFrom | 1_1.py:34-48 | the ciphertext is as long as the plaintext |
| Vigenere.DecipherFrom | 1_1.py:71-82 | the decryption is as long as the ciphertext |
| Vigenere.EncipherStep | 1_1.py:34-48 | one loop pass shifts a letter by the current key letter and moves the key index on, and copies a non-letter without moving it |
| Vigenere.DecipherStep | 1_1.py:71-82 | one pass of the decryption loop shifts back by the current key letter, moving the key index only on letters |
| Vigenere.LetterCountAppend | 1_1.py:45 | the key index after a prefix counts its letters: appending a letter adds one, anything else adds nothing |
| Vigenere.EncipherAt | 1_1.py:34-48 | ciphertext position i copies a non-letter and shifts a letter by the key letter at index (start + letters before i) mod len(key) |
| Vigenere.DecipherAt | 1_1.py:71-82 | the same position-wise description for decryption, shifting back |
| Vigenere.DecipherEncipherFrom | 1_1.py:34-82 | from the same starting key index, decryption undoes encryption |
| Vigenere.DecipherEncipher | 1_1.py:15-84 | vigenere_decrypt(vigenere_encrypt(t, key), key) == t |
| Vigenere.EncipherFromAscii | 1_1.py:34-48 | the ciphertext of ASCII text is ASCII, so it is a valid decryption input |
| Vigenere.EncryptCell | 1_1.py:37-43 | the table cell at (key row, plaintext column), in the plaintext's case, is the plaintext letter shifted by the key letter |
| Vigenere.Encrypt | 1_1.py:15-50 | the loop over the text equals the Vigenère encipherment of the text |
| Vigenere.DecryptCell | 1_1.py:73-76 | the ciphertext letter sits in row k at column (c − k) mod 26, the first time it occurs there |
| Vigenere.Decrypt | 1_1.py:53-84 | the decryption loop equals the Vigenère decipherment of the text (the loop at 1_2.py:139-157 is the same code) |
| Vigenere.EncryptLookup | 1_1.py:37-43 | row from the key letter and column from the capitalised character lie inside the table, and the cell, lowered for a lower-case character, is the character shifted by the key letter |
| Vigenere.DecryptLookup | 1_1.py:73-78 | the capitalised character occurs in the key letter's row, its first column is a letter index, and that capital, lowered for a lower-case character, is the character shifted back by the key letter |
| Kasiski.Trigrams | 1_2.py:16-17 | there are len − 2 trigrams (none for a text under 3), and trigram i is t[i..i+3] |
| Kasiski.OccurrencesSpec | 1_2.py:14-21 | a trigram's position list is strictly increasing, each position starts that trigram, and every position starting it is listed |
| Kasiski.RepeatsMapKeys | 1_2.py:14-21 | the dict's keys are exactly the trigrams seen so far |
| Kasiski.RepeatsMapSpec | 1_2.py:14-21 | each key maps to the full position list of its trigram |
| Kasiski.RepeatsStep | 1_2.py:18-21 | appending to an existing key, or inserting a new key with [i], keeps the dict equal to the trigram positions so far |
| Kasiski.FindRepeats | 1_2.py:14-21 | the first loop leaves the dict of all trigram positions, with keys in insertion order |
| Kasiski.AppendGaps | 1_2.py:27-28 | the inner loop appends the differences of consecutive positions |
| Kasiski.CollectDistances | 1_2.py:23-28 | the second loop collects the consecutive gaps of every trigram, in dict order |
| Kasiski.DivisorsBelowCount | 1_2.py:33-34 | every k in range(2, n) that divides d is visited exactly once, and nothing else is |
| Kasiski.TallyCounts | 1_2.py:30-35 | the tally has exactly the values of the stream as keys, each counted with its multiplicity |
| Kasiski.TallyStep | 1_2.py:35 | `common_factors.get(k, 0) + 1` keeps the tally and its insertion order |
| Kasiski.TallyDistance | 1_2.py:33-35 | the inner loop tallies the proper divisors of one distance |
| Kasiski.TallyDivisors | 1_2.py:30-35 | the third loop tallies every proper divisor of every distance |
| Kasiski.KasiskiExamination | 1_2.py:4-40 | the three loops and the sort compute the ranked candidate key lengths |
| Kasiski.DistancesOverWitness | 1_2.py:25-28 | every distance from the first m dict entries is q − p for two positions p < q of one trigram |
| Kasiski.DistanceWitness | 1_2.py:23-28 | every distance is positive and is q − p for two positions p < q that start the same trigram |
| Kasiski.NoDistances | 1_2.py:14-28 | there are no distances exactly when no trigram occurs twice |
| Kasiski.TallyIsCount | 1_2.py:30-35 | the tally of k is the number of distances d with 2 ≤ k < d and d % k == 0 |
| Kasiski.LikelyMembers | 1_2.py:30-40 | k is a candidate exactly when it properly divides some distance, so the result is empty when no distance has such a divisor |
| Kasiski.LikelyOrder | 1_2.py:37-40 | candidates are distinct, tallies do not increase, and equal tallies keep the dict's insertion order |
| Coincidence.IndexOfCoincidence | 1_2.py:49-51 | a text of at most one character divides by zero; otherwise the result is the pair (sum of f·(f−1) over the character counts, n·(n−1)), with a positive denominator and the numerator at most the denominator |
| Coincidence.NumeratorCountsPairs | 1_2.py:63-65 | Σ f(f−1) over the counts equals the number of ordered pairs of distinct positions holding equal characters |
| Coincidence.MatchingPairsBound | 1_2.py:66 | at most n(n−1) ordered pairs of distinct positions match |
| Coincidence.NumeratorBound | 1_2.py:63-67 | numerator ≤ denominator, so the index lies in [0, 1] |
| Coincidence.UniformText | 1_2.py:63-66 | a text of one repeated character reaches the bound |
| KeyRecovery.SplitByKeyLength | 1_2.py:83-86 | there are key_length classes, or none for a non-positive key length |
| KeyRecovery.ColumnAt | 1_2.py:84 | character m of class j is the text's character at j + m·L |
| KeyRecovery.ColumnComplete | 1_2.py:84 | every position i ≥ j congruent to j mod L appears in class j at index (i − j)/L |
| KeyRecovery.ColumnEmpty | 1_2.py:84 | a class is empty exactly when it starts past the end of the text |
| KeyRecovery.ColumnAppend | 1_2.py:84 | appending a character extends exactly the class of its position |
| KeyRecovery.SplitPreserves | 1_2.py:83-86 | the classes together hold every character of the text exactly as often as the text does |
| KeyRecovery.SplitAppend | 1_2.py:83-86 | appending a character to the text extends exactly class (length mod L) by that character and leaves the other classes as they were |
| KeyRecovery.SplitLength | 1_2.py:83-86 | the total length of the classes is the text's length |
| KeyRecovery.FirstMax | 1_2.py:96 | the chosen key is one of the keys |
| KeyRecovery.FirstMaxSpec | 1_2.py:95-96 | no key counts more than the chosen one, and every key before it counts strictly less |
| KeyRecovery.MostFrequent | 1_2.py:95-97 | `most_common(1)[0]` fails exactly on an empty text |
| KeyRecovery.MostFrequentSpec | 1_2.py:95-97 | the letter occurs in the text, has maximal count, and occurs first among equally frequent characters |
| KeyRecovery.KeyLetterFor | 1_2.py:115-116 | the guessed key letter is a capital |
| KeyRecovery.KeyLetterDeciphersToE | 1_2.py:115-116 | the key letter deciphers the class's most frequent capital to E |
| KeyRecovery.FindKey | 1_2.py:111-117 | splitting the text and running the class loop gives the recovered key, failing when a class is empty |
| KeyRecovery.KeyFromClasses | 1_2.py:112-117 | the loop over the classes appends, per class, the letter its most frequent character gives under the E assumption, and fails on the first empty class |
| KeyRecovery.RecoverKeySpec | 1_2.py:111-117 | recovery fails exactly when the key length is positive and longer than the text; otherwise the key has one capital per class and is a usable key when non-empty |
| KeyRecovery.RecoverKeyLetter | 1_2.py:111-117 | key letter j is the E-shift of the most frequent character of the positions j, j + L, j + 2L, … |
| Sorting.SortBy | 2_1.py:11 | `sorted` returns the same elements, as many times each, in non-decreasing key order |
| Sorting.SortByStable | 2_1.py:11 | elements with equal keys keep their relative order (stability) |
| Sorting.SortByKeyCongruence | 2_2.py:57 | sorting depends only on the keys of the elements sorted |
| Permutations.SortedRangeIsPermutation | 2_1.py:11 | sorting range(n) by any key gives a permutation of 0..n−1 |
| Permutations.SortedRangeSpec | 2_1.py:11 | that permutation has non-decreasing keys and breaks ties by ascending index |
| Permutations.InverseOrder | 2_2.py:101 | sorting positions by the values held there gives a permutation sorted by those values |
| Permutations.InverseOrderInverts | 2_2.py:100-103 | for a permutation p, that order is p's inverse on both sides |
| Permutations.PermutedMultiset | 2_2.py:53-58 | rearranging along a permutation keeps the multiset |
| Permutations.FlattenRowwiseMultiset | 2_2.py:53 | rows with the same multisets flatten to the same multiset |
| Permutations.FlattenReorderedMultiset | 2_2.py:58-61 | reordering the rows of a matrix keeps the multiset of its flattening |
| KeyOrder.PermutationOrder | 2_1.py:11 | the order has one entry per keyword character, each a valid index |
| KeyOrder.PermutationOrderSpec | 2_1.py:11 | the order is a permutation of 0..n−1 along which keyword characters do not decrease, with ties in ascending index (2_2.py:6 defines the same function) |
| KeyOrder.Rank | 2_2.py:101 | each column's place in the order is below the keyword length |
| KeyOrder.OrderRanks | 2_2.py:100-103 | the order and the ranks undo each other |
| KeyOrder.RankOfOrder | 2_2.py:101 | the k-th column in the order has rank k |
| KeyOrder.OrderOfRank | 2_2.py:101 | column c stands at place rank[c] of the order |
| Transposition.Pad | 2_1.py:33-34 | the `while` loop appends exactly PadCount `@` characters |
| Transposition.PaddedLength | 2_1.py:33-37 | the padded length is num_rows · L, a multiple of L, between len(text) and len(text) + L − 1 |
| Transposition.PaddedMinimal | 2_1.py:33-34 | it is the least multiple of L that is at least the text's length |
| Transposition.PaddedContent | 2_1.py:28-34 | the space-replaced text comes first, every added character is `@`, and no space is left |
| Transposition.Columns | 2_1.py:41 | the k-th column read out holds matrix[r][order[k]] at row r |
| Transposition.ReadColumnsLength | 2_1.py:41 | the read-out has one column of num_rows characters per order entry |
| Transposition.EncryptTransposition | 2_1.py:14-42 | an empty keyword divides by zero; otherwise the result is the columnar encipherment |
| Transposition.EncipherLength | 2_1.py:28-42 | the ciphertext has the padded length |
| Transposition.EncipherRuns | 2_1.py:36-41 | cut into runs of num_rows, the ciphertext is the padded matrix's columns in keyword order |
| Transposition.EncipherAt | 2_1.py:38-41 | out[k·rows + r] == padded[r·L + order[k]] |
| Transposition.EncipherNoSpace | 2_1.py:28-41 | the ciphertext holds no space |
| Transposition.Regroup | 2_1.py:62-70 | column c of the grid is run number rank[c] |
| Transposition.GridRows | 2_1.py:59 | num_rows · L does not exceed the ciphertext length, so the fill stays in bounds |
| Transposition.Runs | 2_1.py:63-70 | the ciphertext is cut into L runs of num_rows characters |
| Transposition.Grid | 2_1.py:62-70 | the refilled grid has num_rows rows of L cells |
| Transposition.RunsAt | 2_1.py:67-70 | run k is ciphertext[k·rows .. k·rows + rows) |
| Transposition.GridAt | 2_1.py:62-70 | cell (r, order[k]) receives ciphertext[k·rows + r], and each cell is written once |
| Transposition.FillColumn | 2_1.py:68-70 | the inner loop writes column i from the running counter on and leaves the other columns unchanged |
| Transposition.FillGrid | 2_1.py:62-70 | the nested loops leave matrix[r][order[k]] == ciphertext[k·rows + r] for every cell |
| Transposition.DecryptTransposition | 2_1.py:45-75 | an empty keyword divides by zero; otherwise the result is the grid read row by row, trailing `@` stripped, `~` back to spaces |
| Transposition.GridOfColumns | 2_1.py:67-70 | a grid holding run k in column order[k] for every k is the grid the decryption reads out, since the order visits every column once |
| Transposition.GridOfEncipher | 2_1.py:62-70 | refilling the grid from a ciphertext gives back the padded text's rows |
| Transposition.RunsOfEncipher | 2_1.py:59 | the ciphertext of a text has as many grid rows as the padded text, and its runs are the padded matrix's columns in keyword order |
| Transposition.RegroupColumns | 2_1.py:67-70 | putting the columns read in keyword order back at their ranks gives the matrix back |
| Transposition.DecryptEncrypt | 2_1.py:73-75 | decrypt(encrypt(t, kw), kw) == t for a non-empty keyword when t has no `~` and does not end in `@` |
| DoubleTransposition.Slice | 2_2.py:20 | Python's clamped slice is at most b − a long |
| DoubleTransposition.TextRows | 2_2.py:20 | the comprehension makes `rows` rows |
| DoubleTransposition.CreateMatrix | 2_2.py:9-24 | the append loop on `matrix[-1]` computes the padded matrix, failing when there are no rows |
| DoubleTransposition.MatrixRow | 2_2.py:20-24 | with rows·cols == len + pad, row i is stretch i of the text followed by `^` padding |
| DoubleTransposition.MatrixOfText | 2_2.py:20-24 | with rows = ceil(len/cols) ≥ 1, the matrix is the text plus `^` padding cut into rows |
| DoubleTransposition.SelectColumns | 2_2.py:53 | stage 1 sets transposed[r][k] == matrix[r][key1_order[k]] |
| DoubleTransposition.SelectRows | 2_2.py:58 | stage 2 row i is transposed row sorted_row_indices[i] |
| DoubleTransposition.RowOrder | 2_2.py:57 | the row order lists `rows` row numbers, each below `rows` |
| DoubleTransposition.RowOrderPermutation | 2_2.py:57 | the row order is a permutation of the rows |
| DoubleTransposition.RowOrderSpec | 2_2.py:57-58 | it is sorted by key2_order[x mod len(key2)], with ties in ascending index |
| DoubleTransposition.Scramble | 2_2.py:53-58 | the two stages keep the matrix's shape |
| DoubleTransposition.Encipher | 2_2.py:41-61 | an empty key1 or key2 divides by zero, an empty text fails at matrix[-1], and all three non-empty succeed |
| DoubleTransposition.EncryptDoubleTransposition | 2_2.py:27-62 | the method computes the double-transposition encipherment |
| DoubleTransposition.EncipherLength | 2_2.py:46-61 | the ciphertext has rows·cols characters with rows = ceil(len(text)/cols) |
| DoubleTransposition.SelectColumnsMultiset | 2_2.py:53 | permuting the cells of each row keeps that row's characters |
| DoubleTransposition.EncipherMultiset | 2_2.py:53-61 | the ciphertext is a rearrangement of the padded, space-replaced text |
| DoubleTransposition.PlaceRows | 2_2.py:89-95 | placing the ciphertext rows by reverse_row_order keeps one row per index |
| DoubleTransposition.Unscramble | 2_2.py:100-103 | restoring the columns keeps the matrix's shape |
| DoubleTransposition.FillRow | 2_2.py:94-96 | one inner loop fills a row from the running index, or runs out of ciphertext, and leaves the other rows unchanged |
| DoubleTransposition.FillRows | 2_2.py:87-96 | the nested loops succeed exactly when the ciphertext fills the matrix, and then put ciphertext row i at matrix row sorted_row_indices[i] |
| DoubleTransposition.FilledIsPlaced | 2_2.py:93-96 | a matrix whose row sri[i] is run i is the runs put in place |
| DoubleTransposition.DecipherWhole | 2_2.py:77-106 | with both keys and a ciphertext of whole rows, decryption unscrambles its rows and unpads |
| DoubleTransposition.UnscrambleFilled | 2_2.py:100-103 | selecting the placed rows' columns by the ranks is the unscrambling |
| DoubleTransposition.DecryptDoubleTransposition | 2_2.py:65-106 | the method computes the double-transposition decipherment, including its failures |
| DoubleTransposition.RestoreColumns | 2_2.py:100-103 | reselecting columns by sorted(range(cols), key=key1_order) undoes stage 1 |
| DoubleTransposition.RestoreRows | 2_2.py:89-95 | placing rows by the inverse order undoes stage 2 |
| DoubleTransposition.DecipherIndexError | 2_2.py:92-96 | a ciphertext that is not a whole number of rows fails with an index error, and one that is succeeds |
| DoubleTransposition.DecryptEncrypt | 2_2.py:27-106 | decrypt(encrypt(t)) == t for non-empty keys and a non-empty t with no `~` that does not end in `^` |
| DoubleTransposition.UnscrambleScramble | 2_2.py:87-103 | undoing the row order of the second key, then the column order of the first, gives the matrix back |
| Playfair.Alphabet25 | 3_1.py:5 | the alphabet is the 25 distinct capitals other than J, in order |
| Playfair.Alphabet25Has | 3_1.py:5 | a character is in the alphabet exactly when it is a capital other than J |
| Playfair.CipherTableSpec | 3_1.py:4-8 | the table repeats nothing, starts with the keyword's distinct characters in first-occurrence order, and holds exactly the keyword's characters and the capitals other than J |
| Playfair.CipherTableGrid | 3_1.py:4-8 | for a keyword of capitals other than J, the table has 25 distinct letters, exactly the capitals other than J, and no J |
| Playfair.UnitsShape | 3_1.py:15-35 | every unit of the loop is a lone non-capital or two capitals, never two equal letters except "XX", and there are units exactly when the text is non-empty |
| Playfair.UnitsContent | 3_1.py:15-35 | with every X removed, the units give back the prepared text with its X's removed: splitting only inserts fillers |
| Playfair.UnitsAt | 3_1.py:16-35 | each of the five branches of the loop emits the stated units and moves i on by one or two |
| Playfair.FixLastShape | 3_1.py:37-38 | the fix-up fails only when there are no units; otherwise it changes only the last unit, which gets two characters |
| Playfair.FixLastContent | 3_1.py:37-38 | the fix-up adds only an X |
| Playfair.DigraphsSpec | 3_1.py:11-40 | split_text fails exactly on empty text; otherwise every unit has one or two characters, no doubled letter apart from "XX", a two-character last unit, and the text's content apart from X's |
| Playfair.SplitText | 3_1.py:11-40 | the `while` loop and the fix-up compute the digraph split |
| Playfair.Cells | 3_1.py:62-69 | reading two cells succeeds exactly when both are inside the table, and then gives those two letters |
| Playfair.PositionOfCell | 3_1.py:58-59 | divmod(i, 5) of a cell below 25 is a grid position whose cell is i |
| Playfair.CellOfPosition | 3_1.py:62-69 | row·5 + col of a grid position is below 25 and gives the position back |
| Playfair.DecipherEncipherPositions | 3_1.py:58-100 | the encryption rule on positions stays in the grid, and the decryption rule takes it back |
| Playfair.EncipherDecipherPositions | 3_1.py:58-100 | the decryption rule stays in the grid, and the encryption rule takes it back |
| Playfair.EncipherPairInTable | 3_1.py:58-69 | on a grid, enciphering two table letters succeeds with two table letters |
| Playfair.DecipherEncipherPair | 3_1.py:58-100 | on a grid, the decryption rule undoes the encryption rule for every digraph |
| Playfair.EncipherDecipherPair | 3_1.py:58-100 | on a grid, the encryption rule undoes the decryption rule for every digraph |
| Playfair.EncipherDouble | 3_1.py:61-63 | two equal letters fall under the same-row rule and both move one column right |
| Playfair.EncipherUnitsLength | 3_1.py:48-71 | the output has the total length of the units, and nothing fails on a grid |
| Playfair.DecipherUnitsLength | 3_1.py:79-100 | the same holds for the decryption loop |
| Playfair.EncipherSpec | 3_1.py:43-71 | empty text fails at pairs[-1]; the output has the total length of the units; a keyword of capitals other than J never fails on non-empty text |
| Playfair.DecipherSpec | 3_1.py:74-102 | empty text fails; decrypted text contains no X; a keyword of capitals other than J never fails on non-empty text |
| Playfair.PlayfairEncrypt | 3_1.py:43-71 | the loop over the units computes the Playfair encipherment |
| Playfair.PlayfairDecrypt | 3_1.py:74-102 | the loop over the units and the X removal compute the Playfair decipherment |
| Cascade.ShiftFormula | 3_2.py:16-19 | the `chr` arithmetic for both cases is the shift within the letter's case |
| Cascade.VigenereEncrypt | 3_2.py:10-22 | the loop over `enumerate` computes the per-position encipherment, failing on the first letter when the key is empty |
| Cascade.EncipherByPositionSpec | 3_2.py:10-22 | it fails exactly when the key is empty and the text has a letter; otherwise the length is kept, non-letters are copied, and letter i keeps its case and moves on by (upper(key[i mod L]) − 'A') mod 26 |
| Cascade.UndoByPosition | 3_2.py:13-21 | shifting each letter back by the key character at its position restores the text |
| Cascade.AgreesOnLetters | 3_2.py:13-19 | on a text of letters only, with a letter key, it coincides with the 1_1.py encipherment, which then decrypts it |
| Cascade.KeyIndexDiffers | 3_2.py:13-15 | on "A A" with key "AB" it gives "A A" while the 1_1.py cipher gives "A B": the key index counts non-letters here |
| Cascade.CreatePlayfairTable | 3_2.py:25-34 | the two loops build the key's capitals other than J, each once, followed by the unused letters of the alphabet |
| Cascade.PlayfairTableSpec | 3_2.py:25-34 | the table repeats nothing, holds no J, holds every capital other than J, and starts with the key's non-J characters in first-occurrence order |
| Cascade.LettersKeyGrid | 3_2.py:25-34 | a letters-only key gives a grid of exactly the 25 capitals other than J |
| Cascade.Clean | 3_2.py:43-53 | the cleaned and padded text has even length |
| Cascade.StrippedHas | 3_2.py:43-51 | a character survives cleaning exactly when it is in the capitalised, J→I text and is not a removed character; none is J or lower-case |
| Cascade.CleanSpec | 3_2.py:43-53 | the cleaned text has no space, `.`, `'`, `,`, `-`, J or lower-case letter, and only its last character can be the added X |
| Cascade.EncipherText | 3_2.py:56-69 | a successful output is as long as the cleaned text |
| Cascade.EncipherPairs | 3_2.py:55-71 | the loop over range(0, len, 2) computes the pairwise encipherment; a lone last character fails at `cleaned[i + 1]` and a character missing from the table fails in `table.index` |
| Cascade.PlayfairEncrypt | 3_2.py:37-71 | cleaning, padding and the pair loop together compute the encryption of the text |
| Cascade.EncipherTextGrid | 3_2.py:38-40 | on a grid, encryption fails exactly when some character is missing from the table, and then with not-found |
| Cascade.EncipherTextInTable | 3_2.py:56-69 | on a grid, every output character is a table letter |
| Cascade.EncipherTextPairs | 3_2.py:56-69 | output pair k is the digraph rule applied to input pair k |
| Cascade.EncipherTextDouble | 3_2.py:61-63 | equal letters, which are not split here, share a row and come out equal |
| Cascade.DecipherEncipherText | 3_2.py:56-69 | on a grid, the digraph decryption rule applied pair by pair gives back the cleaned text |
| Cascade.EncryptSpec | 3_2.py:37-71 | on a grid, encryption fails exactly when a cleaned character is off the table; otherwise the output has the cleaned length, holds only table letters, and deciphers pair by pair to the cleaned text |

## Left out

- File reading and writing, and the `__main__` drivers, are not part of this model. This covers their hard-coded keys and file names, console output, and the `.` appended after the cascade (`3_2.py:89`).
- The floating-point part of `calculate_ic` and `friedman_test` is left out: the real division, the constants 1/26 and 0.068, and `round`. Only the integer numerator and denominator are modelled, returned as a pair.
- The unused `numpy` import is left out.
- Only ASCII is modelled. Python's Unicode behaviour of `isalpha`, `islower` and `upper` is not, so the operations that use them require ASCII text (`IsAsciiText`).
- Vigenere.Encrypt: requires a non-empty key of letters, like Vigenere.Decrypt. An empty key would raise `ZeroDivisionError` on the first letter, and a non-letter key character gives a row outside 0..25, which Python either wraps (rows −26..−1, from key characters with codes 39..64) or rejects with `IndexError`. Neither is modelled for `1_1.py`; the empty-key failure is modelled for the `3_2.py` variant.
- `Counter` is modelled as counts in a multiset, with the first occurrence breaking ties; its hash-table internals are left out. The tie-break relies on `Counter` keeping insertion order.
- The Playfair round trip through `playfair_decrypt` is not claimed, because the ciphertext is split again and every X is removed. The per-digraph inverse of the rules is proved in both directions, and so is the pair-by-pair inverse of the cascade's encryption.
- Cascade.EncipherText: on a text of odd length it returns an index error for the lone last character. The cleaned text is always even, so this case never arises.
- Python's list-of-lists matrices in the transposition encryptions are modelled as sequences of rows. The decryption fills use `array2`, and the `''` placeholder cells are left out because every cell is overwritten before it is read.
- Integer widths do not matter here: Python integers are unbounded, like Dafny's. `//` and `-(-n // w)` are written out as `Quotient` and `CeilDiv`.
