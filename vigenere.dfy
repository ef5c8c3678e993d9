/** The Vigenère table, encryption and decryption with a key that advances on letters only. */
module Vigenere {

  import opened Ascii
  import opened Seqs

  /** Cell (i, j) of the table is the letter number (i + j) mod 26. */
  ghost predicate IsVigenereTable(table: seq<seq<char>>) {
    |table| == 26 && forall i :: 0 <= i < 26 ==> IsVigenereRow(table[i], i)
  }

  /** Row i of the table: column j holds the letter number (i + j) mod 26. */
  ghost predicate IsVigenereRow(row: seq<char>, i: nat) {
    |row| == 26 && forall j :: 0 <= j < 26 ==> row[j] == Capital((i + j) % 26)
  }

  /** Builds the 26 rows one `append` at a time. */
  method GenerateTable() returns (table: seq<seq<char>>)
    ensures IsVigenereTable(table)
  {
    table := [];
    var i := 0;
    while i < 26
      invariant 0 <= i <= 26 && |table| == i
      invariant forall r :: 0 <= r < i ==> IsVigenereRow(table[r], r)
    {
      var row := seq(26, j requires 0 <= j < 26 => Capital((i + j) % 26));
      table := table + [row];
      i := i + 1;
    }
  }

  /** "ABC...Z". */
  function Alphabet(): (a: string)
    ensures |a| == 26 && forall j :: 0 <= j < 26 ==> a[j] == Capital(j)
  {
    seq(26, j requires 0 <= j < 26 => Capital(j))
  }

  lemma Mod26(x: int)
    requires 0 <= x < 52
    ensures x % 26 == if x < 26 then x else x - 26
  {
  }

  /** Row i is the alphabet rotated left by i places. */
  lemma TableRowRotation(table: seq<seq<char>>, i: nat)
    requires IsVigenereTable(table) && i < 26
    ensures table[i] == Alphabet()[i..] + Alphabet()[..i]
  {
    var a := Alphabet();
    var row := table[i];
    assert IsVigenereRow(row, i);
    forall j | 0 <= j < 26 ensures row[j] == (a[i..] + a[..i])[j] {
      Mod26(i + j);
      if i + j < 26 {
        assert (a[i..] + a[..i])[j] == a[i + j];
      } else {
        assert (a[i..] + a[..i])[j] == a[i + j - 26];
      }
    }
  }

  /** Row i holds every capital exactly once. */
  lemma TableRowPermutation(table: seq<seq<char>>, i: nat)
    requires IsVigenereTable(table) && i < 26
    ensures Distinct(table[i])
    ensures forall j :: 0 <= j < 26 ==> Alphabet()[j] in table[i]
  {
    var a := Alphabet();
    var row := table[i];
    assert IsVigenereRow(row, i);
    forall j | 0 <= j < 26 ensures a[j] in row {
      var c := if j >= i then j - i else j - i + 26;
      Mod26(i + c);
      assert row[c] == a[j];
    }
    forall x, y | 0 <= x < y < 26 ensures row[x] != row[y] {
      Mod26(i + x);
      Mod26(i + y);
    }
  }

  /** Capital c sits in column (c - i) mod 26 of row i, the first and only time it occurs there. */
  lemma TableColumnOf(table: seq<seq<char>>, i: nat, c: char)
    requires IsVigenereTable(table) && i < 26 && IsUpper(c)
    ensures c in table[i] && FirstIndex(table[i], c) == (c as int - 65 - i) % 26
  {
    var d := c as int - 65;
    var j := if d >= i then d - i else d - i + 26;
    assert j == (d - i) % 26;
    Mod26(i + j);
    assert IsVigenereRow(table[i], i);
    assert table[i][j] == c;
    TableRowPermutation(table, i);
    FirstIndexOfDistinct(table[i], j);
  }

  /** Every column of the table also holds 26 different letters: the table is a Latin square. */
  lemma TableLatin(table: seq<seq<char>>, i1: nat, i2: nat, j: nat)
    requires IsVigenereTable(table) && i1 < 26 && i2 < 26 && j < 26 && i1 != i2
    ensures table[i1][j] != table[i2][j]
  {
    assert IsVigenereRow(table[i1], i1) && IsVigenereRow(table[i2], i2);
    assert (i1 + j) % 26 != (i2 + j) % 26;
  }

  /** A key the table code accepts: `key[k % len(key)]` needs a non-empty key, and the row index an ASCII letter. */
  ghost predicate ValidKey(key: string) {
    |key| > 0 && forall i :: 0 <= i < |key| ==> IsAlpha(key[i])
  }

  /** The key letter at key index `n`, read cyclically as `key[n % len(key)]`. */
  function KeyLetter(key: string, n: nat): (c: char)
    requires ValidKey(key)
    ensures IsAlpha(c)
  {
    key[n % |key|]
  }

  /** Moves letter `c` on by `s` places within its own case. */
  function Shift(c: char, s: int): (r: char)
    requires IsAlpha(c)
    ensures IsAlpha(r) && (IsLower(r) <==> IsLower(c))
    ensures LetterIndex(r) == (LetterIndex(c) + s) % 26
  {
    var u := Capital((LetterIndex(c) + s) % 26);
    if IsLower(c) then ToLower(u) else u
  }

  /** Two letters of the same case and alphabet index are the same character. */
  lemma SameLetter(a: char, b: char)
    requires IsAlpha(a) && IsAlpha(b) && (IsLower(a) <==> IsLower(b)) && LetterIndex(a) == LetterIndex(b)
    ensures a == b
  {
  }

  /** Shifting back by the same amount restores the letter. */
  lemma ShiftBack(c: char, s: int)
    requires IsAlpha(c)
    ensures Shift(Shift(c, s), -s) == c
  {
    var r := Shift(Shift(c, s), -s);
    assert LetterIndex(r) == ((LetterIndex(c) + s) % 26 - s) % 26 == LetterIndex(c);
    SameLetter(r, c);
  }

  /** Enciphering the rest of a text when the key index stands at `k` (the loop body of `vigenere_encrypt`). */
  function EncipherFrom(t: string, key: string, k: nat): (r: string)
    requires ValidKey(key)
    ensures |r| == |t|
  {
    if t == [] then []
    else if IsAlpha(t[0]) then [Shift(t[0], LetterIndex(KeyLetter(key, k)))] + EncipherFrom(t[1..], key, k + 1)
    else [t[0]] + EncipherFrom(t[1..], key, k)
  }

  /** Deciphering the rest of a text when the key index stands at `k` (the loop body of `vigenere_decrypt`). */
  function DecipherFrom(t: string, key: string, k: nat): (r: string)
    requires ValidKey(key)
    ensures |r| == |t|
  {
    if t == [] then []
    else if IsAlpha(t[0]) then [Shift(t[0], -LetterIndex(KeyLetter(key, k)))] + DecipherFrom(t[1..], key, k + 1)
    else [t[0]] + DecipherFrom(t[1..], key, k)
  }

  /** One step of the encryption loop: the character at `i` is emitted and the key index moves on past a letter. */
  lemma EncipherStep(t: string, key: string, k: nat, i: nat)
    requires ValidKey(key) && i < |t|
    ensures EncipherFrom(t[i..], key, k) ==
      if IsAlpha(t[i]) then [Shift(t[i], LetterIndex(KeyLetter(key, k)))] + EncipherFrom(t[i + 1..], key, k + 1)
      else [t[i]] + EncipherFrom(t[i + 1..], key, k)
  {
    assert t[i..][1..] == t[i + 1..];
  }

  /** One step of the decryption loop. */
  lemma DecipherStep(t: string, key: string, k: nat, i: nat)
    requires ValidKey(key) && i < |t|
    ensures DecipherFrom(t[i..], key, k) ==
      if IsAlpha(t[i]) then [Shift(t[i], -LetterIndex(KeyLetter(key, k)))] + DecipherFrom(t[i + 1..], key, k + 1)
      else [t[i]] + DecipherFrom(t[i + 1..], key, k)
  {
    assert t[i..][1..] == t[i + 1..];
  }

  function Encipher(t: string, key: string): string
    requires ValidKey(key)
  {
    EncipherFrom(t, key, 0)
  }

  function Decipher(t: string, key: string): string
    requires ValidKey(key)
  {
    DecipherFrom(t, key, 0)
  }

  /** How many letters `s` holds: the key index after reading `s`. */
  function LetterCount(s: string): (n: nat)
    ensures n <= |s|
  {
    if s == [] then 0 else (if IsAlpha(s[0]) then 1 else 0) + LetterCount(s[1..])
  }

  lemma {:induction false} LetterCountAppend(s: string, c: char)
    ensures LetterCount(s + [c]) == LetterCount(s) + if IsAlpha(c) then 1 else 0
  {
    if s != [] {
      assert (s + [c])[1..] == s[1..] + [c];
      LetterCountAppend(s[1..], c);
    }
  }

  /** Past the first character, the ciphertext is the rest of the text enciphered from the next key index. */
  lemma EncipherFromTail(t: string, key: string, k: nat, i: nat)
    requires ValidKey(key) && 0 < i < |t|
    ensures EncipherFrom(t, key, k)[i] == EncipherFrom(t[1..], key, if IsAlpha(t[0]) then k + 1 else k)[i - 1]
  {
  }

  /** Past the first character, the plaintext is the rest deciphered from the next key index. */
  lemma DecipherFromTail(t: string, key: string, k: nat, i: nat)
    requires ValidKey(key) && 0 < i < |t|
    ensures DecipherFrom(t, key, k)[i] == DecipherFrom(t[1..], key, if IsAlpha(t[0]) then k + 1 else k)[i - 1]
  {
  }

  /** The letters before position `i` are the first character's count plus those of the rest before `i - 1`. */
  lemma LetterCountTail(t: string, i: nat)
    requires 0 < i <= |t|
    ensures LetterCount(t[..i]) == (if IsAlpha(t[0]) then 1 else 0) + LetterCount(t[1..][..i - 1])
  {
    assert t[..i][0] == t[0] && t[..i][1..] == t[1..][..i - 1];
  }

  /**
   * Position i of the ciphertext: a non-letter is copied, and a letter is shifted, in its own case,
   * by the key letter at index k + (number of letters before i).
   */
  lemma {:induction false} EncipherAt(t: string, key: string, k: nat, i: nat)
    requires ValidKey(key) && i < |t|
    ensures EncipherFrom(t, key, k)[i] ==
      if IsAlpha(t[i]) then Shift(t[i], LetterIndex(KeyLetter(key, k + LetterCount(t[..i])))) else t[i]
  {
    if i > 0 {
      var k' := if IsAlpha(t[0]) then k + 1 else k;
      EncipherAt(t[1..], key, k', i - 1);
      EncipherFromTail(t, key, k, i);
      LetterCountTail(t, i);
      assert t[1..][i - 1] == t[i];
    } else {
      assert LetterCount(t[..0]) == 0;
    }
  }

  /** The same positional description for decryption, shifting back instead of forward. */
  lemma {:induction false} DecipherAt(t: string, key: string, k: nat, i: nat)
    requires ValidKey(key) && i < |t|
    ensures DecipherFrom(t, key, k)[i] ==
      if IsAlpha(t[i]) then Shift(t[i], -LetterIndex(KeyLetter(key, k + LetterCount(t[..i])))) else t[i]
  {
    if i > 0 {
      var k' := if IsAlpha(t[0]) then k + 1 else k;
      DecipherAt(t[1..], key, k', i - 1);
      DecipherFromTail(t, key, k, i);
      LetterCountTail(t, i);
      assert t[1..][i - 1] == t[i];
    } else {
      assert LetterCount(t[..0]) == 0;
    }
  }

  /** Decryption with the same key and the same starting key index undoes encryption. */
  lemma {:induction false} DecipherEncipherFrom(t: string, key: string, k: nat)
    requires ValidKey(key)
    ensures DecipherFrom(EncipherFrom(t, key, k), key, k) == t
  {
    if t != [] {
      var e := EncipherFrom(t, key, k);
      assert e[1..] == EncipherFrom(t[1..], key, if IsAlpha(t[0]) then k + 1 else k);
      DecipherEncipherFrom(t[1..], key, if IsAlpha(t[0]) then k + 1 else k);
      if IsAlpha(t[0]) {
        ShiftBack(t[0], LetterIndex(KeyLetter(key, k)));
      }
    }
  }

  /** `vigenere_decrypt(vigenere_encrypt(t, key), key) == t`. */
  lemma DecipherEncipher(t: string, key: string)
    requires ValidKey(key)
    ensures Decipher(Encipher(t, key), key) == t
  {
    DecipherEncipherFrom(t, key, 0);
  }

  /** Encryption turns ASCII text into ASCII text, so its output is a valid input for decryption. */
  lemma {:induction false} EncipherFromAscii(t: string, key: string, k: nat)
    requires ValidKey(key) && IsAsciiText(t)
    ensures IsAsciiText(EncipherFrom(t, key, k))
  {
    if t != [] {
      EncipherFromAscii(t[1..], key, if IsAlpha(t[0]) then k + 1 else k);
    }
  }

  /** The table cell in the key letter's row and the plaintext letter's column, in the plaintext's case, is the shifted letter. */
  lemma EncryptCell(table: seq<seq<char>>, kc: char, c: char)
    requires IsVigenereTable(table) && IsAlpha(kc) && IsAlpha(c)
    ensures 0 <= ToUpper(kc) as int - 65 < 26 && 0 <= ToUpper(c) as int - 65 < 26
    ensures var e := table[ToUpper(kc) as int - 65][ToUpper(c) as int - 65];
      (if IsLower(c) then ToLower(e) else e) == Shift(c, LetterIndex(kc))
  {
    var row, col := LetterIndex(kc), LetterIndex(c);
    assert IsVigenereRow(table[row], row);
    assert table[row][col] == Capital((row + col) % 26);
  }

  /** The lookup of the encryption loop for letter `c` at key index `n`: the row of the upper-cased key character, the column of `c`. */
  lemma EncryptLookup(table: seq<seq<char>>, key: string, n: nat, c: char)
    requires IsVigenereTable(table) && ValidKey(key) && IsAlpha(c)
    ensures var row, col := UpperText(key)[n % |key|] as int - 65, ToUpper(c) as int - 65;
      0 <= row < 26 && 0 <= col < 26 && |table[row]| == 26 &&
      (if IsLower(c) then ToLower(table[row][col]) else table[row][col]) == Shift(c, LetterIndex(KeyLetter(key, n)))
  {
    var kc := KeyLetter(key, n);
    assert UpperText(key)[n % |key|] == ToUpper(kc);
    EncryptCell(table, kc, c);
  }

  /** `vigenere_encrypt`: one pass over the text, looking each letter up in the table. */
  method Encrypt(plainText: string, key: string) returns (encrypted: string)
    requires ValidKey(key) && IsAsciiText(plainText)
    ensures encrypted == Encipher(plainText, key)
  {
    var table := GenerateTable();
    var upperKey := UpperText(key);
    encrypted := "";
    var keyLen := |upperKey|;
    var keyIndex := 0;
    var i := 0;
    while i < |plainText|
      invariant 0 <= i <= |plainText|
      invariant encrypted + EncipherFrom(plainText[i..], key, keyIndex) == Encipher(plainText, key)
    {
      var c := plainText[i];
      EncipherStep(plainText, key, keyIndex, i);
      if IsAlpha(c) {
        EncryptLookup(table, key, keyIndex, c);
        var row := upperKey[keyIndex % keyLen] as int - 65;
        var col := ToUpper(c) as int - 65;
        var e := table[row][col];
        if IsLower(c) {
          e := ToLower(e);
        }
        Append(encrypted, e, EncipherFrom(plainText[i + 1..], key, keyIndex + 1));
        encrypted := encrypted + [e];
        keyIndex := keyIndex + 1;
      } else {
        Append(encrypted, c, EncipherFrom(plainText[i + 1..], key, keyIndex));
        encrypted := encrypted + [c];
      }
      i := i + 1;
    }
  }

  /** The ciphertext letter sits in column (c - row) mod 26 of the key letter's row. */
  lemma DecryptCell(table: seq<seq<char>>, row: nat, c: char)
    requires IsVigenereTable(table) && row < 26 && IsAlpha(c)
    ensures ToUpper(c) in table[row] && FirstIndex(table[row], ToUpper(c)) == (LetterIndex(c) - row) % 26
  {
    TableColumnOf(table, row, ToUpper(c));
  }

  /** The lookup of the decryption loop for letter `c` at key index `n`: the column where `c` sits in the key character's row. */
  lemma DecryptLookup(table: seq<seq<char>>, key: string, n: nat, c: char)
    requires IsVigenereTable(table) && ValidKey(key) && IsAlpha(c)
    ensures var row := UpperText(key)[n % |key|] as int - 65;
      0 <= row < 26 && ToUpper(c) in table[row] && FirstIndex(table[row], ToUpper(c)) < 26 &&
      var d := Capital(FirstIndex(table[row], ToUpper(c)));
      (if IsLower(c) then ToLower(d) else d) == Shift(c, -LetterIndex(KeyLetter(key, n)))
  {
    var kc := KeyLetter(key, n);
    assert UpperText(key)[n % |key|] == ToUpper(kc);
    var row := LetterIndex(kc);
    DecryptCell(table, row, c);
  }

  /** `vigenere_decrypt`: the column where the ciphertext letter sits in the key letter's row is the plaintext letter. */
  method Decrypt(cipherText: string, key: string) returns (decrypted: string)
    requires ValidKey(key) && IsAsciiText(cipherText)
    ensures decrypted == Decipher(cipherText, key)
  {
    var table := GenerateTable();
    var upperKey := UpperText(key);
    decrypted := "";
    var keyLen := |upperKey|;
    var keyIndex := 0;
    var i := 0;
    while i < |cipherText|
      invariant 0 <= i <= |cipherText|
      invariant decrypted + DecipherFrom(cipherText[i..], key, keyIndex) == Decipher(cipherText, key)
    {
      var c := cipherText[i];
      DecipherStep(cipherText, key, keyIndex, i);
      if IsAlpha(c) {
        DecryptLookup(table, key, keyIndex, c);
        var row := upperKey[keyIndex % keyLen] as int - 65;
        var col := FirstIndex(table[row], ToUpper(c));
        var d := Capital(col);
        if IsLower(c) {
          d := ToLower(d);
        }
        Append(decrypted, d, DecipherFrom(cipherText[i + 1..], key, keyIndex + 1));
        decrypted := decrypted + [d];
        keyIndex := keyIndex + 1;
      } else {
        Append(decrypted, c, DecipherFrom(cipherText[i + 1..], key, keyIndex));
        decrypted := decrypted + [c];
      }
      i := i + 1;
    }
  }
}
