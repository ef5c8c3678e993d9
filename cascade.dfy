/**
 * The two-stage cipher: a Vigenère pass whose key advances on every character, then a Playfair pass
 * over a table built by two loops, on a cleaned text cut into pairs without fillers between letters.
 */
module Cascade {

  import opened Wrappers
  import opened Ascii
  import opened Seqs
  import Vigenere
  import Playfair

  // Vigenère with the key indexed by position (`vigenere_encrypt`)

  /** `ord(key[i % len(key)].upper()) - ord("A")`; a key character that is not a letter gives any shift. */
  function KeyShift(key: string, i: nat): int
    requires |key| > 0
  {
    ToUpper(key[i % |key|]) as int - 65
  }

  predicate HasLetter(text: string) {
    exists i :: 0 <= i < |text| && IsAlpha(text[i])
  }

  /** Position `i` of the ciphertext: a letter shifted by the key character at `i` within its case, anything else copied. */
  function EncipherChar(text: string, key: string, i: nat): char
    requires i < |text| && (IsAlpha(text[i]) ==> |key| > 0)
  {
    if IsAlpha(text[i]) then Vigenere.Shift(text[i], KeyShift(key, i)) else text[i]
  }

  /** `vigenere_encrypt(plaintext, key)`, as a value: `i % 0` fails on the first letter when the key is empty. */
  function EncipherByPosition(text: string, key: string): Result<string> {
    if |key| == 0 && HasLetter(text) then Err(DivisionByZero)
    else Ok(seq(|text|, i requires 0 <= i < |text| => EncipherChar(text, key, i)))
  }

  /** The `chr` arithmetic of the loop body is the shift within the letter's case. */
  lemma ShiftFormula(c: char, s: int)
    requires IsAlpha(c)
    ensures IsUpper(c) ==> Vigenere.Shift(c, s) == ((c as int - 65 + s) % 26 + 65) as char
    ensures IsLower(c) ==> Vigenere.Shift(c, s) == ((c as int - 97 + s) % 26 + 97) as char
  {
  }

  /** `vigenere_encrypt`: the loop over `enumerate(plaintext)`, concatenating characters. */
  method VigenereEncrypt(plaintext: string, key: string) returns (r: Result<string>)
    requires IsAsciiText(plaintext) && IsAsciiText(key)
    ensures r == EncipherByPosition(plaintext, key)
  {
    var encrypted := "";
    var keyLength := |key|;
    for i := 0 to |plaintext|
      invariant keyLength == 0 ==> forall j :: 0 <= j < i ==> !IsAlpha(plaintext[j])
      invariant |encrypted| == i
      invariant forall j :: 0 <= j < i ==> encrypted[j] == EncipherChar(plaintext, key, j)
    {
      var c := plaintext[i];
      if IsAlpha(c) {
        if keyLength == 0 {
          assert HasLetter(plaintext);
          return Err(DivisionByZero);
        }
        var shift := ToUpper(key[i % keyLength]) as int - 65;
        ShiftFormula(c, shift);
        if IsUpper(c) {
          encrypted := encrypted + [((c as int - 65 + shift) % 26 + 65) as char];
        } else {
          encrypted := encrypted + [((c as int - 97 + shift) % 26 + 97) as char];
        }
      } else {
        encrypted := encrypted + [c];
      }
    }
    assert encrypted == seq(|plaintext|, i requires 0 <= i < |plaintext| => EncipherChar(plaintext, key, i));
    r := Ok(encrypted);
  }

  /**
   * Encryption fails exactly when the key is empty and the text holds a letter. Otherwise the output is as
   * long as the text, copies every non-letter, and turns each letter into a letter of the same case moved on
   * by the key character at the same position.
   */
  lemma EncipherByPositionSpec(text: string, key: string)
    ensures EncipherByPosition(text, key).Err? <==> |key| == 0 && HasLetter(text)
    ensures EncipherByPosition(text, key).Err? ==> EncipherByPosition(text, key).error == DivisionByZero
    ensures EncipherByPosition(text, key).Ok? ==>
              var e := EncipherByPosition(text, key).value;
              |e| == |text| &&
              forall i :: 0 <= i < |text| ==>
                if IsAlpha(text[i]) then
                  |key| > 0 && IsAlpha(e[i]) && (IsLower(e[i]) <==> IsLower(text[i])) &&
                  LetterIndex(e[i]) == (LetterIndex(text[i]) + KeyShift(key, i)) % 26
                else e[i] == text[i]
  {
  }

  /** Shifting each letter back by the key character at its position restores the text. */
  lemma UndoByPosition(text: string, key: string)
    requires EncipherByPosition(text, key).Ok?
    ensures var e := EncipherByPosition(text, key).value;
      forall i :: 0 <= i < |text| ==>
        if IsAlpha(text[i]) then |key| > 0 && Vigenere.Shift(e[i], -KeyShift(key, i)) == text[i]
        else e[i] == text[i]
  {
    var e := EncipherByPosition(text, key).value;
    forall i | 0 <= i < |text| && IsAlpha(text[i])
      ensures |key| > 0 && Vigenere.Shift(e[i], -KeyShift(key, i)) == text[i]
    {
      Vigenere.ShiftBack(text[i], KeyShift(key, i));
    }
  }

  predicate LettersOnly(text: string) {
    forall i :: 0 <= i < |text| ==> IsAlpha(text[i])
  }

  lemma {:induction false} LetterCountAll(text: string)
    requires LettersOnly(text)
    ensures Vigenere.LetterCount(text) == |text|
  {
    if text != [] {
      LetterCountAll(text[1..]);
    }
  }

  /**
   * On a text of letters only, advancing the key on every character is advancing it on every letter, so this
   * pass agrees with the letter-indexed Vigenère cipher, and that cipher's decryption undoes it.
   */
  lemma AgreesOnLetters(text: string, key: string)
    requires LettersOnly(text) && Vigenere.ValidKey(key)
    ensures EncipherByPosition(text, key) == Ok(Vigenere.Encipher(text, key))
    ensures Vigenere.Decipher(EncipherByPosition(text, key).value, key) == text
  {
    var e := seq(|text|, i requires 0 <= i < |text| => EncipherChar(text, key, i));
    var v := Vigenere.Encipher(text, key);
    forall i | 0 <= i < |text| ensures e[i] == v[i] {
      Vigenere.EncipherAt(text, key, 0, i);
      assert LettersOnly(text[..i]);
      LetterCountAll(text[..i]);
    }
    assert e == v;
    Vigenere.DecipherEncipher(text, key);
  }

  /** Where the text holds a non-letter the two key indexings part: "A A" under key "AB". */
  lemma KeyIndexDiffers()
    ensures EncipherByPosition("A A", "AB") == Ok("A A")
    ensures Vigenere.Encipher("A A", "AB") == "A B"
  {
    var e := seq(3, i requires 0 <= i < 3 => EncipherChar("A A", "AB", i));
    assert KeyShift("AB", 2) == 0;
    assert e == "A A";
    assert Vigenere.KeyLetter("AB", 1) == 'B';
    assert Vigenere.EncipherFrom("A", "AB", 1) == "B" + Vigenere.EncipherFrom("", "AB", 2);
    assert Vigenere.EncipherFrom(" A", "AB", 1) == " " + Vigenere.EncipherFrom("A", "AB", 1);
    assert Vigenere.EncipherFrom("A A", "AB", 0) == "A" + Vigenere.EncipherFrom(" A", "AB", 1);
  }

  // The Playfair table built by two loops (`create_playfair_table`)

  /** The characters appended by the first loop, before deduplication: `key.upper()` without its J's. */
  function KeyLetters(key: string): string {
    RemoveChar(UpperText(key), 'J')
  }

  lemma RemoveCharSnoc(s: string, c: char, x: char)
    ensures RemoveChar(s + [x], c) == if x != c then RemoveChar(s, c) + [x] else RemoveChar(s, c)
  {
    assert (s + [x])[..|s|] == s;
  }

  lemma FilterSnoc(s: string, p: char -> bool, x: char)
    ensures Filter(s + [x], p) == if p(x) then Filter(s, p) + [x] else Filter(s, p)
  {
    assert (s + [x])[..|s|] == s;
  }

  lemma DedupSnoc(s: string, x: char)
    ensures Dedup(s + [x]) == if x in Dedup(s) then Dedup(s) else Dedup(s) + [x]
  {
    assert (s + [x])[..|s|] == s;
  }

  /** One pass of the first loop: a new capital other than J is appended. */
  lemma KeyLoopStep(upper: string, i: nat)
    requires i < |upper|
    ensures var c, d := upper[i], Dedup(RemoveChar(upper[..i], 'J'));
      Dedup(RemoveChar(upper[..i + 1], 'J')) == if c !in d && c != 'J' then d + [c] else d
  {
    var c := upper[i];
    assert upper[..i + 1] == upper[..i] + [c];
    RemoveCharSnoc(upper[..i], 'J', c);
    if c != 'J' {
      DedupSnoc(RemoveChar(upper[..i], 'J'), c);
    }
  }

  /** One pass of the second loop: a letter of the alphabet not yet in the table is appended. */
  lemma AlphabetLoopStep(alphabet: string, keyPart: string, j: nat)
    requires Distinct(alphabet) && j < |alphabet|
    ensures var c, t := alphabet[j], keyPart + Filter(alphabet[..j], Playfair.NotIn(keyPart));
      keyPart + Filter(alphabet[..j + 1], Playfair.NotIn(keyPart)) == if c !in t then t + [c] else t
  {
    var c := alphabet[j];
    assert alphabet[..j + 1] == alphabet[..j] + [c];
    assert c !in alphabet[..j];
    FilterHas(alphabet[..j], Playfair.NotIn(keyPart), c);
    FilterSnoc(alphabet[..j], Playfair.NotIn(keyPart), c);
  }

  /** `create_playfair_table(key)`: the key's capitals other than J, each once, then the unused letters of the alphabet. */
  method CreatePlayfairTable(key: string) returns (table: string)
    requires IsAsciiText(key)
    ensures table == Playfair.CipherTable(KeyLetters(key))
  {
    var upper := UpperText(key);
    table := [];
    for i := 0 to |upper|
      invariant table == Dedup(RemoveChar(upper[..i], 'J'))
    {
      var c := upper[i];
      KeyLoopStep(upper, i);
      if c !in table && c != 'J' {
        table := table + [c];
      }
    }
    assert upper[..|upper|] == upper;
    ghost var keyPart := table;
    var alphabet := "ABCDEFGHIKLMNOPQRSTUVWXYZ";
    assert alphabet == Playfair.Alphabet25();
    for j := 0 to |alphabet|
      invariant table == keyPart + Filter(alphabet[..j], Playfair.NotIn(keyPart))
    {
      var c := alphabet[j];
      AlphabetLoopStep(alphabet, keyPart, j);
      if c !in table {
        table := table + [c];
      }
    }
    assert alphabet[..|alphabet|] == alphabet;
  }

  /**
   * The table repeats nothing, holds no J, holds every capital other than J, and starts with the key's
   * capitals other than J in order of first occurrence.
   */
  lemma PlayfairTableSpec(key: string)
    ensures var table := Playfair.CipherTable(KeyLetters(key));
      Distinct(table) && 'J' !in table &&
      (forall c :: IsUpper(c) && c != 'J' ==> c in table) &&
      table[..|Dedup(KeyLetters(key))|] == Dedup(KeyLetters(key))
  {
    Playfair.CipherTableSpec(KeyLetters(key));
    RemoveCharHas(UpperText(key), 'J', 'J');
  }

  /** A key of letters only gives a grid of exactly the 25 capitals other than J. */
  lemma LettersKeyGrid(key: string)
    requires LettersOnly(key)
    ensures Playfair.IsGrid(Playfair.CipherTable(KeyLetters(key)))
    ensures forall c :: c in Playfair.CipherTable(KeyLetters(key)) <==> IsUpper(c) && c != 'J'
  {
    var k := KeyLetters(key);
    var upper := UpperText(key);
    forall i | 0 <= i < |k| ensures IsUpper(k[i]) && k[i] != 'J' {
      RemoveCharHas(upper, 'J', k[i]);
      var j :| 0 <= j < |upper| && upper[j] == k[i];
    }
    Playfair.CipherTableGrid(k);
  }

  // Cleaning and encrypting (`playfair_encrypt`)

  /** The `.replace` chain: raised to capitals, J's turned into I's, and spaces and `.',-` removed. */
  function Stripped(text: string): string {
    var s := ReplaceChar(UpperText(text), 'J', 'I');
    RemoveChar(RemoveChar(RemoveChar(RemoveChar(RemoveChar(s, ' '), '.'), '\''), ','), '-')
  }

  /** The cleaned text, with an 'X' added when its length is odd. */
  function Clean(text: string): (c: string)
    ensures |c| % 2 == 0
  {
    var s := Stripped(text);
    if |s| % 2 != 0 then s + "X" else s
  }

  predicate Removed(c: char) {
    c == ' ' || c == '.' || c == '\'' || c == ',' || c == '-'
  }

  /**
   * A character survives the cleaning exactly when it is a character of the raised text with J turned
   * into I, other than the five removed ones; so no J and no lower-case letter remain.
   */
  lemma StrippedHas(text: string, c: char)
    ensures c in Stripped(text) <==> c in ReplaceChar(UpperText(text), 'J', 'I') && !Removed(c)
    ensures c in Stripped(text) ==> c != 'J' && !IsLower(c)
  {
    var s := ReplaceChar(UpperText(text), 'J', 'I');
    var s1 := RemoveChar(s, ' ');
    var s2 := RemoveChar(s1, '.');
    var s3 := RemoveChar(s2, '\'');
    var s4 := RemoveChar(s3, ',');
    RemoveCharHas(s, ' ', c);
    RemoveCharHas(s1, '.', c);
    RemoveCharHas(s2, '\'', c);
    RemoveCharHas(s3, ',', c);
    RemoveCharHas(s4, '-', c);
    if c in s {
      var i :| 0 <= i < |s| && s[i] == c;
    }
  }

  /** The cleaned text has none of the removed characters, no J and no lower-case letter, and only its last character can be the added 'X'. */
  lemma CleanSpec(text: string)
    ensures forall i :: 0 <= i < |Clean(text)| ==> !Removed(Clean(text)[i]) && Clean(text)[i] != 'J' && !IsLower(Clean(text)[i])
    ensures |Stripped(text)| <= |Clean(text)| <= |Stripped(text)| + 1
    ensures Clean(text)[..|Stripped(text)|] == Stripped(text)
    ensures |Clean(text)| > |Stripped(text)| ==> Clean(text)[|Stripped(text)|] == 'X'
  {
    var s := Stripped(text);
    forall i | 0 <= i < |Clean(text)|
      ensures !Removed(Clean(text)[i]) && Clean(text)[i] != 'J' && !IsLower(Clean(text)[i])
    {
      if i < |s| {
        assert Clean(text)[i] == s[i];
        StrippedHas(text, s[i]);
      }
    }
  }

  /**
   * The loop over the pairs of `s`: each pair's two table letters by the digraph rule, or the first failure.
   * A lone last character would fail at `cleaned[i + 1]`; the cleaned text never has one.
   */
  function EncipherText(table: string, s: string): (r: Result<string>)
    ensures r.Ok? ==> |r.value| == |s|
    decreases |s|
  {
    if s == [] then Ok([])
    else if |s| == 1 then Err(IndexOutOfRange)
    else if s[0] !in table || s[1] !in table then Err(NotFound)
    else
      var head := Playfair.EncipherPair(table, s[0], s[1]);
      if head.Err? then head else Playfair.Prefixed(head.value, EncipherText(table, s[2..]))
  }

  /** `playfair_encrypt(text, table)`, as a value. */
  function Encrypt(text: string, table: string): Result<string> {
    EncipherText(table, Clean(text))
  }

  /** One pass of the loop: a failing pair is the loop's failure; otherwise its two letters join the prefix. */
  lemma EncipherTextStep(table: string, s: string, i: nat, out: string)
    requires i < |s|
    requires EncipherText(table, s) == Playfair.Prefixed(out, EncipherText(table, s[i..]))
    ensures i + 1 == |s| ==> EncipherText(table, s) == Err(IndexOutOfRange)
    ensures i + 1 < |s| && (s[i] !in table || s[i + 1] !in table) ==> EncipherText(table, s) == Err(NotFound)
    ensures i + 1 < |s| && s[i] in table && s[i + 1] in table ==>
              var head := Playfair.EncipherPair(table, s[i], s[i + 1]);
              (head.Err? ==> EncipherText(table, s) == head) &&
              (head.Ok? ==> EncipherText(table, s) == Playfair.Prefixed(out + head.value, EncipherText(table, s[i + 2..])))
  {
    var t := s[i..];
    if i + 1 < |s| {
      assert t[0] == s[i] && t[1] == s[i + 1] && t[2..] == s[i + 2..];
      if s[i] in table && s[i + 1] in table {
        var head := Playfair.EncipherPair(table, s[i], s[i + 1]);
        var next := EncipherText(table, s[i + 2..]);
        if head.Ok? && next.Ok? {
          Concat3(out, head.value, next.value);
        }
      }
    } else {
      assert |t| == 1;
    }
  }

  /** Before the loop nothing is encrypted yet and all of `s` remains. */
  lemma EncipherTextFrom(table: string, s: string)
    ensures EncipherText(table, s) == Playfair.Prefixed("", EncipherText(table, s[0..]))
  {
    assert s[0..] == s;
    assert EncipherText(table, s).Ok? ==> "" + EncipherText(table, s).value == EncipherText(table, s).value;
  }

  /** After the loop nothing remains, and the encryption is what was collected. */
  lemma EncipherTextDone(table: string, s: string, out: string)
    requires EncipherText(table, s) == Playfair.Prefixed(out, EncipherText(table, s[|s|..]))
    ensures EncipherText(table, s) == Ok(out)
  {
    assert s[|s|..] == [] && out + [] == out;
  }

  /**
   * The loop over `range(0, len(s), 2)`: a lone last character fails at `s[i + 1]`, a character missing
   * from the table fails in `table.index`.
   */
  method EncipherPairs(table: string, s: string) returns (r: Result<string>)
    ensures r == EncipherText(table, s)
  {
    var encrypted := "";
    var i := 0;
    EncipherTextFrom(table, s);
    while i < |s|
      invariant i <= |s|
      invariant EncipherText(table, s) == Playfair.Prefixed(encrypted, EncipherText(table, s[i..]))
    {
      EncipherTextStep(table, s, i, encrypted);
      if i + 1 == |s| {
        return Err(IndexOutOfRange);
      }
      var a, b := s[i], s[i + 1];
      if a !in table || b !in table {
        return Err(NotFound);
      }
      var out := Playfair.EncipherPair(table, a, b);
      if out.Err? {
        return out;
      }
      encrypted := encrypted + out.value;
      i := i + 2;
    }
    EncipherTextDone(table, s, encrypted);
    r := Ok(encrypted);
  }

  /** `playfair_encrypt`: the pair loop on the cleaned and padded text. */
  method PlayfairEncrypt(text: string, table: string) returns (r: Result<string>)
    requires IsAsciiText(text)
    ensures r == Encrypt(text, table)
  {
    var cleaned := Clean(text);
    r := EncipherPairs(table, cleaned);
  }

  /** The pairs `s[i:i + 2]` the loop reads, as units of two characters. */
  function PairsOf(s: string): (units: seq<string>)
    ensures Playfair.ShortUnits(units)
    decreases |s|
  {
    if |s| <= 1 then (if s == [] then [] else [s]) else [s[..2]] + PairsOf(s[2..])
  }

  /**
   * On a grid, encryption of `m` pairs fails exactly when a character of the text is missing from the
   * table, and then with `table.index`'s failure: it never reads past the table.
   */
  lemma {:induction false} EncipherTextGrid(table: string, s: string, m: nat)
    requires |s| == 2 * m && Playfair.IsGrid(table)
    ensures EncipherText(table, s).Err? <==> Missing(table, s)
    ensures EncipherText(table, s).Err? ==> EncipherText(table, s).error == NotFound
    decreases m
  {
    if s != [] {
      if s[0] !in table || s[1] !in table {
        assert EncipherText(table, s) == Err(NotFound);
        MissingHead(table, s);
      } else {
        EncipherTextGrid(table, s[2..], m - 1);
        Playfair.EncipherPairInTable(table, s[0], s[1]);
        var head := Playfair.EncipherPair(table, s[0], s[1]);
        assert EncipherText(table, s) == Playfair.Prefixed(head.value, EncipherText(table, s[2..]));
        MissingTail(table, s);
      }
    }
  }

  /** Some character of `s` is not in the table. */
  predicate Missing(table: string, s: string) {
    exists i :: 0 <= i < |s| && s[i] !in table
  }

  lemma MissingHead(table: string, s: string)
    requires |s| >= 2 && (s[0] !in table || s[1] !in table)
    ensures Missing(table, s)
  {
    if s[0] !in table {
      assert s[0] !in table;
    } else {
      assert s[1] !in table;
    }
  }

  lemma MissingTail(table: string, s: string)
    requires |s| >= 2 && s[0] in table && s[1] in table
    ensures Missing(table, s) <==> Missing(table, s[2..])
  {
    if Missing(table, s) {
      var i :| 0 <= i < |s| && s[i] !in table;
      assert s[2..][i - 2] !in table;
    }
    if Missing(table, s[2..]) {
      var i :| 0 <= i < |s[2..]| && s[2..][i] !in table;
      assert s[i + 2] !in table;
    }
  }

  /** On a grid, the output holds only table letters. */
  lemma {:induction false} EncipherTextInTable(table: string, s: string)
    requires Playfair.IsGrid(table) && EncipherText(table, s).Ok?
    ensures forall i :: 0 <= i < |s| ==> EncipherText(table, s).value[i] in table
    decreases |s|
  {
    if s != [] {
      Playfair.EncipherPairInTable(table, s[0], s[1]);
      var head := Playfair.EncipherPair(table, s[0], s[1]).value;
      var rest := EncipherText(table, s[2..]).value;
      assert EncipherText(table, s) == Ok(head + rest);
      EncipherTextInTable(table, s[2..]);
      InTableConcat(table, head, rest);
    }
  }

  lemma InTableConcat(table: string, a: string, b: string)
    requires forall i :: 0 <= i < |a| ==> a[i] in table
    requires forall i :: 0 <= i < |b| ==> b[i] in table
    ensures forall i :: 0 <= i < |a + b| ==> (a + b)[i] in table
  {
    forall i | |a| <= i < |a + b| ensures (a + b)[i] in table {
      assert (a + b)[i] == b[i - |a|];
    }
  }

  /** Pair by pair, the output is the digraph rule applied to the text's pair at the same place. */
  lemma {:induction false} EncipherTextPairs(table: string, s: string, k: nat)
    requires 2 * k < |s| && EncipherText(table, s).Ok?
    ensures 2 * k + 1 < |s| && s[2 * k] in table && s[2 * k + 1] in table
    ensures Playfair.EncipherPair(table, s[2 * k], s[2 * k + 1]).Ok?
    ensures EncipherText(table, s).value[2 * k] == Playfair.EncipherPair(table, s[2 * k], s[2 * k + 1]).value[0]
    ensures EncipherText(table, s).value[2 * k + 1] == Playfair.EncipherPair(table, s[2 * k], s[2 * k + 1]).value[1]
    decreases k
  {
    var head := Playfair.EncipherPair(table, s[0], s[1]);
    var rest := EncipherText(table, s[2..]);
    var e := EncipherText(table, s).value;
    assert e == head.value + rest.value;
    if k > 0 {
      EncipherTextPairs(table, s[2..], k - 1);
      var i := 2 * k;
      assert s[2..][i - 2] == s[i] && s[2..][i - 1] == s[i + 1];
      assert e[i] == rest.value[i - 2] && e[i + 1] == rest.value[i - 1];
    }
  }

  /** There are no fillers between equal letters: on a grid they share a row and come out as two equal letters. */
  lemma EncipherTextDouble(table: string, s: string, k: nat)
    requires 2 * k + 1 < |s| && EncipherText(table, s).Ok? && Playfair.IsGrid(table) && s[2 * k] == s[2 * k + 1]
    ensures EncipherText(table, s).value[2 * k] == EncipherText(table, s).value[2 * k + 1]
  {
    EncipherTextPairs(table, s, k);
    Playfair.EncipherDouble(table, s[2 * k]);
  }

  /** On a grid, the digraph decryption rule of the one-stage cipher, applied pair by pair, gives the text back. */
  lemma {:induction false} DecipherEncipherText(table: string, s: string)
    requires Playfair.IsGrid(table) && EncipherText(table, s).Ok?
    ensures Playfair.DecipherUnits(table, PairsOf(EncipherText(table, s).value)) == Ok(s)
    decreases |s|
  {
    if s != [] {
      var head := Playfair.EncipherPair(table, s[0], s[1]).value;
      var rest := EncipherText(table, s[2..]).value;
      var e := head + rest;
      assert EncipherText(table, s).value == e;
      Playfair.DecipherEncipherPair(table, s[0], s[1]);
      DecipherEncipherText(table, s[2..]);
      assert e[..2] == head && e[2..] == rest;
      assert PairsOf(e) == [head] + PairsOf(rest);
      assert PairsOf(e)[1..] == PairsOf(rest);
      assert Playfair.DecipherUnit(table, head) == Ok([s[0], s[1]]);
      assert s == [s[0], s[1]] + s[2..];
    }
  }

  /**
   * `playfair_encrypt(text, table)`: on a grid it fails exactly when a cleaned character is missing from
   * the table; otherwise its output is as long as the cleaned text, holds only table letters, and
   * deciphering it pair by pair gives the cleaned text back.
   */
  lemma EncryptSpec(text: string, table: string)
    requires Playfair.IsGrid(table)
    ensures Encrypt(text, table).Err? <==> Missing(table, Clean(text))
    ensures Encrypt(text, table).Err? ==> Encrypt(text, table).error == NotFound
    ensures Encrypt(text, table).Ok? ==>
              |Encrypt(text, table).value| == |Clean(text)| &&
              (forall i :: 0 <= i < |Clean(text)| ==> Encrypt(text, table).value[i] in table) &&
              Playfair.DecipherUnits(table, PairsOf(Encrypt(text, table).value)) == Ok(Clean(text))
  {
    var m := |Clean(text)| / 2;
    EncipherTextGrid(table, Clean(text), m);
    if Encrypt(text, table).Ok? {
      EncipherTextInTable(table, Clean(text));
      DecipherEncipherText(table, Clean(text));
    }
  }
}
