/** Vigenère key recovery once the key length is guessed: residue classes, their most frequent letter, and the key. */
module KeyRecovery {

  import opened Wrappers
  import opened Ascii
  import opened Seqs
  import Arith
  import Vigenere

  // ----- split_text_by_key_length -----

  /** `"".join(text[i] for i in range(j, len(text), step))`. */
  function Column(text: string, j: nat, step: nat): string
    requires step > 0
    decreases |text| - j
  {
    if j >= |text| then [] else [text[j]] + Column(text, j + step, step)
  }

  /** `split_text_by_key_length`: one residue class of positions per key position; no classes when the length is not positive. */
  function SplitByKeyLength(text: string, keyLength: int): (parts: seq<string>)
    ensures |parts| == if keyLength > 0 then keyLength else 0
  {
    if keyLength <= 0 then [] else seq(keyLength, j requires 0 <= j < keyLength => Column(text, j, keyLength))
  }

  /** Character `m` of class `j` is the text's character at `j + m * step`. */
  lemma {:induction false} ColumnAt(text: string, j: nat, step: nat, m: nat)
    requires step > 0 && m < |Column(text, j, step)|
    ensures j + m * step < |text| && Column(text, j, step)[m] == text[j + m * step]
    decreases |text| - j
  {
    if m > 0 {
      ColumnAt(text, j + step, step, m - 1);
      assert (j + step) + (m - 1) * step == j + m * step;
    }
  }

  /** Every position `i >= j` congruent to `j` lands in class `j`, at index `(i - j) / step`. */
  lemma {:induction false} ColumnComplete(text: string, j: nat, step: nat, i: nat)
    requires step > 0 && j <= i < |text| && (i - j) % step == 0
    ensures (i - j) / step < |Column(text, j, step)| && Column(text, j, step)[(i - j) / step] == text[i]
    decreases |text| - j
  {
    if i == j {
      assert (i - j) / step == 0;
    } else {
      var q := (i - j) / step;
      assert i - j == q * step;
      if q == 0 {
        assert false;
      }
      Arith.DivModUnique(i - (j + step), q - 1, 0, step);
      ColumnComplete(text, j + step, step, i);
    }
  }

  /** A class is empty exactly when it starts past the end of the text. */
  lemma ColumnEmpty(text: string, j: nat, step: nat)
    requires step > 0
    ensures Column(text, j, step) == [] <==> j >= |text|
  {
  }

  /** `x - step` and `x` leave the same remainder. */
  lemma ModShift(x: int, step: int)
    requires 0 < step <= x
    ensures (x - step) % step == x % step
  {
    Arith.DivModUnique(x - step, x / step - 1, x % step, step);
  }

  /** Appending `c` at position `|text|` extends exactly the class that position belongs to. */
  lemma {:induction false} ColumnAppend(text: string, c: char, j: nat, step: nat)
    requires step > 0
    ensures Column(text + [c], j, step) ==
            Column(text, j, step) + if j <= |text| && (|text| - j) % step == 0 then [c] else []
    decreases |text| - j
  {
    var n := |text|;
    if j < n {
      ColumnAppend(text, c, j + step, step);
      assert (text + [c])[j] == text[j];
      if n - j >= step {
        ModShift(n - j, step);
      } else {
        Arith.DivModUnique(n - j, 0, n - j, step);
      }
    } else if j == n {
      assert Column(text + [c], j + step, step) == [];
    }
  }

  /** For `0 <= j < step`, position `n` is in class `j` exactly when `j == n % step`. */
  lemma ClassOf(n: nat, j: nat, step: nat)
    requires 0 <= j < step
    ensures (j <= n && (n - j) % step == 0) <==> j == n % step
  {
    var q, r := n / step, n % step;
    assert n == q * step + r;
    Arith.MulNonneg(q, step);
    if j == r {
      Arith.DivModUnique(n - j, q, 0, step);
    }
    if j <= n && (n - j) % step == 0 {
      Arith.MulNonneg((n - j) / step, step);
      Arith.DivModUnique(n, (n - j) / step, j, step);
    }
  }

  /** Extending one of the parts by `c` adds one `c` to their concatenation. */
  lemma {:induction false} FlattenExtendOne(a: seq<string>, b: seq<string>, r: int, c: char)
    requires |a| == |b|
    requires forall j :: 0 <= j < |a| ==> b[j] == a[j] + if j == r then [c] else []
    ensures multiset(Flatten(b)) == multiset(Flatten(a)) + if 0 <= r < |a| then multiset{c} else multiset{}
  {
    if a != [] {
      FlattenExtendOne(a[1..], b[1..], r - 1, c);
    }
  }

  lemma {:induction false} FlattenEmpties(a: seq<string>)
    requires forall j :: 0 <= j < |a| ==> a[j] == []
    ensures Flatten(a) == []
  {
    if a != [] {
      FlattenEmpties(a[1..]);
    }
  }

  /** The classes together hold every character of the text exactly once. */
  lemma {:induction false} SplitPreserves(text: string, keyLength: int)
    requires keyLength > 0
    ensures multiset(Flatten(SplitByKeyLength(text, keyLength))) == multiset(text)
  {
    var b := SplitByKeyLength(text, keyLength);
    if text == [] {
      FlattenEmpties(b);
    } else {
      var p, c := text[..|text| - 1], text[|text| - 1];
      assert text == p + [c];
      SplitPreserves(p, keyLength);
      SplitAppend(p, c, keyLength);
      FlattenExtendOne(SplitByKeyLength(p, keyLength), b, |p| % keyLength, c);
    }
  }

  /** Appending `c` to the text extends exactly the class of its position. */
  lemma SplitAppend(p: string, c: char, keyLength: int)
    requires keyLength > 0
    ensures var a, b := SplitByKeyLength(p, keyLength), SplitByKeyLength(p + [c], keyLength);
      forall j :: 0 <= j < keyLength ==> b[j] == a[j] + if j == |p| % keyLength then [c] else []
  {
    forall j | 0 <= j < keyLength
      ensures SplitByKeyLength(p + [c], keyLength)[j] ==
              SplitByKeyLength(p, keyLength)[j] + if j == |p| % keyLength then [c] else []
    {
      ColumnAppend(p, c, j, keyLength);
      ClassOf(|p|, j, keyLength);
    }
  }

  /** So the total length of the classes is the text's length. */
  lemma SplitLength(text: string, keyLength: int)
    requires keyLength > 0
    ensures |Flatten(SplitByKeyLength(text, keyLength))| == |text|
  {
    SplitPreserves(text, keyLength);
    assert |multiset(Flatten(SplitByKeyLength(text, keyLength)))| == |multiset(text)|;
  }

  // ----- get_most_frequent_letter -----

  /** `max(keys, key=m.__getitem__)`: a key of the largest count, the first one among equals. */
  function FirstMax(keys: seq<char>, m: multiset<char>): (r: char)
    requires keys != []
    ensures r in keys
  {
    if |keys| == 1 then keys[0]
    else
      var b := FirstMax(keys[..|keys| - 1], m);
      if m[keys[|keys| - 1]] > m[b] then keys[|keys| - 1] else b
  }

  /** No key counts more than the chosen one, and every key before it counts strictly less. */
  lemma {:induction false} FirstMaxSpec(keys: seq<char>, m: multiset<char>)
    requires keys != []
    ensures forall x :: x in keys ==> m[x] <= m[FirstMax(keys, m)]
    ensures forall i :: 0 <= i < FirstIndex(keys, FirstMax(keys, m)) ==> m[keys[i]] < m[FirstMax(keys, m)]
  {
    if |keys| > 1 {
      var p, x := keys[..|keys| - 1], keys[|keys| - 1];
      assert keys == p + [x];
      FirstMaxSpec(p, m);
      var b := FirstMax(p, m);
      FirstIndexPrefix(keys, b, |p|);
      assert keys[..|p|] == p;
      if m[x] > m[b] {
        forall i | 0 <= i < FirstIndex(keys, x) ensures m[keys[i]] < m[x] {
          assert keys[i] in p;
        }
      }
    }
  }

  /** `Counter(text).most_common(1)[0][0]`: an empty text has no entry, and indexing `[0]` fails. */
  function MostFrequent(text: string): (r: Result<char>)
    ensures r.Err? <==> text == []
    ensures r.Err? ==> r.error == IndexOutOfRange
  {
    if text == [] then Err(IndexOutOfRange) else Ok(FirstMax(Dedup(text), multiset(text)))
  }

  /** The letter returned occurs in the text, has the largest count, and occurs first among equally frequent ones. */
  lemma MostFrequentSpec(text: string)
    requires text != []
    ensures MostFrequent(text).value in text
    ensures forall x :: x in text ==> multiset(text)[x] <= multiset(text)[MostFrequent(text).value]
    ensures forall x :: x in text && multiset(text)[x] == multiset(text)[MostFrequent(text).value] ==>
              FirstIndex(text, MostFrequent(text).value) <= FirstIndex(text, x)
  {
    var keys, m := Dedup(text), multiset(text);
    var c := MostFrequent(text).value;
    DedupHas(text, c);
    FirstMaxSpec(keys, m);
    forall x | x in text ensures m[x] <= m[c] {
      DedupHas(text, x);
    }
    forall x | x in text && m[x] == m[c] ensures FirstIndex(text, c) <= FirstIndex(text, x) {
      DedupHas(text, x);
      var ix, ic := FirstIndex(keys, x), FirstIndex(keys, c);
      assert keys[ix] == x;
      if ic < ix {
        DedupOrderOf(text, c, x);
      }
    }
  }

  // ----- find_key -----

  /** `chr(65 + (ord(c) - ord("E")) % 26)`: the key letter that would turn `c` back into `E`. */
  function KeyLetterFor(c: char): (k: char)
    ensures IsUpper(k)
  {
    Capital((c as int - 'E' as int) % 26)
  }

  /** The guessed key letter deciphers the class's most frequent uppercase letter to `E`. */
  lemma KeyLetterDeciphersToE(c: char)
    requires IsUpper(c)
    ensures Vigenere.Shift(c, -LetterIndex(KeyLetterFor(c))) == 'E'
  {
    var s := (c as int - 'E' as int) % 26;
    assert LetterIndex(KeyLetterFor(c)) == s;
    var d := Vigenere.Shift(c, -s);
    assert LetterIndex(d) == (LetterIndex(c) - s) % 26;
    Arith.DivModUnique(LetterIndex(c) - s, if LetterIndex(c) >= 4 then 0 else -1, 4, 26);
  }

  /** The key `find_key` builds from the classes: a key letter per class; an empty class makes `most_common(1)[0]` fail. */
  function KeyOfClasses(parts: seq<string>): Result<string> {
    if exists j :: 0 <= j < |parts| && parts[j] == [] then Err(IndexOutOfRange)
    else Ok(seq(|parts|, j requires 0 <= j < |parts| => KeyLetterFor(MostFrequent(parts[j]).value)))
  }

  /** `find_key(text, key_length)`, as a value. */
  function RecoverKey(text: string, keyLength: int): Result<string> {
    KeyOfClasses(SplitByKeyLength(text, keyLength))
  }

  /** The loop of `find_key` over the classes, building the key one letter at a time. */
  method KeyFromClasses(parts: seq<string>) returns (r: Result<string>)
    ensures r == KeyOfClasses(parts)
  {
    var key := "";
    var j := 0;
    while j < |parts|
      invariant 0 <= j <= |parts| && |key| == j
      invariant forall i :: 0 <= i < j ==> parts[i] != [] && key[i] == KeyLetterFor(MostFrequent(parts[i]).value)
    {
      var mostCommon := MostFrequent(parts[j]);
      if mostCommon.Err? {
        assert parts[j] == [];
        return Err(mostCommon.error);
      }
      key := key + [KeyLetterFor(mostCommon.value)];
      j := j + 1;
    }
    assert key == seq(|parts|, i requires 0 <= i < |parts| => KeyLetterFor(MostFrequent(parts[i]).value));
    return Ok(key);
  }

  /** `find_key`: the text split into classes, then a key letter per class. */
  method FindKey(cipherText: string, keyLength: int) returns (r: Result<string>)
    ensures r == RecoverKey(cipherText, keyLength)
  {
    var cipherTextSplit := SplitByKeyLength(cipherText, keyLength);
    r := KeyFromClasses(cipherTextSplit);
  }

  /**
   * Key recovery fails exactly when the guessed length is positive and longer than the text;
   * otherwise the key has one uppercase letter per class, and is a usable Vigenère key when non-empty.
   */
  lemma RecoverKeySpec(text: string, keyLength: int)
    ensures RecoverKey(text, keyLength).Err? <==> 0 < keyLength && |text| < keyLength
    ensures RecoverKey(text, keyLength).Ok? ==>
              var key := RecoverKey(text, keyLength).value;
              |key| == (if keyLength > 0 then keyLength else 0) &&
              (forall j :: 0 <= j < |key| ==> IsUpper(key[j])) &&
              (keyLength > 0 ==> Vigenere.ValidKey(key))
  {
    var parts := SplitByKeyLength(text, keyLength);
    if 0 < keyLength && |text| < keyLength {
      ColumnEmpty(text, |text|, keyLength);
      assert parts[|text|] == [];
    }
    forall j | 0 <= j < |parts| ensures parts[j] == [] <==> j >= |text| {
      ColumnEmpty(text, j, keyLength);
    }
  }

  /** Letter `j` of a recovered key comes from the most frequent character at positions `j, j + L, j + 2L, ...`. */
  lemma RecoverKeyLetter(text: string, keyLength: int, j: nat)
    requires RecoverKey(text, keyLength).Ok? && j < |RecoverKey(text, keyLength).value|
    ensures keyLength > 0 && j < |text|
    ensures var part := Column(text, j, keyLength);
            part != [] && part[0] == text[j] &&
            RecoverKey(text, keyLength).value[j] == KeyLetterFor(MostFrequent(part).value)
  {
    RecoverKeySpec(text, keyLength);
    ColumnEmpty(text, j, keyLength);
  }
}
