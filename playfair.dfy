/**
 * The Playfair cipher: a keyword table of the capitals other than J read row by row as a 5x5 grid,
 * the splitting of a text into digraphs with 'X' fillers, and the row, column and rectangle rules.
 */
module Playfair {

  import opened Wrappers
  import opened Ascii
  import opened Seqs

  /** `string.ascii_uppercase.replace("J", "")`: the 25 capitals other than J, in order. */
  function Alphabet25(): (s: string)
    ensures s == "ABCDEFGHIKLMNOPQRSTUVWXYZ"
    ensures |s| == 25 && Distinct(s)
    ensures forall i :: 0 <= i < 25 ==> IsUpper(s[i]) && s[i] != 'J'
  {
    seq(25, i requires 0 <= i < 25 => if i < 9 then (65 + i) as char else (66 + i) as char)
  }

  /** Every capital other than J is in the alphabet. */
  lemma Alphabet25Has(c: char)
    ensures c in Alphabet25() <==> IsUpper(c) && c != 'J'
  {
    if IsUpper(c) && c != 'J' {
      var i := if c < 'J' then c as int - 65 else c as int - 66;
      assert Alphabet25()[i] == c;
    }
  }

  /** The elements of a sequence, as a set. */
  function Elements(s: string): (e: set<char>)
    ensures forall x :: x in e <==> x in s
  {
    set x | x in s
  }

  /** A sequence that repeats nothing has as many elements as positions. */
  lemma {:induction false} DistinctElements(s: string)
    requires Distinct(s)
    ensures |Elements(s)| == |s|
  {
    if s != [] {
      var s' := s[..|s| - 1];
      DistinctElements(s');
      assert Elements(s) == Elements(s') + {s[|s| - 1]};
      assert s[|s| - 1] !in s';
    }
  }

  /** `generate_cipher_table(keyword)`: the keyword's distinct characters, then the unused letters of the alphabet. */
  function CipherTable(keyword: string): string {
    Dedup(keyword) + Filter(Alphabet25(), NotIn(Dedup(keyword)))
  }

  /** The test `c not in key_letters`. */
  function NotIn(s: string): char -> bool {
    c => c !in s
  }

  /**
   * For any keyword the table repeats nothing, starts with the keyword's distinct characters in order of
   * first occurrence, and holds exactly the keyword's characters and the capitals other than J.
   */
  lemma CipherTableSpec(keyword: string)
    ensures Distinct(CipherTable(keyword))
    ensures CipherTable(keyword)[..|Dedup(keyword)|] == Dedup(keyword)
    ensures forall c :: c in CipherTable(keyword) <==> c in keyword || (IsUpper(c) && c != 'J')
  {
    var key := Dedup(keyword);
    var rest := Filter(Alphabet25(), NotIn(key));
    var table := key + rest;
    FilterDistinct(Alphabet25(), NotIn(key));
    forall i, j | 0 <= i < j < |table| ensures table[i] != table[j] {
      if i < |key| <= j {
        FilterHas(Alphabet25(), NotIn(key), table[j]);
      }
    }
    forall c ensures c in table <==> c in keyword || (IsUpper(c) && c != 'J') {
      DedupHas(keyword, c);
      FilterHas(Alphabet25(), NotIn(key), c);
      Alphabet25Has(c);
    }
  }

  /** A keyword whose characters are all capitals other than J, as the table assumes. */
  ghost predicate ValidKeyword(keyword: string) {
    forall i :: 0 <= i < |keyword| ==> IsUpper(keyword[i]) && keyword[i] != 'J'
  }

  /** A table read as a 5x5 grid: 25 different characters. */
  ghost predicate IsGrid(table: string) {
    |table| == 25 && Distinct(table)
  }

  /** For a keyword of capitals other than J, the table is a grid of the 25 capitals other than J. */
  lemma CipherTableGrid(keyword: string)
    requires ValidKeyword(keyword)
    ensures IsGrid(CipherTable(keyword))
    ensures forall c :: c in CipherTable(keyword) <==> IsUpper(c) && c != 'J'
    ensures 'J' !in CipherTable(keyword)
  {
    var table := CipherTable(keyword);
    CipherTableSpec(keyword);
    assert Elements(table) == Elements(Alphabet25()) by {
      forall c ensures c in table <==> c in Alphabet25() {
        Alphabet25Has(c);
      }
    }
    DistinctElements(table);
    DistinctElements(Alphabet25());
  }

  // Digraph splitting (`split_text`)

  /** `text.replace("J", "I").upper()`: the J's are replaced before the case is raised. */
  function Prepare(text: string): (t: string)
    ensures |t| == |text|
  {
    UpperText(ReplaceChar(text, 'J', 'I'))
  }

  /** The units the loop of `split_text` appends for the rest `t` of the prepared text. */
  function Units(t: string): seq<string>
    decreases |t|
  {
    if t == [] then []
    else if !IsUpper(t[0]) then [[t[0]]] + Units(t[1..])
    else if |t| == 1 then [[t[0], 'X']]
    else if !IsUpper(t[1]) then [[t[0], 'X'], [t[1]]] + Units(t[2..])
    else if t[0] == t[1] then [[t[0], 'X']] + Units(t[1..])
    else [[t[0], t[1]]] + Units(t[2..])
  }

  /** `pairs[-1]` on an empty list fails; a last unit that is a single character gets an 'X'. */
  function FixLast(units: seq<string>): Result<seq<string>> {
    if units == [] then Err(IndexOutOfRange)
    else
      var last := units[|units| - 1];
      if |last| == 1 && !IsUpper(last[0]) then Ok(units[|units| - 1 := last + "X"]) else Ok(units)
  }

  /** `split_text(text)`, as a value. */
  function Digraphs(text: string): Result<seq<string>>
    requires IsAsciiText(text)
  {
    FixLast(Units(Prepare(text)))
  }

  /** A unit the loop emits: a single non-capital, or a capital followed by a capital. */
  predicate LoopUnit(u: string) {
    (|u| == 1 && !IsUpper(u[0])) || (|u| == 2 && IsUpper(u[0]) && IsUpper(u[1]))
  }

  /** Two equal characters in a unit only ever come as "XX". */
  predicate NoDouble(u: string) {
    |u| == 2 && u[0] == u[1] ==> u == "XX"
  }

  /** Every unit of the loop is a lone non-capital or two capitals, never two equal letters other than "XX". */
  lemma {:induction false} UnitsShape(t: string)
    ensures forall k :: 0 <= k < |Units(t)| ==> LoopUnit(Units(t)[k]) && NoDouble(Units(t)[k])
    ensures Units(t) == [] <==> t == []
    decreases |t|
  {
    if t != [] {
      if !IsUpper(t[0]) || (|t| > 1 && t[0] == t[1]) {
        UnitsShape(t[1..]);
      } else if |t| > 1 {
        UnitsShape(t[2..]);
      }
    }
  }

  /** Removing every 'X' from the units gives back the text with its X's removed: splitting only adds fillers. */
  lemma {:induction false} UnitsContent(t: string)
    ensures RemoveChar(Flatten(Units(t)), 'X') == RemoveChar(t, 'X')
    decreases |t|
  {
    if t != [] {
      var a := t[0];
      if !IsUpper(a) {
        UnitsContent(t[1..]);
        FlattenOne([a]);
        assert t[..1] == [a];
        UnitsContentStep(t, 1, [[a]]);
      } else if |t| == 1 {
        assert t[1..] == [] && t[..1] == [a];
        assert Units(t[1..]) == [];
        assert Units(t) == [[a, 'X']] + Units(t[1..]);
        FlattenOne([a, 'X']);
        RemoveX2(a, 'X');
        UnitsContent(t[1..]);
        UnitsContentStep(t, 1, [[a, 'X']]);
      } else if !IsUpper(t[1]) {
        UnitsContent(t[2..]);
        RemoveX2(a, 'X');
        RemoveConcat([a, 'X'], [t[1]]);
        RemoveConcat([a], [t[1]]);
        FlattenOne([t[1]]);
        assert Flatten([[a, 'X'], [t[1]]]) == [a, 'X'] + Flatten([[t[1]]]);
        assert t[..2] == [a] + [t[1]];
        UnitsContentStep(t, 2, [[a, 'X'], [t[1]]]);
      } else if a == t[1] {
        UnitsContent(t[1..]);
        FlattenOne([a, 'X']);
        RemoveX2(a, 'X');
        assert t[..1] == [a];
        UnitsContentStep(t, 1, [[a, 'X']]);
      } else {
        UnitsContent(t[2..]);
        FlattenOne([a, t[1]]);
        assert t[..2] == [a, t[1]];
        UnitsContentStep(t, 2, [[a, t[1]]]);
      }
    }
  }

  /** Removing the X's from a unit and its rest is removing them from both in turn. */
  lemma UnitsContentStep(t: string, n: nat, head: seq<string>)
    requires n <= |t| && Units(t) == head + Units(t[n..])
    requires RemoveChar(Flatten(head), 'X') == RemoveChar(t[..n], 'X')
    requires RemoveChar(Flatten(Units(t[n..])), 'X') == RemoveChar(t[n..], 'X')
    ensures RemoveChar(Flatten(Units(t)), 'X') == RemoveChar(t, 'X')
  {
    FlattenConcat(head, Units(t[n..]));
    RemoveConcat(Flatten(head), Flatten(Units(t[n..])));
    assert t == t[..n] + t[n..];
    RemoveConcat(t[..n], t[n..]);
  }

  /** A letter and its filler 'X' leave the letter alone once the X's are removed. */
  lemma RemoveX2(a: char, x: char)
    requires x == 'X'
    ensures RemoveChar([a, x], 'X') == RemoveChar([a], 'X')
  {
    assert [a, x][..1] == [a];
  }

  lemma RemoveConcat(a: string, b: string)
    ensures RemoveChar(a + b, 'X') == RemoveChar(a, 'X') + RemoveChar(b, 'X')
  {
    FilterConcat(a, b, x => x != 'X');
  }

  /**
   * `split_text` fails exactly on the empty text. Otherwise every unit but the last is a lone non-capital
   * or two capitals, the last has two characters (a non-capital left alone at the end takes an 'X'), no unit
   * holds two equal characters other than "XX", and dropping the X's gives the prepared text without its X's.
   */
  lemma DigraphsSpec(text: string)
    requires IsAsciiText(text)
    ensures Digraphs(text).Err? <==> text == []
    ensures Digraphs(text).Err? ==> Digraphs(text).error == IndexOutOfRange
    ensures Digraphs(text).Ok? ==>
              var units := Digraphs(text).value;
              |units| > 0 &&
              (forall k :: 0 <= k < |units| - 1 ==> LoopUnit(units[k])) &&
              (forall k :: 0 <= k < |units| ==> NoDouble(units[k]) && (|units[k]| == 1 || |units[k]| == 2)) &&
              |units[|units| - 1]| == 2 &&
              (IsUpper(units[|units| - 1][0]) || units[|units| - 1][1] == 'X') &&
              RemoveChar(Flatten(units), 'X') == RemoveChar(Prepare(text), 'X')
  {
    var t := Prepare(text);
    UnitsShape(t);
    UnitsContent(t);
    FixLastShape(Units(t));
    if t != [] {
      FixLastContent(Units(t));
    }
  }

  /** The fix-up fails only on no units, and leaves every unit of the loop's shape with two characters at the end. */
  lemma FixLastShape(u: seq<string>)
    requires forall k :: 0 <= k < |u| ==> LoopUnit(u[k]) && NoDouble(u[k])
    ensures FixLast(u).Err? <==> u == []
    ensures FixLast(u).Err? ==> FixLast(u).error == IndexOutOfRange
    ensures FixLast(u).Ok? ==>
              var units := FixLast(u).value;
              |units| == |u| > 0 &&
              (forall k :: 0 <= k < |units| - 1 ==> units[k] == u[k]) &&
              (forall k :: 0 <= k < |units| ==> NoDouble(units[k]) && (|units[k]| == 1 || |units[k]| == 2)) &&
              |units[|units| - 1]| == 2 &&
              (IsUpper(units[|units| - 1][0]) || units[|units| - 1][1] == 'X')
  {
    if u != [] {
      var last := u[|u| - 1];
      assert LoopUnit(last);
    }
  }

  /** The fix-up only adds an 'X'. */
  lemma FixLastContent(u: seq<string>)
    requires u != []
    ensures FixLast(u).Ok? && RemoveChar(Flatten(FixLast(u).value), 'X') == RemoveChar(Flatten(u), 'X')
  {
    var n := |u|;
    var last := u[n - 1];
    if |last| == 1 && !IsUpper(last[0]) {
      var fixed := u[n - 1 := last + "X"];
      assert fixed == u[..n - 1] + [last + "X"];
      assert u == u[..n - 1] + [last];
      FlattenConcat(u[..n - 1], [last + "X"]);
      FlattenConcat(u[..n - 1], [last]);
      FlattenOne(last + "X");
      FlattenOne(last);
      RemoveConcat(Flatten(u[..n - 1]), last + "X");
      RemoveConcat(Flatten(u[..n - 1]), last);
      RemoveConcat(last, "X");
      assert RemoveChar("X", 'X') == [];
    }
  }

  /** One step of the loop of `split_text` at index `i`: the units it emits and the index it moves to. */
  lemma UnitsAt(t: string, i: nat)
    requires i < |t|
    ensures !IsUpper(t[i]) ==> Units(t[i..]) == [[t[i]]] + Units(t[i + 1..])
    ensures IsUpper(t[i]) && i + 1 == |t| ==> Units(t[i..]) == [[t[i], 'X']] + Units(t[i + 1..])
    ensures IsUpper(t[i]) && i + 1 < |t| && !IsUpper(t[i + 1]) ==>
              Units(t[i..]) == [[t[i], 'X'], [t[i + 1]]] + Units(t[i + 2..])
    ensures IsUpper(t[i]) && i + 1 < |t| && IsUpper(t[i + 1]) && t[i] == t[i + 1] ==>
              Units(t[i..]) == [[t[i], 'X']] + Units(t[i + 1..])
    ensures IsUpper(t[i]) && i + 1 < |t| && IsUpper(t[i + 1]) && t[i] != t[i + 1] ==>
              Units(t[i..]) == [[t[i], t[i + 1]]] + Units(t[i + 2..])
  {
    var u := t[i..];
    assert u[0] == t[i] && u[1..] == t[i + 1..];
    if i + 1 < |t| {
      assert u[1] == t[i + 1] && u[2..] == t[i + 2..];
    } else {
      assert |u| == 1 && t[i + 1..] == [];
      assert Units(t[i + 1..]) == [];
    }
  }

  /** Appending what one step emits keeps the units found so far followed by the units of the rest. */
  lemma UnitsLoopStep(t: string, i: nat, pairs: seq<string>, emit: seq<string>, next: nat)
    requires i <= next <= |t|
    requires pairs + Units(t[i..]) == Units(t) && Units(t[i..]) == emit + Units(t[next..])
    ensures (pairs + emit) + Units(t[next..]) == Units(t)
  {
    assert (pairs + emit) + Units(t[next..]) == pairs + (emit + Units(t[next..]));
  }

  /** `split_text`: the `while` loop over `i`, then the fix-up of `pairs[-1]`. */
  method SplitText(text: string) returns (r: Result<seq<string>>)
    requires IsAsciiText(text)
    ensures r == Digraphs(text)
  {
    var t := UpperText(ReplaceChar(text, 'J', 'I'));
    var pairs: seq<string> := [];
    var i := 0;
    while i < |t|
      invariant 0 <= i <= |t|
      invariant pairs + Units(t[i..]) == Units(t)
    {
      var a := t[i];
      var emit: seq<string>, next: nat;
      if !IsUpper(a) {
        emit, next := [[a]], i + 1;
      } else if i + 1 < |t| {
        var b := t[i + 1];
        if !IsUpper(b) {
          emit, next := [[a, 'X'], [b]], i + 2;
        } else if a == b {
          emit, next := [[a, 'X']], i + 1;
        } else {
          emit, next := [[a, b]], i + 2;
        }
      } else {
        emit, next := [[a, 'X']], i + 1;
      }
      UnitsAt(t, i);
      UnitsLoopStep(t, i, pairs, emit, next);
      pairs := pairs + emit;
      i := next;
    }
    assert t == Prepare(text);
    assert t[|t|..] == [] && Units(t[|t|..]) == [];
    assert pairs == Units(t);
    if |pairs| == 0 {
      return Err(IndexOutOfRange);
    }
    var last := pairs[|pairs| - 1];
    if |last| == 1 && !IsUpper(last[0]) {
      pairs := pairs[|pairs| - 1 := last + "X"];
    }
    r := Ok(pairs);
  }

  // The digraph rules (`playfair_encrypt`, `playfair_decrypt`)

  /** A row and a column of the grid. */
  datatype Pos = Pos(row: int, col: int)

  /** `divmod(i, 5)`: the row and column of cell `i`. */
  function PosOf(i: nat): Pos {
    Pos(i / 5, i % 5)
  }

  /** The cell number `row * 5 + col` of a position. */
  function CellOf(p: Pos): int {
    p.row * 5 + p.col
  }

  predicate InGrid(p: Pos) {
    0 <= p.row < 5 && 0 <= p.col < 5
  }

  /**
   * The encryption rule on positions: in a shared row each letter moves one column right, in a
   * shared column one row down (both cyclically), and otherwise each takes the other's column.
   */
  function EncipherPositions(a: Pos, b: Pos): (Pos, Pos) {
    if a.row == b.row then (Pos(a.row, (a.col + 1) % 5), Pos(b.row, (b.col + 1) % 5))
    else if a.col == b.col then (Pos((a.row + 1) % 5, a.col), Pos((b.row + 1) % 5, b.col))
    else (Pos(a.row, b.col), Pos(b.row, a.col))
  }

  /** The decryption rule on positions: one column left, one row up, or the other's column. */
  function DecipherPositions(a: Pos, b: Pos): (Pos, Pos) {
    if a.row == b.row then (Pos(a.row, (a.col - 1) % 5), Pos(b.row, (b.col - 1) % 5))
    else if a.col == b.col then (Pos((a.row - 1) % 5, a.col), Pos((b.row - 1) % 5, b.col))
    else (Pos(a.row, b.col), Pos(b.row, a.col))
  }

  /** Reading the letters at two positions; a cell past the end of the table fails. */
  function Cells(table: string, p: Pos, q: Pos): (r: Result<string>)
    ensures r.Ok? <==> 0 <= CellOf(p) < |table| && 0 <= CellOf(q) < |table|
    ensures r.Ok? ==> r.value == [table[CellOf(p)], table[CellOf(q)]]
    ensures r.Err? ==> r.error == IndexOutOfRange
  {
    if 0 <= CellOf(p) < |table| && 0 <= CellOf(q) < |table| then Ok([table[CellOf(p)], table[CellOf(q)]])
    else Err(IndexOutOfRange)
  }

  /** The lines of `playfair_encrypt` that encipher a digraph of two table letters. */
  function EncipherPair(table: string, a: char, b: char): Result<string>
    requires a in table && b in table
  {
    var (p, q) := EncipherPositions(PosOf(FirstIndex(table, a)), PosOf(FirstIndex(table, b)));
    Cells(table, p, q)
  }

  /** The lines of `playfair_decrypt` that decipher a digraph of two table letters. */
  function DecipherPair(table: string, a: char, b: char): Result<string>
    requires a in table && b in table
  {
    var (p, q) := DecipherPositions(PosOf(FirstIndex(table, a)), PosOf(FirstIndex(table, b)));
    Cells(table, p, q)
  }

  /** A cell below 25 lies in the grid, at the position `divmod` gives it. */
  lemma PositionOfCell(i: nat)
    requires i < 25
    ensures InGrid(PosOf(i)) && CellOf(PosOf(i)) == i
  {
  }

  /** The cell number of a grid position is below 25 and gives that position back. */
  lemma CellOfPosition(p: Pos)
    requires InGrid(p)
    ensures 0 <= CellOf(p) < 25 && PosOf(CellOf(p)) == p
  {
  }

  /** One step right and one step left, cyclically in 0..4. */
  lemma Steps(c: int)
    requires 0 <= c < 5
    ensures (c + 1) % 5 == if c == 4 then 0 else c + 1
    ensures (c - 1) % 5 == if c == 0 then 4 else c - 1
  {
  }

  /** The encryption rule stays inside the grid, and the decryption rule takes its positions back. */
  lemma DecipherEncipherPositions(a: Pos, b: Pos)
    requires InGrid(a) && InGrid(b)
    ensures InGrid(EncipherPositions(a, b).0) && InGrid(EncipherPositions(a, b).1)
    ensures DecipherPositions(EncipherPositions(a, b).0, EncipherPositions(a, b).1) == (a, b)
  {
    Steps(a.row);
    Steps(a.col);
    Steps(b.row);
    Steps(b.col);
    var (p, q) := EncipherPositions(a, b);
    Steps(p.row);
    Steps(p.col);
    Steps(q.row);
    Steps(q.col);
  }

  /** The decryption rule stays inside the grid, and the encryption rule takes its positions back. */
  lemma EncipherDecipherPositions(a: Pos, b: Pos)
    requires InGrid(a) && InGrid(b)
    ensures InGrid(DecipherPositions(a, b).0) && InGrid(DecipherPositions(a, b).1)
    ensures EncipherPositions(DecipherPositions(a, b).0, DecipherPositions(a, b).1) == (a, b)
  {
    Steps(a.row);
    Steps(a.col);
    Steps(b.row);
    Steps(b.col);
    var (p, q) := DecipherPositions(a, b);
    Steps(p.row);
    Steps(p.col);
    Steps(q.row);
    Steps(q.col);
  }

  /** On a grid the encryption rule succeeds and gives two table letters. */
  lemma EncipherPairInTable(table: string, a: char, b: char)
    requires IsGrid(table) && a in table && b in table
    ensures EncipherPair(table, a, b).Ok?
    ensures |EncipherPair(table, a, b).value| == 2
    ensures EncipherPair(table, a, b).value[0] in table && EncipherPair(table, a, b).value[1] in table
  {
    DecipherEncipherPair(table, a, b);
  }

  /** On a grid the decryption rule undoes the encryption rule, digraph by digraph. */
  lemma DecipherEncipherPair(table: string, a: char, b: char)
    requires IsGrid(table) && a in table && b in table
    ensures EncipherPair(table, a, b).Ok?
    ensures var e := EncipherPair(table, a, b).value;
      |e| == 2 && e[0] in table && e[1] in table && DecipherPair(table, e[0], e[1]) == Ok([a, b])
  {
    var i, j := FirstIndex(table, a), FirstIndex(table, b);
    var pa, pb := PosOf(i), PosOf(j);
    PositionOfCell(i);
    PositionOfCell(j);
    DecipherEncipherPositions(pa, pb);
    var pq := EncipherPositions(pa, pb);
    var p, q := pq.0, pq.1;
    assert EncipherPair(table, a, b) == Cells(table, p, q);
    CellOfPosition(p);
    CellOfPosition(q);
    FirstIndexOfDistinct(table, CellOf(p));
    FirstIndexOfDistinct(table, CellOf(q));
    assert DecipherPair(table, table[CellOf(p)], table[CellOf(q)]) == Cells(table, pa, pb);
  }

  /** And the encryption rule undoes the decryption rule. */
  lemma EncipherDecipherPair(table: string, a: char, b: char)
    requires IsGrid(table) && a in table && b in table
    ensures DecipherPair(table, a, b).Ok?
    ensures var d := DecipherPair(table, a, b).value;
      |d| == 2 && d[0] in table && d[1] in table && EncipherPair(table, d[0], d[1]) == Ok([a, b])
  {
    var i, j := FirstIndex(table, a), FirstIndex(table, b);
    var pa, pb := PosOf(i), PosOf(j);
    PositionOfCell(i);
    PositionOfCell(j);
    EncipherDecipherPositions(pa, pb);
    var pq := DecipherPositions(pa, pb);
    var p, q := pq.0, pq.1;
    assert DecipherPair(table, a, b) == Cells(table, p, q);
    CellOfPosition(p);
    CellOfPosition(q);
    FirstIndexOfDistinct(table, CellOf(p));
    FirstIndexOfDistinct(table, CellOf(q));
    assert EncipherPair(table, table[CellOf(p)], table[CellOf(q)]) == Cells(table, pa, pb);
  }

  /** Two equal letters of a grid share a row, so both move one column right and stay equal. */
  lemma EncipherDouble(table: string, a: char)
    requires IsGrid(table) && a in table
    ensures var p := PosOf(FirstIndex(table, a));
      EncipherPair(table, a, a) == Ok([table[CellOf(Pos(p.row, (p.col + 1) % 5))], table[CellOf(Pos(p.row, (p.col + 1) % 5))]])
  {
    var p := PosOf(FirstIndex(table, a));
    var q := Pos(p.row, (p.col + 1) % 5);
    PositionOfCell(FirstIndex(table, a));
    Steps(p.col);
    CellOfPosition(q);
    assert EncipherPositions(p, p) == (q, q);
    assert EncipherPair(table, a, a) == Cells(table, q, q);
  }

  // Encryption and decryption of the units

  /** One pass of the loop of `playfair_encrypt`: single units and units with a character off the table pass through. */
  function EncipherUnit(table: string, u: string): Result<string>
    requires |u| == 1 || |u| == 2
  {
    if |u| == 1 || u[0] !in table || u[1] !in table then Ok(u)
    else EncipherPair(table, u[0], u[1])
  }

  /** One pass of the loop of `playfair_decrypt`. */
  function DecipherUnit(table: string, u: string): Result<string>
    requires |u| == 1 || |u| == 2
  {
    if |u| == 1 || u[0] !in table || u[1] !in table then Ok(u)
    else DecipherPair(table, u[0], u[1])
  }

  /** Units of one or two characters, as `split_text` returns them. */
  predicate ShortUnits(units: seq<string>) {
    forall k :: 0 <= k < |units| ==> |units[k]| == 1 || |units[k]| == 2
  }

  /** `prefix + rest`, or the failure of the rest. */
  function Prefixed(prefix: string, r: Result<string>): Result<string> {
    if r.Ok? then Ok(prefix + r.value) else r
  }

  /** Running the encryption loop over `units`: the outputs concatenated, or the first failure. */
  function EncipherUnits(table: string, units: seq<string>): Result<string>
    requires ShortUnits(units)
  {
    if units == [] then Ok([])
    else
      var head := EncipherUnit(table, units[0]);
      if head.Err? then head else Prefixed(head.value, EncipherUnits(table, units[1..]))
  }

  function DecipherUnits(table: string, units: seq<string>): Result<string>
    requires ShortUnits(units)
  {
    if units == [] then Ok([])
    else
      var head := DecipherUnit(table, units[0]);
      if head.Err? then head else Prefixed(head.value, DecipherUnits(table, units[1..]))
  }

  lemma DigraphsShort(text: string)
    requires IsAsciiText(text)
    ensures Digraphs(text).Ok? ==> ShortUnits(Digraphs(text).value)
  {
    DigraphsSpec(text);
  }

  /** `playfair_encrypt(text, keyword)`, as a value. */
  function Encipher(text: string, keyword: string): Result<string>
    requires IsAsciiText(text)
  {
    DigraphsShort(text);
    var units := Digraphs(text);
    if units.Err? then Err(units.error) else EncipherUnits(CipherTable(keyword), units.value)
  }

  /** `playfair_decrypt(encrypted_text, keyword)`: the ciphertext is split again and every X is dropped at the end. */
  function Decipher(text: string, keyword: string): Result<string>
    requires IsAsciiText(text)
  {
    DigraphsShort(text);
    var units := Digraphs(text);
    if units.Err? then Err(units.error)
    else
      var d := DecipherUnits(CipherTable(keyword), units.value);
      if d.Err? then d else Ok(RemoveChar(d.value, 'X'))
  }

  /** Each unit's output has the unit's length; on a grid no unit fails. */
  lemma {:induction false} EncipherUnitsLength(table: string, units: seq<string>)
    requires ShortUnits(units)
    ensures EncipherUnits(table, units).Ok? ==> |EncipherUnits(table, units).value| == |Flatten(units)|
    ensures IsGrid(table) ==> EncipherUnits(table, units).Ok?
  {
    if units != [] {
      EncipherUnitsLength(table, units[1..]);
      var u := units[0];
      if |u| == 2 && u[0] in table && u[1] in table {
        if IsGrid(table) {
          DecipherEncipherPair(table, u[0], u[1]);
        }
      }
    }
  }

  lemma {:induction false} DecipherUnitsLength(table: string, units: seq<string>)
    requires ShortUnits(units)
    ensures DecipherUnits(table, units).Ok? ==> |DecipherUnits(table, units).value| == |Flatten(units)|
    ensures IsGrid(table) ==> DecipherUnits(table, units).Ok?
  {
    if units != [] {
      DecipherUnitsLength(table, units[1..]);
      var u := units[0];
      if |u| == 2 && u[0] in table && u[1] in table {
        if IsGrid(table) {
          EncipherDecipherPair(table, u[0], u[1]);
        }
      }
    }
  }

  /**
   * Encryption fails on the empty text. With a keyword of capitals other than J it fails on nothing else,
   * and its output is exactly as long as all the units together.
   */
  lemma EncipherSpec(text: string, keyword: string)
    requires IsAsciiText(text)
    ensures text == [] ==> Encipher(text, keyword) == Err(IndexOutOfRange)
    ensures Encipher(text, keyword).Ok? ==> |Encipher(text, keyword).value| == |Flatten(Digraphs(text).value)|
    ensures ValidKeyword(keyword) && text != [] ==> Encipher(text, keyword).Ok?
  {
    DigraphsSpec(text);
    if Digraphs(text).Ok? {
      EncipherUnitsLength(CipherTable(keyword), Digraphs(text).value);
      if ValidKeyword(keyword) {
        CipherTableGrid(keyword);
      }
    }
  }

  /** Decrypted text never contains an 'X'; with a keyword of capitals other than J only the empty text fails. */
  lemma DecipherSpec(text: string, keyword: string)
    requires IsAsciiText(text)
    ensures text == [] ==> Decipher(text, keyword) == Err(IndexOutOfRange)
    ensures Decipher(text, keyword).Ok? ==> 'X' !in Decipher(text, keyword).value
    ensures ValidKeyword(keyword) && text != [] ==> Decipher(text, keyword).Ok?
  {
    DigraphsSpec(text);
    if Digraphs(text).Ok? {
      DecipherUnitsLength(CipherTable(keyword), Digraphs(text).value);
      if ValidKeyword(keyword) {
        CipherTableGrid(keyword);
      }
      var d := DecipherUnits(CipherTable(keyword), Digraphs(text).value);
      if d.Ok? {
        RemoveCharHas(d.value, 'X', 'X');
      }
    }
  }

  /** One pass of the encryption loop: a failing unit is the loop's failure; otherwise its output joins the prefix. */
  lemma EncipherUnitsStep(table: string, units: seq<string>, k: nat, out: string)
    requires ShortUnits(units) && k < |units|
    requires EncipherUnits(table, units) == Prefixed(out, EncipherUnits(table, units[k..]))
    ensures EncipherUnit(table, units[k]).Err? ==> EncipherUnits(table, units) == EncipherUnit(table, units[k])
    ensures EncipherUnit(table, units[k]).Ok? ==>
              EncipherUnits(table, units) ==
              Prefixed(out + EncipherUnit(table, units[k]).value, EncipherUnits(table, units[k + 1..]))
  {
    assert units[k..][0] == units[k] && units[k..][1..] == units[k + 1..];
    var head := EncipherUnit(table, units[k]);
    var next := EncipherUnits(table, units[k + 1..]);
    if head.Ok? && next.Ok? {
      Concat3(out, head.value, next.value);
    }
  }

  /** One pass of the decryption loop. */
  lemma DecipherUnitsStep(table: string, units: seq<string>, k: nat, out: string)
    requires ShortUnits(units) && k < |units|
    requires DecipherUnits(table, units) == Prefixed(out, DecipherUnits(table, units[k..]))
    ensures DecipherUnit(table, units[k]).Err? ==> DecipherUnits(table, units) == DecipherUnit(table, units[k])
    ensures DecipherUnit(table, units[k]).Ok? ==>
              DecipherUnits(table, units) ==
              Prefixed(out + DecipherUnit(table, units[k]).value, DecipherUnits(table, units[k + 1..]))
  {
    assert units[k..][0] == units[k] && units[k..][1..] == units[k + 1..];
    var head := DecipherUnit(table, units[k]);
    var next := DecipherUnits(table, units[k + 1..]);
    if head.Ok? && next.Ok? {
      Concat3(out, head.value, next.value);
    }
  }

  /** `playfair_encrypt`: the loop over the units, concatenating their outputs. */
  method PlayfairEncrypt(text: string, keyword: string) returns (r: Result<string>)
    requires IsAsciiText(text)
    ensures r == Encipher(text, keyword)
  {
    var table := CipherTable(keyword);
    var split := SplitText(text);
    if split.Err? {
      return Err(split.error);
    }
    var pairs := split.value;
    DigraphsShort(text);
    var encrypted := "";
    assert pairs[0..] == pairs;
    assert EncipherUnits(table, pairs).Ok? ==> "" + EncipherUnits(table, pairs).value == EncipherUnits(table, pairs).value;
    for k := 0 to |pairs|
      invariant EncipherUnits(table, pairs) == Prefixed(encrypted, EncipherUnits(table, pairs[k..]))
    {
      EncipherUnitsStep(table, pairs, k, encrypted);
      var out := EncipherUnit(table, pairs[k]);
      if out.Err? {
        return out;
      }
      encrypted := encrypted + out.value;
    }
    assert pairs[|pairs|..] == [] && encrypted + [] == encrypted;
    r := Ok(encrypted);
  }

  /** `playfair_decrypt`: the same loop with the decryption rule, then every X removed. */
  method PlayfairDecrypt(encryptedText: string, keyword: string) returns (r: Result<string>)
    requires IsAsciiText(encryptedText)
    ensures r == Decipher(encryptedText, keyword)
  {
    var table := CipherTable(keyword);
    var split := SplitText(encryptedText);
    if split.Err? {
      return Err(split.error);
    }
    var pairs := split.value;
    DigraphsShort(encryptedText);
    var decrypted := "";
    assert pairs[0..] == pairs;
    assert DecipherUnits(table, pairs).Ok? ==> "" + DecipherUnits(table, pairs).value == DecipherUnits(table, pairs).value;
    for k := 0 to |pairs|
      invariant DecipherUnits(table, pairs) == Prefixed(decrypted, DecipherUnits(table, pairs[k..]))
    {
      DecipherUnitsStep(table, pairs, k, decrypted);
      var out := DecipherUnit(table, pairs[k]);
      if out.Err? {
        return out;
      }
      decrypted := decrypted + out.value;
    }
    assert pairs[|pairs|..] == [] && decrypted + [] == decrypted;
    r := Ok(RemoveChar(decrypted, 'X'));
  }
}
