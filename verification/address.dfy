/**
 * Address codec: the spreadsheet column letters ("A", ..., "Z", "AA", ...), the A1 key a cell
 * is stored under in its sheet, and the `sheet-row-col` identity of a cell in the dependency graph.
 */
module Address {
  import opened Values

  /** A cell's position: 1-based row and column, and the sheet it lives on. */
  datatype CellAddress = CellAddress(row: int, col: int, sheet: string)

  // ---------------------------------------------------------------------------------------------
  // Decimal rendering of integers, as a JavaScript template literal prints them.

  predicate IsDigit(c: char) {
    '0' <= c <= '9'
  }

  predicate AllDigits(s: string) {
    forall i :: 0 <= i < |s| ==> IsDigit(s[i])
  }

  function DigitChar(d: nat): (c: char)
    requires d < 10
    ensures IsDigit(c) && c as int - '0' as int == d
  {
    ('0' as int + d) as char
  }

  /** The decimal numeral of `n`, most significant digit first, without leading zeros. */
  function NatToDecimal(n: nat): (s: string)
    ensures |s| > 0 && AllDigits(s)
    decreases n
  {
    if n < 10 then [DigitChar(n)] else NatToDecimal(n / 10) + [DigitChar(n % 10)]
  }

  /** `${i}` for an integer `i`. */
  function IntToDecimal(i: int): string {
    if i < 0 then "-" + NatToDecimal(-i) else NatToDecimal(i)
  }

  /** The value of a numeral. */
  function DecimalValue(s: string): nat
    requires AllDigits(s)
  {
    if |s| == 0 then 0 else DecimalValue(s[..|s| - 1]) * 10 + (s[|s| - 1] as int - '0' as int)
  }

  lemma {:induction false} DecimalRoundTrip(n: nat)
    ensures DecimalValue(NatToDecimal(n)) == n
    decreases n
  {
    if n >= 10 {
      var s := NatToDecimal(n);
      assert s[..|s| - 1] == NatToDecimal(n / 10);
      DecimalRoundTrip(n / 10);
    }
  }

  // ---------------------------------------------------------------------------------------------
  // Column letters: bijective base 26, A = 1 ... Z = 26.

  predicate IsLetter(c: char) {
    'A' <= c <= 'Z'
  }

  predicate AllLetters(s: string) {
    forall i :: 0 <= i < |s| ==> IsLetter(s[i])
  }

  /**
   * The column prefix of `_rowColToA1`: while the counter is positive, decrement it, prepend
   * the letter of its remainder modulo 26 and divide it by 26. A column below 1 has no letters.
   */
  function ColumnLetters(col: int): (s: string)
    ensures AllLetters(s)
    ensures col >= 1 <==> |s| > 0
    decreases col
  {
    if col <= 0 then ""
    else ColumnLetters((col - 1) / 26) + [((col - 1) % 26 + 'A' as int) as char]
  }

  /** Reads letters as a bijective base-26 numeral. */
  function DecodeColumn(s: string): nat
    requires AllLetters(s)
  {
    if |s| == 0 then 0
    else DecodeColumn(s[..|s| - 1]) * 26 + (s[|s| - 1] as int - 'A' as int + 1)
  }

  /** Decoding the letters of a column gives the column back: 1 is "A", 26 is "Z", 27 is "AA". */
  lemma {:induction false} ColumnRoundTrip(col: nat)
    ensures DecodeColumn(ColumnLetters(col)) == col
    decreases col
  {
    if col > 0 {
      var q := (col - 1) / 26;
      var s := ColumnLetters(col);
      assert s[..|s| - 1] == ColumnLetters(q);
      ColumnRoundTrip(q);
    }
  }

  /** Every non-empty word of capital letters is the prefix of exactly one column. */
  lemma {:induction false} LettersRoundTrip(s: string)
    requires AllLetters(s)
    ensures ColumnLetters(DecodeColumn(s)) == s
    decreases |s|
  {
    if |s| > 0 {
      var p := s[..|s| - 1];
      var d := DecodeColumn(s);
      var digit := s[|s| - 1] as int - 'A' as int;
      assert d - 1 == DecodeColumn(p) * 26 + digit;
      assert (d - 1) / 26 == DecodeColumn(p);
      assert (d - 1) % 26 == digit;
      LettersRoundTrip(p);
      assert s == p + [s[|s| - 1]];
    }
  }

  lemma ColumnLettersExamples()
    ensures ColumnLetters(1) == "A"
    ensures ColumnLetters(26) == "Z"
    ensures ColumnLetters(27) == "AA"
    ensures ColumnLetters(16384) == "XFD"
  {
  }

  // ---------------------------------------------------------------------------------------------
  // The A1 key of a cell inside its sheet.

  /** `_rowColToA1`: the column letters followed by the decimal row. */
  function A1Key(row: int, col: int): string {
    ColumnLetters(col) + IntToDecimal(row)
  }

  /** The number of leading capital letters of `s`. */
  function LeadingLetters(s: string): (k: nat)
    ensures k <= |s| && AllLetters(s[..k])
    ensures k < |s| ==> !IsLetter(s[k])
  {
    if |s| == 0 || !IsLetter(s[0]) then 0
    else
      var k := 1 + LeadingLetters(s[1..]);
      assert s[..k] == [s[0]] + s[1..][..k - 1];
      k
  }

  /** Splits an A1 key into (row, column); `None` for anything that is not letters then digits. */
  function ParseA1(s: string): Option<(nat, nat)> {
    var k := LeadingLetters(s);
    if k == 0 || k == |s| || !AllDigits(s[k..]) then None
    else Some((DecimalValue(s[k..]), DecodeColumn(s[..k])))
  }

  lemma {:induction false} LeadingLettersOfA1(letters: string, digits: string)
    requires AllLetters(letters) && AllDigits(digits) && |digits| > 0
    ensures LeadingLetters(letters + digits) == |letters|
    decreases |letters|
  {
    if |letters| > 0 {
      assert (letters + digits)[1..] == letters[1..] + digits;
      LeadingLettersOfA1(letters[1..], digits);
    }
  }

  /** The A1 key of a cell with a positive column and a non-negative row decodes to that cell. */
  lemma A1RoundTrip(row: nat, col: nat)
    requires col >= 1
    ensures ParseA1(A1Key(row, col)) == Some((row, col))
  {
    var letters, digits := ColumnLetters(col), NatToDecimal(row);
    var s := A1Key(row, col);
    LeadingLettersOfA1(letters, digits);
    assert s[..|letters|] == letters && s[|letters|..] == digits;
    DecimalRoundTrip(row);
    ColumnRoundTrip(col);
  }

  /** Distinct cells are stored under distinct keys of a sheet, whatever the sign of their rows. */
  lemma A1KeyInjective(r1: int, c1: nat, r2: int, c2: nat)
    requires c1 >= 1 && c2 >= 1
    requires A1Key(r1, c1) == A1Key(r2, c2)
    ensures r1 == r2 && c1 == c2
  {
    var l1, l2 := ColumnLetters(c1), ColumnLetters(c2);
    var d1, d2 := IntToDecimal(r1), IntToDecimal(r2);
    var s := A1Key(r1, c1);
    LeadingLettersBefore(l1, d1);
    LeadingLettersBefore(l2, d2);
    assert s[..|l1|] == l1 && s[|l1|..] == d1;
    assert s[..|l2|] == l2 && s[|l2|..] == d2;
    ColumnRoundTrip(c1);
    ColumnRoundTrip(c2);
    IntToDecimalInjective(r1, r2);
  }

  /** The letters of a key end where its row begins: a row numeral starts with a digit or a minus sign. */
  lemma {:induction false} LeadingLettersBefore(letters: string, rest: string)
    requires AllLetters(letters) && |rest| > 0 && !IsLetter(rest[0])
    ensures LeadingLetters(letters + rest) == |letters|
    decreases |letters|
  {
    if |letters| > 0 {
      assert (letters + rest)[1..] == letters[1..] + rest;
      LeadingLettersBefore(letters[1..], rest);
    } else {
      assert letters + rest == rest;
    }
  }

  /** A row numeral is never empty and never starts with a letter. */
  lemma IntToDecimalShape(i: int)
    ensures |IntToDecimal(i)| > 0 && !IsLetter(IntToDecimal(i)[0])
    ensures IntToDecimal(i)[0] == '-' <==> i < 0
  {
  }

  /** Distinct integers print as distinct numerals. */
  lemma IntToDecimalInjective(i: int, j: int)
    requires IntToDecimal(i) == IntToDecimal(j)
    ensures i == j
  {
    IntToDecimalShape(i);
    IntToDecimalShape(j);
    if i < 0 {
      assert NatToDecimal(-i) == IntToDecimal(i)[1..] == NatToDecimal(-j);
      DecimalRoundTrip(-i);
      DecimalRoundTrip(-j);
    } else {
      DecimalRoundTrip(i);
      DecimalRoundTrip(j);
    }
  }

  // ---------------------------------------------------------------------------------------------
  // The `sheet-row-col` node identity.

  /** The template `${sheet}-${row}-${col}` over already rendered parts. */
  function JoinId(sheet: string, row: string, col: string): string {
    sheet + "-" + row + "-" + col
  }

  /** `_hashCellAddress`: the node identity of a cell. */
  function CellId(a: CellAddress): string {
    JoinId(a.sheet, IntToDecimal(a.row), IntToDecimal(a.col))
  }

  /** The index of the last '-' in `s`, or -1. */
  function LastDash(s: string): (k: int)
    ensures -1 <= k < |s|
    ensures k >= 0 ==> s[k] == '-'
    ensures forall i :: k < i < |s| ==> s[i] != '-'
  {
    if |s| == 0 then -1
    else if s[|s| - 1] == '-' then |s| - 1
    else LastDash(s[..|s| - 1])
  }

  /**
   * Reads a node identity back from the right: the column after the last '-', the row after
   * the '-' before it, and the sheet is all that precedes. A decimal numeral holds no '-', so
   * the sheet name may contain any character.
   */
  function ParseCellId(s: string): Option<CellAddress> {
    var j := LastDash(s);
    if j < 0 then None
    else
      var rest := s[..j];
      var i := LastDash(rest);
      if i < 0 then None
      else
        var rowText, colText := rest[i + 1..], s[j + 1..];
        if |rowText| == 0 || |colText| == 0 || !AllDigits(rowText) || !AllDigits(colText) then None
        else Some(CellAddress(DecimalValue(rowText), DecimalValue(colText), rest[..i]))
  }

  lemma {:induction false} LastDashOfJoin(prefix: string, digits: string)
    requires AllDigits(digits)
    ensures LastDash(prefix + "-" + digits) == |prefix|
    decreases |digits|
  {
    var s := prefix + "-" + digits;
    if |digits| > 0 {
      assert s[..|s| - 1] == prefix + "-" + digits[..|digits| - 1];
      LastDashOfJoin(prefix, digits[..|digits| - 1]);
    }
  }

  /** Reading a cell's identity gives back the cell, for non-negative rows and columns. */
  lemma CellIdRoundTrip(a: CellAddress)
    requires a.row >= 0 && a.col >= 0
    ensures ParseCellId(CellId(a)) == Some(a)
  {
    var r, c := NatToDecimal(a.row), NatToDecimal(a.col);
    var s := CellId(a);
    assert s == (a.sheet + "-" + r) + "-" + c;
    LastDashOfJoin(a.sheet + "-" + r, c);
    var rest := s[..|a.sheet + "-" + r|];
    assert rest == a.sheet + "-" + r;
    LastDashOfJoin(a.sheet, r);
    assert rest[|a.sheet| + 1..] == r && s[|rest| + 1..] == c && rest[..|a.sheet|] == a.sheet;
    DecimalRoundTrip(a.row);
    DecimalRoundTrip(a.col);
  }

  /** The node identity is injective over cells with non-negative rows and columns. */
  lemma CellIdInjective(a: CellAddress, b: CellAddress)
    requires a.row >= 0 && a.col >= 0 && b.row >= 0 && b.col >= 0
    requires CellId(a) == CellId(b)
    ensures a == b
  {
    CellIdRoundTrip(a);
    CellIdRoundTrip(b);
  }

  /** Every cell identity contains '-', so a name without '-' never collides with a cell. */
  lemma CellIdHasDash(a: CellAddress)
    ensures exists i :: 0 <= i < |CellId(a)| && CellId(a)[i] == '-'
  {
    assert CellId(a)[|a.sheet|] == '-';
  }
}
