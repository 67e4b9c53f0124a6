/**
 * The workbook the recalculation core works on, and the three lookup callbacks (`onCell`,
 * `onRange`, `onVariable`) through which a formula reads it.
 *
 * JavaScript cells are shared objects: the same cell is reachable from its sheet, from the
 * flat list of all cells and from the node-identity index, and the driver updates it in place.
 * The model keeps every cell once, in `cells`, in the order in which the sheets list them;
 * a sheet maps each of its keys to the position of its cell there.
 */
module Workbook {
  import opened Values
  import opened Address
  import opened References

  datatype CellType = FormulaCell | ConstantCell

  /** A formula and the result cached for it; the cache is undefined, null or a value. */
  datatype FormulaData<V> = FormulaData(formulaString: string, cachesResult: Slot<V>)

  datatype Cell<V> = Cell(kind: CellType, address: CellAddress, formulaData: Option<FormulaData<V>>, value: Slot<V>)

  /** A named variable; an empty `formula` stands for a missing or empty one. */
  datatype Variable<V> = Variable(name: string, formula: string, value: Slot<V>, result: Slot<V>)

  /** A sheet: its name and, for each key it stores a cell under, that cell's position. */
  datatype Sheet = Sheet(name: string, entries: seq<(string, nat)>)

  datatype Book<V> = Book(variables: seq<Variable<V>>, sheets: seq<Sheet>, cells: seq<Cell<V>>)

  // ---------------------------------------------------------------------------------------------
  // Representation invariant.

  function Names(sheets: seq<Sheet>): (r: seq<string>)
    ensures |r| == |sheets| && forall k :: 0 <= k < |sheets| ==> r[k] == sheets[k].name
  {
    seq(|sheets|, k requires 0 <= k < |sheets| => sheets[k].name)
  }

  function Keys(entries: seq<(string, nat)>): (r: seq<string>)
    ensures |r| == |entries| && forall k :: 0 <= k < |entries| ==> r[k] == entries[k].0
  {
    seq(|entries|, k requires 0 <= k < |entries| => entries[k].0)
  }

  /** The cell positions of the sheets' entries, sheet after sheet: `Object.values(...).flatMap`. */
  function Positions(sheets: seq<Sheet>): seq<nat> {
    if |sheets| == 0 then []
    else seq(|sheets[0].entries|, k requires 0 <= k < |sheets[0].entries| => sheets[0].entries[k].1) + Positions(sheets[1..])
  }

  function Upto(n: nat): (r: seq<nat>)
    ensures |r| == n && forall k :: 0 <= k < n ==> r[k] == k
  {
    seq(n, k requires 0 <= k < n => k)
  }

  /**
   * Sheet names and the keys of each sheet are distinct, as the keys of a JavaScript object
   * are, and `cells` lists every cell once, in the order the sheets list them.
   */
  ghost predicate WellFormed<V>(w: Book<V>) {
    && NoDup(Names(w.sheets))
    && (forall s :: s in w.sheets ==> NoDup(Keys(s.entries)))
    && Positions(w.sheets) == Upto(|w.cells|)
  }

  lemma {:induction false} PositionsBounded(sheets: seq<Sheet>, s: Sheet, e: (string, nat))
    requires s in sheets && e in s.entries
    ensures e.1 in Positions(sheets)
    decreases |sheets|
  {
    var first := seq(|sheets[0].entries|, k requires 0 <= k < |sheets[0].entries| => sheets[0].entries[k].1);
    if s == sheets[0] {
      var k :| 0 <= k < |s.entries| && s.entries[k] == e;
      assert first[k] == e.1;
    } else {
      assert s in sheets[1..];
      PositionsBounded(sheets[1..], s, e);
    }
    assert Positions(sheets) == first + Positions(sheets[1..]);
  }

  /** In a well-formed workbook every entry points at a cell. */
  lemma EntriesInRange<V>(w: Book<V>, s: Sheet, e: (string, nat))
    requires WellFormed(w) && s in w.sheets && e in s.entries
    ensures e.1 < |w.cells|
  {
    PositionsBounded(w.sheets, s, e);
  }

  // ---------------------------------------------------------------------------------------------
  // Property lookups.

  /** `workbook.sheets[name]`. */
  function FindSheet(sheets: seq<Sheet>, name: string): (r: Option<Sheet>)
    ensures r.Some? ==> r.value in sheets && r.value.name == name
    ensures r.None? <==> forall s :: s in sheets ==> s.name != name
  {
    if |sheets| == 0 then None
    else if sheets[0].name == name then Some(sheets[0])
    else FindSheet(sheets[1..], name)
  }

  /** `sheet[key]`: the position of the cell stored under `key`. */
  function FindKey(entries: seq<(string, nat)>, key: string): (r: Option<nat>)
    ensures r.Some? ==> (key, r.value) in entries
    ensures r.None? <==> forall e :: e in entries ==> e.0 != key
  {
    if |entries| == 0 then None
    else if entries[0].0 == key then Some(entries[0].1)
    else FindKey(entries[1..], key)
  }

  lemma NamesDistinct(sheets: seq<Sheet>, s: Sheet)
    requires NoDup(Names(sheets)) && s in sheets
    ensures forall t :: t in sheets && t.name == s.name ==> t == s
  {
    forall t | t in sheets && t.name == s.name ensures t == s {
      var i :| 0 <= i < |sheets| && sheets[i] == s;
      var j :| 0 <= j < |sheets| && sheets[j] == t;
      assert Names(sheets)[i] == Names(sheets)[j];
    }
  }

  /** The node identities of the cells, in order. */
  function CellIds<V>(cells: seq<Cell<V>>): (r: seq<string>)
    ensures |r| == |cells| && forall k :: 0 <= k < |cells| ==> r[k] == CellId(cells[k].address)
  {
    seq(|cells|, k requires 0 <= k < |cells| => CellId(cells[k].address))
  }

  /** The variable names, in order. */
  function VariableNames<V>(variables: seq<Variable<V>>): seq<string> {
    seq(|variables|, k requires 0 <= k < |variables| => variables[k].name)
  }

  /**
   * Node identities are distinct: no two cells share a `sheet-row-col` identity, no two
   * variables share a name, and no variable is named like a cell.
   */
  ghost predicate DistinctIds<V>(w: Book<V>) {
    NoDup(CellIds(w.cells) + VariableNames(w.variables))
  }

  lemma DistinctIdsParts<V>(w: Book<V>)
    requires DistinctIds(w)
    ensures NoDup(CellIds(w.cells)) && NoDup(VariableNames(w.variables))
    ensures forall id :: id in CellIds(w.cells) ==> id !in VariableNames(w.variables)
  {
    NoDupParts(CellIds(w.cells), VariableNames(w.variables));
  }

  /** A formula cell with a non-empty formula text: the cells whose formula is extracted and evaluated. */
  predicate HasFormula<V>(c: Cell<V>) {
    c.kind == FormulaCell && c.formulaData.Some? && c.formulaData.value.formulaString != ""
  }

  /** The `cellIndex` of the driver: the last cell whose node identity is `id`. */
  function FindCell<V>(cells: seq<Cell<V>>, id: string): Option<nat> {
    LastIndex(CellIds(cells), id)
  }

  /** The `variableIndex`: the last variable named `name`. */
  function FindVariable<V>(variables: seq<Variable<V>>, name: string): Option<nat> {
    LastIndex(VariableNames(variables), name)
  }

  // ---------------------------------------------------------------------------------------------
  // The lookup callbacks handed to the formula evaluator.

  /** A single-cell reference as the evaluator passes it to `onCell`. */
  datatype CellQuery = CellQuery(row: int, col: int, sheet: string)

  /** A range reference as the evaluator passes it to `onRange`. */
  datatype RangeQuery = RangeQuery(sheet: string, from: Point, until: Point)

  /**
   * What a formula reads from a stored cell: the cached result of a formula cell unless that
   * cache is undefined (a null cache is returned as is), and otherwise `value ?? 0`.
   */
  function ReadCell<V>(c: Cell<V>, zero: V): (r: Slot<V>)
    ensures !r.Undefined?
    ensures r.Null? ==> c.kind == FormulaCell && c.formulaData.Some? && c.formulaData.value.cachesResult.Null?
    ensures c.kind == ConstantCell ==> r == c.value.OrElse(Defined(zero))
    ensures c.kind == FormulaCell && c.formulaData.Some? && !c.formulaData.value.cachesResult.Undefined? ==>
      r == c.formulaData.value.cachesResult
    ensures !(c.kind == FormulaCell && c.formulaData.Some? && !c.formulaData.value.cachesResult.Undefined?) ==>
      r == c.value.OrElse(Defined(zero))
  {
    if c.kind == FormulaCell && c.formulaData.Some? && !c.formulaData.value.cachesResult.Undefined? then
      c.formulaData.value.cachesResult
    else
      c.value.OrElse(Defined(zero))
  }

  /**
   * `sheet[key]` as a formula reads it: the stored cell, or 0 when there is none. (A position
   * outside `cells` cannot occur in a well-formed workbook; it reads as no cell.)
   */
  function ReadKey<V>(w: Book<V>, zero: V, sheet: Sheet, key: string): (r: Slot<V>)
    ensures FindKey(sheet.entries, key).None? ==> r == Defined(zero)
    ensures FindKey(sheet.entries, key).Some? && FindKey(sheet.entries, key).value < |w.cells| ==>
      r == ReadCell(w.cells[FindKey(sheet.entries, key).value], zero)
  {
    match FindKey(sheet.entries, key)
    case None => Defined(zero)
    case Some(i) => if i < |w.cells| then ReadCell(w.cells[i], zero) else Defined(zero)
  }

  /** The cell of `sheet` at (row, col), read under its A1 key. */
  function ReadAt<V>(w: Book<V>, zero: V, sheet: Sheet, row: int, col: int): Slot<V>
  {
    ReadKey(w, zero, sheet, A1Key(row, col))
  }

  /** `onCell`: the cell stored under the A1 key of (row, col) in the named sheet, or 0. */
  function OnCell<V>(w: Book<V>, zero: V, q: CellQuery): (r: Slot<V>)
    ensures FindSheet(w.sheets, q.sheet).None? ==> r == Defined(zero)
  {
    match FindSheet(w.sheets, q.sheet)
    case None => Defined(zero)
    case Some(s) => ReadAt(w, zero, s, q.row, q.col)
  }

  /** The number of iterations of `for (let i = from; i <= until; i++)`. */
  function Span(from: int, until: int): nat {
    if until < from then 0 else until - from + 1
  }

  /** One row of a range over an existing sheet: columns `from.col` to `until.col` of `row`. */
  function RangeRow<V>(w: Book<V>, zero: V, sheet: Sheet, row: int, from: Point, until: Point): (r: seq<Slot<V>>)
    ensures |r| == Span(from.col, until.col)
  {
    seq(Span(from.col, until.col), j requires 0 <= j < Span(from.col, until.col) =>
      ReadAt(w, zero, sheet, row, from.col + j))
  }

  /** The rows of a range over an existing sheet. */
  function RangeRows<V>(w: Book<V>, zero: V, sheet: Sheet, from: Point, until: Point): (r: seq<seq<Slot<V>>>)
    ensures |r| == Span(from.row, until.row)
    ensures forall i :: 0 <= i < |r| ==> |r[i]| == Span(from.col, until.col)
  {
    var r := seq(Span(from.row, until.row), i requires 0 <= i < Span(from.row, until.row) =>
      RangeRow(w, zero, sheet, from.row + i, from, until));
    assert forall i :: 0 <= i < |r| ==> r[i] == RangeRow(w, zero, sheet, from.row + i, from, until);
    r
  }

  /** `new Array(cols).fill(0)`, which throws a RangeError for a negative length. */
  function ZeroRow<V>(cols: int, zero: V): (r: Outcome<seq<Slot<V>>>)
    ensures r.Threw? <==> cols < 0
    ensures r.Returned? ==> |r.value| == cols && forall k :: 0 <= k < cols ==> r.value[k] == Defined(zero)
  {
    if cols < 0 then Threw else Returned(seq(cols, _ => Defined(zero)))
  }

  /**
   * `onRange`: the matrix of the range's cells, row by row. Over a missing sheet every row is
   * a fresh array of zeros, so a range with rows but a negative column count throws.
   */
  function OnRange<V>(w: Book<V>, zero: V, q: RangeQuery): (r: Outcome<seq<seq<Slot<V>>>>)
    ensures FindSheet(w.sheets, q.sheet).Some? ==>
      && r.Returned?
      && |r.value| == Span(q.from.row, q.until.row)
      && (forall i :: 0 <= i < |r.value| ==> |r.value[i]| == Span(q.from.col, q.until.col))
  {
    match FindSheet(w.sheets, q.sheet)
    case Some(s) => Returned(RangeRows(w, zero, s, q.from, q.until))
    case None =>
      if q.until.row < q.from.row then Returned([])
      else
        match ZeroRow(q.until.col - q.from.col + 1, zero)
        case Threw => Threw
        case Returned(row) => Returned(seq(q.until.row - q.from.row + 1, _ => row))
  }

  /** `onVariable`: `result ?? value ?? 0` of the named variable, and 0 for an unknown name. */
  function OnVariable<V>(w: Book<V>, zero: V, name: string): (r: Slot<V>)
    ensures r.Defined?
    ensures FindVariable(w.variables, name).None? ==> r == Defined(zero)
    ensures FindVariable(w.variables, name).Some? ==>
      var v := w.variables[FindVariable(w.variables, name).value];
      r == (if v.result.Defined? then v.result else if v.value.Defined? then v.value else Defined(zero))
  {
    match FindVariable(w.variables, name)
    case None => Defined(zero)
    case Some(k) => w.variables[k].result.OrElse(w.variables[k].value).OrElse(Defined(zero))
  }

  // ---------------------------------------------------------------------------------------------
  // Properties of the callbacks.

  /** A sheet of a well-formed workbook is found under its own name. */
  lemma FindSheetOf<V>(w: Book<V>, sheet: Sheet)
    requires WellFormed(w) && sheet in w.sheets
    ensures FindSheet(w.sheets, sheet.name) == Some(sheet)
  {
    NamesDistinct(w.sheets, sheet);
  }

  /** Reading a position of a sheet is what `onCell` does for that position of that sheet. */
  lemma ReadAtIsOnCell<V>(w: Book<V>, zero: V, sheet: Sheet, row: int, col: int)
    requires WellFormed(w) && sheet in w.sheets
    ensures ReadAt(w, zero, sheet, row, col) == OnCell(w, zero, CellQuery(row, col, sheet.name))
  {
    FindSheetOf(w, sheet);
  }

  /** A key of a sheet whose keys are distinct is found with the position stored under it. */
  lemma {:induction false} FindKeyOfEntry(entries: seq<(string, nat)>, e: (string, nat))
    requires NoDup(Keys(entries)) && e in entries
    ensures FindKey(entries, e.0) == Some(e.1)
    decreases |entries|
  {
    if entries[0] != e {
      assert e in entries[1..];
      var k :| 1 <= k < |entries| && entries[k] == e;
      assert Keys(entries)[0] != Keys(entries)[k];
      assert Keys(entries[1..]) == Keys(entries)[1..];
      FindKeyOfEntry(entries[1..], e);
    }
  }

  /**
   * `onCell` at a position whose A1 key a sheet stores a cell under reads that cell: its cache
   * when it is a formula cell with a defined or null cache, its value (or 0) otherwise.
   */
  lemma OnCellReadsStoredCell<V>(w: Book<V>, zero: V, s: Sheet, row: int, col: int, p: nat)
    requires WellFormed(w) && s in w.sheets && (A1Key(row, col), p) in s.entries
    ensures p < |w.cells|
    ensures OnCell(w, zero, CellQuery(row, col, s.name)) == ReadCell(w.cells[p], zero)
  {
    EntriesInRange(w, s, (A1Key(row, col), p));
    FindKeyOfEntry(s.entries, (A1Key(row, col), p));
    FindSheetOf(w, s);
  }

  /** `onCell` at a position no sheet entry is stored under reads 0. */
  lemma OnCellMissingKey<V>(w: Book<V>, zero: V, q: CellQuery)
    requires forall s :: s in w.sheets && s.name == q.sheet ==> forall e :: e in s.entries ==> e.0 != A1Key(q.row, q.col)
    ensures OnCell(w, zero, q) == Defined(zero)
  {
  }

  /** Each entry of `onRange` over an existing sheet is what `onCell` returns for that position. */
  lemma OnRangeEntry<V>(w: Book<V>, zero: V, q: RangeQuery, i: nat, j: nat)
    requires FindSheet(w.sheets, q.sheet).Some?
    requires i < Span(q.from.row, q.until.row) && j < Span(q.from.col, q.until.col)
    ensures OnRange(w, zero, q).Returned?
    ensures OnRange(w, zero, q).value[i][j] == OnCell(w, zero, CellQuery(q.from.row + i, q.from.col + j, q.sheet))
  {
    var s := FindSheet(w.sheets, q.sheet).value;
    var m := RangeRows(w, zero, s, q.from, q.until);
    var row := RangeRow(w, zero, s, q.from.row + i, q.from, q.until);
    assert OnRange(w, zero, q).value == m;
    assert m[i] == row;
  }

  /**
   * `onRange` over a missing sheet: no rows when to.row < from.row; otherwise it throws exactly
   * when the column count is negative, and else returns that many rows of that many zeros.
   */
  lemma OnRangeMissingSheet<V>(w: Book<V>, zero: V, q: RangeQuery)
    requires FindSheet(w.sheets, q.sheet).None?
    ensures OnRange(w, zero, q).Threw? <==> q.from.row <= q.until.row && q.until.col - q.from.col + 1 < 0
    ensures OnRange(w, zero, q).Returned? ==>
      var m := OnRange(w, zero, q).value;
      && |m| == (if q.until.row < q.from.row then 0 else q.until.row - q.from.row + 1)
      && (forall i :: 0 <= i < |m| ==> |m[i]| == q.until.col - q.from.col + 1)
      && (forall i, j :: 0 <= i < |m| && 0 <= j < |m[i]| ==> m[i][j] == Defined(zero))
  {
    if q.from.row <= q.until.row {
      var z := ZeroRow(q.until.col - q.from.col + 1, zero);
      if z.Returned? {
        var m := seq(q.until.row - q.from.row + 1, _ => z.value);
        assert OnRange(w, zero, q) == Returned(m);
      }
    }
  }
}
