/**
 * Reference normaliser: turns the references the dependency extractor reports (cells, ranges
 * and variables) into node identities, expanding ranges under a size cap and a sparse index.
 */
module References {
  import opened Values
  import opened Address

  /** A row/column pair, as the `from` and `until` corners of a range. */
  datatype Point = Point(row: int, col: int)

  /**
   * A reference as the extractor reports it: a JavaScript object of which each property is
   * present or absent. Cells carry sheet/row/col, ranges sheet/from/until (`to` in the source), variables a name.
   */
  datatype Ref = Ref(
    sheet: Option<string>,
    row: Option<int>,
    col: Option<int>,
    from: Option<Point>,
    until: Option<Point>,
    name: Option<string>)

  function CellRef(sheet: Option<string>, row: int, col: int): Ref {
    Ref(sheet, Some(row), Some(col), None, None, None)
  }

  function RangeRef(sheet: string, from: Point, until: Point): Ref {
    Ref(Some(sheet), None, None, Some(from), Some(until), None)
  }

  function VariableRef(name: string): Ref {
    Ref(None, None, None, None, None, Some(name))
  }

  datatype RefKind = CellKind | RangeKind | VariableKind

  /** `_getDepParserType`: classification by which properties are present; anything else is a cell. */
  function KindOf(r: Ref): (k: RefKind)
    ensures k == RangeKind ==> r.sheet.Some? && r.from.Some? && r.until.Some?
    ensures k == VariableKind ==> r.name.Some?
    ensures r.row.Some? && r.col.Some? && r.sheet.Some? ==> k == CellKind
    ensures r.sheet.None? && r.name.None? ==> k == CellKind
    ensures (!(r.row.Some? && r.col.Some? && r.sheet.Some?) && r.sheet.Some? && r.from.Some? && r.until.Some?)
      ==> k == RangeKind
    ensures (!(r.row.Some? && r.col.Some? && r.sheet.Some?) && !(r.sheet.Some? && r.from.Some? && r.until.Some?)
             && r.name.Some?) ==> k == VariableKind
  {
    if r.row.Some? && r.col.Some? && r.sheet.Some? then CellKind
    else if r.from.Some? && r.until.Some? && r.sheet.Some? then RangeKind
    else if r.name.Some? then VariableKind
    else CellKind
  }

  /** A reference lacking a (truthy) sheet takes the default sheet, when that one is truthy. */
  function EffectiveSheet(sheet: Option<string>, defaultSheet: Option<string>): Option<string> {
    if !Truthy(sheet) && Truthy(defaultSheet) then defaultSheet else sheet
  }

  /** An absent property prints as "undefined" in a template literal. */
  function ShowSheet(s: Option<string>): string {
    match s
    case Some(v) => v
    case None => "undefined"
  }

  function ShowInt(i: Option<int>): string {
    match i
    case Some(v) => IntToDecimal(v)
    case None => "undefined"
  }

  // ---------------------------------------------------------------------------------------------
  // Range expansion.

  /** Sparse occupancy: sheet -> column -> populated rows, each list in first-insertion order. */
  type CellIndex = map<string, map<int, seq<int>>>

  const MaxRangeSize := 1000

  /** The cell count `_convertRangeToCellAddresses` computes (negative or zero for reversed corners). */
  function RangeSize(from: Point, until: Point): int {
    (until.row - from.row + 1) * (until.col - from.col + 1)
  }

  ghost predicate InRectangle(a: CellAddress, sheet: string, from: Point, until: Point) {
    a.sheet == sheet && from.row <= a.row <= until.row && from.col <= a.col <= until.col
  }

  /** The cells of one row, from `col` to `toCol` left to right. */
  function RowCells(sheet: string, row: int, col: int, toCol: int): (r: seq<CellAddress>)
    ensures |r| == if toCol >= col then toCol - col + 1 else 0
    ensures forall k :: 0 <= k < |r| ==> r[k] == CellAddress(row, col + k, sheet)
    decreases toCol - col
  {
    if col > toCol then [] else [CellAddress(row, col, sheet)] + RowCells(sheet, row, col + 1, toCol)
  }

  lemma {:induction false} MulAtLeast(c: int, d: int)
    requires c >= 0 && d >= 1
    ensures c * d >= c
    decreases d
  {
    if d > 1 {
      MulAtLeast(c, d - 1);
      assert c * d == c * (d - 1) + c;
    }
  }

  /** Euclidean division is determined by any quotient/remainder pair with the remainder in range. */
  lemma DivUnique(k: int, c: int, q: int, r: int)
    requires c > 0 && k == c * q + r && 0 <= r < c
    ensures k / c == q && k % c == r
  {
    var q', r' := k / c, k % c;
    assert c * q - c * q' == r' - r;
    assert c * (q - q') == c * q - c * q';
    assert c * (q' - q) == c * q' - c * q;
    if q > q' {
      MulAtLeast(c, q - q');
    } else if q < q' {
      MulAtLeast(c, q' - q);
    }
  }

  lemma DivStep(k: int, c: int)
    requires c > 0 && k >= c
    ensures (k - c) / c == k / c - 1 && (k - c) % c == k % c
  {
    var q, r := (k - c) / c, (k - c) % c;
    assert k == c * (q + 1) + r;
    DivUnique(k, c, q + 1, r);
  }

  /** The full rectangle, row-major, rows `row..toRow` and columns `fromCol..toCol`. */
  function Rectangle(sheet: string, row: int, toRow: int, fromCol: int, toCol: int): (r: seq<CellAddress>)
    ensures toRow < row || toCol < fromCol ==> r == []
    ensures toRow >= row && toCol >= fromCol ==>
      |r| == (toRow - row + 1) * (toCol - fromCol + 1) &&
      forall k :: 0 <= k < |r| ==>
        r[k] == CellAddress(row + k / (toCol - fromCol + 1), fromCol + k % (toCol - fromCol + 1), sheet)
    decreases toRow - row
  {
    if row > toRow then []
    else
      var first := RowCells(sheet, row, fromCol, toCol);
      var rest := Rectangle(sheet, row + 1, toRow, fromCol, toCol);
      if toCol < fromCol then first + rest
      else
        RectangleStep(sheet, row, toRow, fromCol, toCol, first, rest);
        first + rest
  }

  /** One more row in front of a row-major rectangle keeps the index formula. */
  lemma RectangleStep(sheet: string, row: int, toRow: int, fromCol: int, toCol: int,
                      first: seq<CellAddress>, rest: seq<CellAddress>)
    requires row <= toRow && toCol >= fromCol
    requires first == RowCells(sheet, row, fromCol, toCol)
    requires row + 1 > toRow ==> rest == []
    requires row + 1 <= toRow ==>
      |rest| == (toRow - row) * (toCol - fromCol + 1) &&
      forall k :: 0 <= k < |rest| ==>
        rest[k] == CellAddress(row + 1 + k / (toCol - fromCol + 1), fromCol + k % (toCol - fromCol + 1), sheet)
    ensures |first + rest| == (toRow - row + 1) * (toCol - fromCol + 1)
    ensures forall k :: 0 <= k < |first + rest| ==>
      (first + rest)[k] == CellAddress(row + k / (toCol - fromCol + 1), fromCol + k % (toCol - fromCol + 1), sheet)
  {
    var cols := toCol - fromCol + 1;
    var r := first + rest;
    assert (toRow - row + 1) * cols == cols + (toRow - row) * cols;
    forall k | 0 <= k < |r|
      ensures r[k] == CellAddress(row + k / cols, fromCol + k % cols, sheet)
    {
      if k < cols {
        DivUnique(k, cols, 0, k);
      } else {
        DivStep(k, cols);
      }
    }
  }

  /** The rows of `rows` that fall in `fromRow..toRow`, as cells of column `col`, in list order. */
  function RowsInColumn(sheet: string, rows: seq<int>, col: int, fromRow: int, toRow: int): (r: seq<CellAddress>)
    ensures forall a :: a in r <==> a.sheet == sheet && a.col == col && a.row in rows && fromRow <= a.row <= toRow
    ensures NoDup(rows) ==> NoDup(r)
  {
    if |rows| == 0 then []
    else
      var head := if fromRow <= rows[0] <= toRow then [CellAddress(rows[0], col, sheet)] else [];
      var r := head + RowsInColumn(sheet, rows[1..], col, fromRow, toRow);
      assert forall x :: x in rows <==> x == rows[0] || x in rows[1..];
      r
  }

  /** Indexed cells of columns `col..until.col`, column by column. */
  function IndexedCells(sheet: string, columns: map<int, seq<int>>, col: int, from: Point, until: Point): (r: seq<CellAddress>)
    ensures forall a :: a in r <==>
      (a.sheet == sheet && col <= a.col <= until.col && a.col in columns && a.row in columns[a.col]
       && from.row <= a.row <= until.row)
    ensures forall i, j :: 0 <= i < j < |r| ==> r[i].col <= r[j].col
    ensures forall k :: 0 <= k < |r| ==> col <= r[k].col
    ensures (forall c :: c in columns ==> NoDup(columns[c])) ==> NoDup(r)
    decreases until.col - col
  {
    if col > until.col then []
    else
      var here := if col in columns then RowsInColumn(sheet, columns[col], col, from.row, until.row) else [];
      var rest := IndexedCells(sheet, columns, col + 1, from, until);
      assert forall k :: 0 <= k < |here| ==> here[k] in here && here[k].col == col;
      assert forall k :: 0 <= k < |rest| ==> rest[k].col > col;
      here + rest
  }

  /**
   * `_convertRangeToCellAddresses`: a range of at most 1000 cells expands to every cell, row by
   * row; a larger one expands, with an index, to the indexed cells of its sheet that lie inside
   * it, column by column, and to nothing without an index or for a sheet the index lacks.
   */
  function RangeCells(sheet: string, from: Point, until: Point, index: Option<CellIndex>): (r: seq<CellAddress>)
    ensures forall a :: a in r ==> InRectangle(a, sheet, from, until)
    ensures RangeSize(from, until) <= MaxRangeSize && until.row >= from.row && until.col >= from.col ==>
      var cols := until.col - from.col + 1;
      |r| == RangeSize(from, until) &&
      forall k :: 0 <= k < |r| ==> r[k] == CellAddress(from.row + k / cols, from.col + k % cols, sheet)
    ensures RangeSize(from, until) <= MaxRangeSize && (until.row < from.row || until.col < from.col) ==> r == []
    ensures RangeSize(from, until) > MaxRangeSize && index.None? ==> r == []
    ensures RangeSize(from, until) > MaxRangeSize && index.Some? && sheet !in index.value ==> r == []
    ensures RangeSize(from, until) > MaxRangeSize && index.Some? && sheet in index.value ==>
      (forall a :: a in r <==> (InRectangle(a, sheet, from, until)
        && a.col in index.value[sheet] && a.row in index.value[sheet][a.col]))
      && (forall i, j :: 0 <= i < j < |r| ==> r[i].col <= r[j].col)
  {
    if RangeSize(from, until) > MaxRangeSize && index.Some? then
      if sheet !in index.value then []
      else IndexedCells(sheet, index.value[sheet], from.col, from, until)
    else if RangeSize(from, until) > MaxRangeSize then []
    else
      var r := Rectangle(sheet, from.row, until.row, from.col, until.col);
      RectangleInside(sheet, from, until, r);
      r
  }

  lemma RectangleInside(sheet: string, from: Point, until: Point, r: seq<CellAddress>)
    requires r == Rectangle(sheet, from.row, until.row, from.col, until.col)
    ensures forall a :: a in r ==> InRectangle(a, sheet, from, until)
  {
    if until.row >= from.row && until.col >= from.col {
      var cols := until.col - from.col + 1;
      forall a | a in r ensures InRectangle(a, sheet, from, until) {
        var k :| 0 <= k < |r| && r[k] == a;
        DivBound(k, cols, until.row - from.row + 1);
      }
    }
  }

  lemma DivBound(k: int, c: int, rows: int)
    requires c > 0 && rows > 0 && 0 <= k < rows * c
    ensures 0 <= k / c < rows
  {
    var q := k / c;
    assert c * (q - rows + 1) == c * q - c * rows + c;
    if q >= rows {
      MulAtLeast(c, q - rows + 1);
    }
  }

  // ---------------------------------------------------------------------------------------------
  // From references to node identities.

  /** The identities one reference stands for. */
  function ReferenceIds(r: Ref, defaultSheet: Option<string>, index: Option<CellIndex>): seq<string> {
    match KindOf(r)
    case CellKind =>
      [JoinId(ShowSheet(EffectiveSheet(r.sheet, defaultSheet)), ShowInt(r.row), ShowInt(r.col))]
    case RangeKind =>
      var cells := RangeCells(EffectiveSheet(r.sheet, defaultSheet).value, r.from.value, r.until.value, index);
      seq(|cells|, k requires 0 <= k < |cells| => CellId(cells[k]))
    case VariableKind =>
      [r.name.value]
  }

  /** `_convertDepParserReferenceToId`: the identities of every reference, in reference order. */
  function ReferencesToIds(refs: seq<Ref>, defaultSheet: Option<string>, index: Option<CellIndex>): seq<string> {
    if |refs| == 0 then []
    else ReferenceIds(refs[0], defaultSheet, index) + ReferencesToIds(refs[1..], defaultSheet, index)
  }

  /** Normalising a concatenation of reference lists concatenates the identity lists. */
  lemma {:induction false} ReferencesToIdsConcat(a: seq<Ref>, b: seq<Ref>, defaultSheet: Option<string>, index: Option<CellIndex>)
    ensures ReferencesToIds(a + b, defaultSheet, index)
         == ReferencesToIds(a, defaultSheet, index) + ReferencesToIds(b, defaultSheet, index)
    decreases |a|
  {
    if |a| == 0 {
      assert a + b == b;
    } else {
      assert (a + b)[0] == a[0] && (a + b)[1..] == a[1..] + b;
      ReferencesToIdsCons(a + b, defaultSheet, index);
      ReferencesToIdsCons(a, defaultSheet, index);
      ReferencesToIdsConcat(a[1..], b, defaultSheet, index);
      ConcatAssociates(ReferenceIds(a[0], defaultSheet, index), ReferencesToIds(a[1..], defaultSheet, index),
                       ReferencesToIds(b, defaultSheet, index));
    }
  }

  lemma ReferencesToIdsCons(refs: seq<Ref>, defaultSheet: Option<string>, index: Option<CellIndex>)
    requires |refs| > 0
    ensures ReferencesToIds(refs, defaultSheet, index)
         == ReferenceIds(refs[0], defaultSheet, index) + ReferencesToIds(refs[1..], defaultSheet, index)
  {
  }

  lemma ConcatAssociates(x: seq<string>, y: seq<string>, z: seq<string>)
    ensures x + (y + z) == (x + y) + z
  {
  }

  /** An identity is produced exactly when some reference produces it. */
  lemma {:induction false} ReferencesToIdsMembers(refs: seq<Ref>, defaultSheet: Option<string>, index: Option<CellIndex>, id: string)
    ensures id in ReferencesToIds(refs, defaultSheet, index)
        <==> exists k :: 0 <= k < |refs| && id in ReferenceIds(refs[k], defaultSheet, index)
    decreases |refs|
  {
    if |refs| > 0 {
      ReferencesToIdsMembers(refs[1..], defaultSheet, index, id);
      if id in ReferencesToIds(refs[1..], defaultSheet, index) {
        var k :| 0 <= k < |refs[1..]| && id in ReferenceIds(refs[1..][k], defaultSheet, index);
        assert id in ReferenceIds(refs[k + 1], defaultSheet, index);
      }
      if exists k :: 0 <= k < |refs| && id in ReferenceIds(refs[k], defaultSheet, index) {
        var k :| 0 <= k < |refs| && id in ReferenceIds(refs[k], defaultSheet, index);
        if k > 0 {
          assert refs[1..][k - 1] == refs[k];
        }
      }
    }
  }

  /** A fully specified cell reference names its cell; one without a sheet takes the truthy default. */
  lemma CellReferenceIds(sheet: Option<string>, row: int, col: int, defaultSheet: Option<string>, index: Option<CellIndex>)
    requires sheet.Some?
    ensures ReferenceIds(CellRef(sheet, row, col), defaultSheet, index)
         == if sheet.value == "" && Truthy(defaultSheet)
            then [CellId(CellAddress(row, col, defaultSheet.value))]
            else [CellId(CellAddress(row, col, sheet.value))]
  {
  }

  /** A variable reference stands for the variable's name, whatever the default sheet. */
  lemma VariableReferenceIds(name: string, defaultSheet: Option<string>, index: Option<CellIndex>)
    ensures ReferenceIds(VariableRef(name), defaultSheet, index) == [name]
  {
  }

  /**
   * A reference with none of the recognised properties is read as a cell: its sheet is the
   * truthy default, and every missing part prints as "undefined".
   */
  lemma ShapelessReferenceIds(defaultSheet: Option<string>, index: Option<CellIndex>)
    ensures ReferenceIds(Ref(None, None, None, None, None, None), defaultSheet, index)
         == [JoinId(if Truthy(defaultSheet) then defaultSheet.value else "undefined", "undefined", "undefined")]
  {
    assert KindOf(Ref(None, None, None, None, None, None)) == CellKind;
  }

  /** A range reference with an empty sheet expands on the truthy default sheet. */
  lemma RangeReferenceUsesDefault(from: Point, until: Point, defaultSheet: Option<string>, index: Option<CellIndex>)
    requires Truthy(defaultSheet)
    ensures ReferenceIds(RangeRef("", from, until), defaultSheet, index)
         == ReferenceIds(RangeRef(defaultSheet.value, from, until), defaultSheet, index)
  {
  }

  /**
   * Every identity a range reference produces is the identity of a cell inside the rectangle
   * on the range's sheet, and can be read back to that cell.
   */
  lemma RangeIdsInside(sheet: string, from: Point, until: Point, defaultSheet: Option<string>, index: Option<CellIndex>, id: string)
    requires sheet != ""
    requires from.row >= 0 && from.col >= 0
    requires id in ReferenceIds(RangeRef(sheet, from, until), defaultSheet, index)
    ensures exists a :: ParseCellId(id) == Some(a) && InRectangle(a, sheet, from, until)
  {
    var cells := RangeCells(sheet, from, until, index);
    assert KindOf(RangeRef(sheet, from, until)) == RangeKind;
    CellIdsInside(cells, sheet, from, until, id);
  }

  lemma CellIdsInside(cells: seq<CellAddress>, sheet: string, from: Point, until: Point, id: string)
    requires from.row >= 0 && from.col >= 0
    requires forall a :: a in cells ==> InRectangle(a, sheet, from, until)
    requires id in seq(|cells|, k requires 0 <= k < |cells| => CellId(cells[k]))
    ensures exists a :: ParseCellId(id) == Some(a) && InRectangle(a, sheet, from, until)
  {
    var ids := seq(|cells|, k requires 0 <= k < |cells| => CellId(cells[k]));
    var k :| 0 <= k < |ids| && ids[k] == id;
    assert cells[k] in cells;
    CellIdRoundTrip(cells[k]);
  }
}
