/**
 * Dependency graph builder: one node per cell and per variable, whose dependencies are the
 * identities the dependency extractor finds in its formula, and the sparse occupancy index
 * that large ranges are expanded against.
 */
module Graph {
  import opened Values
  import opened Address
  import opened References
  import opened Scheduler
  import opened Workbook

  /**
   * The dependency extractor (`DepParser`): formula text, the position it is read at and a
   * recogniser telling variable names from other identifiers, to the references it makes.
   * It may throw.
   */
  datatype Extractor = Extractor(extract: (string, Point, string -> bool) -> Outcome<seq<Ref>>)

  // ---------------------------------------------------------------------------------------------
  // The sparse occupancy index.

  /** `index` lists `a` under its sheet and column. */
  ghost predicate Indexed(index: CellIndex, a: CellAddress) {
    a.sheet in index && a.col in index[a.sheet] && a.row in index[a.sheet][a.col]
  }

  /** No column of the index lists a row twice, as a `Set` would not. */
  ghost predicate RowsDistinct(index: CellIndex) {
    forall sheet, col :: sheet in index && col in index[sheet] ==> NoDup(index[sheet][col])
  }

  /** Records one cell: the sheet and column maps are created on first use, the row added once. */
  function AddAddress(index: CellIndex, a: CellAddress): CellIndex {
    var columns := if a.sheet in index then index[a.sheet] else map[];
    var rows := if a.col in columns then columns[a.col] else [];
    index[a.sheet := columns[a.col := if a.row in rows then rows else rows + [a.row]]]
  }

  /** Adding an address lists it besides everything listed before, and keeps rows distinct. */
  lemma AddAddressSpec(index: CellIndex, a: CellAddress)
    ensures forall b :: Indexed(AddAddress(index, a), b) <==> Indexed(index, b) || b == a
    ensures forall sheet :: sheet in AddAddress(index, a) <==> sheet in index || sheet == a.sheet
    ensures RowsDistinct(index) ==> RowsDistinct(AddAddress(index, a))
  {
    var r := AddAddress(index, a);
    var columns := if a.sheet in index then index[a.sheet] else map[];
    var rows := if a.col in columns then columns[a.col] else [];
    var rows' := if a.row in rows then rows else rows + [a.row];
    assert r[a.sheet][a.col] == rows';
    forall b ensures Indexed(r, b) <==> Indexed(index, b) || b == a {
      if b.sheet == a.sheet && b.col == a.col {
        assert b.row in rows' <==> b.row in rows || b.row == a.row;
      }
    }
    if RowsDistinct(index) {
      forall sheet, col | sheet in r && col in r[sheet] ensures NoDup(r[sheet][col]) {
        if sheet == a.sheet && col == a.col && a.row !in rows {
          NoDupAppend(rows, [a.row]);
        }
      }
    }
  }

  function Addresses<V>(cells: seq<Cell<V>>): (r: seq<CellAddress>)
    ensures |r| == |cells| && forall k :: 0 <= k < |cells| ==> r[k] == cells[k].address
  {
    seq(|cells|, k requires 0 <= k < |cells| => cells[k].address)
  }

  /**
   * The `cellIndex` of `_topologicallySortCells`, built by scanning the cells in order: it
   * lists exactly the addresses scanned, has exactly their sheets, and no row twice.
   */
  function SparseIndex(addresses: seq<CellAddress>): (r: CellIndex)
    ensures forall a :: Indexed(r, a) <==> a in addresses
    ensures forall sheet :: sheet in r <==> exists a :: a in addresses && a.sheet == sheet
    ensures RowsDistinct(r)
    decreases |addresses|
  {
    if |addresses| == 0 then map[]
    else
      var previous := addresses[..|addresses| - 1];
      var a := addresses[|addresses| - 1];
      assert addresses == previous + [a];
      AddAddressSpec(SparseIndex(previous), a);
      assert forall b :: b in addresses <==> b in previous || b == a;
      AddAddress(SparseIndex(previous), a)
  }

  // ---------------------------------------------------------------------------------------------
  // Nodes.

  /** `row || 1`: the extractor is given row (column) 1 in place of 0. */
  function OrOne(i: int): (r: int)
    ensures r != 0 && (i != 0 ==> r == i) && (i == 0 ==> r == 1)
  {
    if i == 0 then 1 else i
  }

  /**
   * `_createDependencyNodeWithFormula`: the formula without its marker is extracted at the
   * given position; the node reads the identities of the references found, normalised against
   * `sheet` and the index, and reads nothing when extraction throws.
   */
  function FormulaNode(x: Extractor, isVariable: string -> bool, id: string, formula: string,
                       row: int, col: int, sheet: Option<string>, index: CellIndex): (n: Node)
    ensures n.id == id
    ensures x.extract(StripMarker(formula), Point(OrOne(row), OrOne(col)), isVariable).Threw? ==> n.deps == {}
  {
    match x.extract(StripMarker(formula), Point(OrOne(row), OrOne(col)), isVariable)
    case Threw => Node(id, {})
    case Returned(refs) => Node(id, SetOf(ReferencesToIds(refs, sheet, Some(index))))
  }

  /** `_convertCellToDependencyNode`: a cell without formula text reads nothing. */
  function CellNode<V>(x: Extractor, isVariable: string -> bool, c: Cell<V>, index: CellIndex): (n: Node)
    ensures n.id == CellId(c.address)
    ensures !HasFormula(c) ==> n.deps == {}
  {
    if !HasFormula(c) then Node(CellId(c.address), {})
    else
      FormulaNode(x, isVariable, CellId(c.address), c.formulaData.value.formulaString,
                  c.address.row, c.address.col, Some(c.address.sheet), index)
  }

  /** `_convertVariableToDependencyNode`: a variable's formula is read at (1, 1) with no default sheet. */
  function VariableNode<V>(x: Extractor, isVariable: string -> bool, v: Variable<V>, index: CellIndex): (n: Node)
    ensures n.id == v.name
    ensures v.formula == "" ==> n.deps == {}
  {
    if v.formula == "" then Node(v.name, {})
    else FormulaNode(x, isVariable, v.name, v.formula, 1, 1, None, index)
  }

  /** The recogniser handed to the extractor: is `name` the name of a variable? */
  function Recogniser<V>(variables: seq<Variable<V>>): string -> bool {
    name => name in VariableNames(variables)
  }

  /** The nodes of `_topologicallySortCells`: every cell's, in order, then every variable's. */
  function BuildNodes<V>(x: Extractor, w: Book<V>): (r: seq<Node>)
    ensures |r| == |w.cells| + |w.variables|
    ensures forall k :: 0 <= k < |w.cells| ==>
      r[k] == CellNode(x, Recogniser(w.variables), w.cells[k], SparseIndex(Addresses(w.cells)))
    ensures forall k :: 0 <= k < |w.variables| ==>
      r[|w.cells| + k] == VariableNode(x, Recogniser(w.variables), w.variables[k], SparseIndex(Addresses(w.cells)))
  {
    var isVariable := Recogniser(w.variables);
    var index := SparseIndex(Addresses(w.cells));
    seq(|w.cells|, k requires 0 <= k < |w.cells| => CellNode(x, isVariable, w.cells[k], index))
    + seq(|w.variables|, k requires 0 <= k < |w.variables| => VariableNode(x, isVariable, w.variables[k], index))
  }

  lemma BuildNodesCellId<V>(x: Extractor, w: Book<V>, k: nat)
    requires k < |w.cells|
    ensures BuildNodes(x, w)[k].id == CellIds(w.cells)[k]
  {
    assert BuildNodes(x, w)[k] == CellNode(x, Recogniser(w.variables), w.cells[k], SparseIndex(Addresses(w.cells)));
  }

  lemma BuildNodesVariableId<V>(x: Extractor, w: Book<V>, j: nat)
    requires j < |w.variables|
    ensures BuildNodes(x, w)[|w.cells| + j].id == VariableNames(w.variables)[j]
  {
    assert BuildNodes(x, w)[|w.cells| + j]
        == VariableNode(x, Recogniser(w.variables), w.variables[j], SparseIndex(Addresses(w.cells)));
  }

  /** The identities of the nodes are the cells' identities followed by the variables' names. */
  lemma BuildNodesIds<V>(x: Extractor, w: Book<V>)
    ensures forall k :: 0 <= k < |w.cells| ==> BuildNodes(x, w)[k].id == CellIds(w.cells)[k]
    ensures forall k :: |w.cells| <= k < |BuildNodes(x, w)| ==>
      BuildNodes(x, w)[k].id == VariableNames(w.variables)[k - |w.cells|]
  {
    forall k | 0 <= k < |w.cells| ensures BuildNodes(x, w)[k].id == CellIds(w.cells)[k] {
      BuildNodesCellId(x, w, k);
    }
    forall k | |w.cells| <= k < |BuildNodes(x, w)|
      ensures BuildNodes(x, w)[k].id == VariableNames(w.variables)[k - |w.cells|]
    {
      BuildNodesVariableId(x, w, k - |w.cells|);
    }
  }

  /** With distinct identities in the workbook, the nodes have distinct identities. */
  lemma BuildNodesUnique<V>(x: Extractor, w: Book<V>)
    requires DistinctIds(w)
    ensures UniqueIds(BuildNodes(x, w))
  {
    var r := BuildNodes(x, w);
    var ids := CellIds(w.cells) + VariableNames(w.variables);
    BuildNodesIds(x, w);
    assert forall k :: 0 <= k < |r| ==> r[k].id == ids[k];
  }

  /** The identities the nodes carry: those of the cells and the names of the variables. */
  lemma BuildNodesIdSet<V>(x: Extractor, w: Book<V>)
    ensures IdSet(BuildNodes(x, w)) == SetOf(CellIds(w.cells) + VariableNames(w.variables))
  {
    var r := BuildNodes(x, w);
    var ids := CellIds(w.cells) + VariableNames(w.variables);
    BuildNodesIds(x, w);
    assert forall k :: 0 <= k < |r| ==> r[k].id == ids[k];
    IdSetOfIds(r, ids);
  }

  /** `_topologicallySortCells`: the scheduled nodes of the workbook. */
  function SortCells<V>(x: Extractor, w: Book<V>): (s: Schedule)
    requires DistinctIds(w)
    ensures multiset(s.sorted + s.residual) == multiset(BuildNodes(x, w))
    ensures DependenciesFirst(s.sorted)
  {
    BuildNodesUnique(x, w);
    TopologicalSort(BuildNodes(x, w))
  }

  // ---------------------------------------------------------------------------------------------
  // Properties of the builder.

  /** A leading marker makes no difference to the node built from a formula. */
  lemma FormulaNodeMarker(x: Extractor, isVariable: string -> bool, id: string, f: string,
                          row: int, col: int, sheet: Option<string>, index: CellIndex)
    requires |f| == 0 || f[0] != '='
    ensures FormulaNode(x, isVariable, id, "=" + f, row, col, sheet, index)
         == FormulaNode(x, isVariable, id, f, row, col, sheet, index)
  {
    StripMarkerSpec(f);
  }

  /** Row 0 and column 0 are read as 1. */
  lemma FormulaNodeOrigin(x: Extractor, isVariable: string -> bool, id: string, formula: string,
                          row: int, col: int, sheet: Option<string>, index: CellIndex)
    ensures FormulaNode(x, isVariable, id, formula, 0, col, sheet, index)
         == FormulaNode(x, isVariable, id, formula, 1, col, sheet, index)
    ensures FormulaNode(x, isVariable, id, formula, row, 0, sheet, index)
         == FormulaNode(x, isVariable, id, formula, row, 1, sheet, index)
  {
  }

  /**
   * When extraction succeeds, the node reads an identity exactly when some reference found
   * stands for it.
   */
  lemma FormulaNodeDeps(x: Extractor, isVariable: string -> bool, id: string, formula: string,
                        row: int, col: int, sheet: Option<string>, index: CellIndex, d: string)
    requires x.extract(StripMarker(formula), Point(OrOne(row), OrOne(col)), isVariable).Returned?
    ensures d in FormulaNode(x, isVariable, id, formula, row, col, sheet, index).deps <==>
      var refs := x.extract(StripMarker(formula), Point(OrOne(row), OrOne(col)), isVariable).value;
      exists k :: 0 <= k < |refs| && d in ReferenceIds(refs[k], sheet, Some(index))
  {
    var refs := x.extract(StripMarker(formula), Point(OrOne(row), OrOne(col)), isVariable).value;
    ReferencesToIdsMembers(refs, sheet, Some(index), d);
  }

  /**
   * A cell formula's reference to a cell without a sheet depends on that position of the
   * cell's own sheet (when that sheet's name is not empty).
   */
  lemma CellFormulaUsesOwnSheet<V>(x: Extractor, isVariable: string -> bool, c: Cell<V>, index: CellIndex, row: int, col: int)
    requires HasFormula(c) && c.address.sheet != ""
    requires var e := x.extract(StripMarker(c.formulaData.value.formulaString),
                                Point(OrOne(c.address.row), OrOne(c.address.col)), isVariable);
      e.Returned? && CellRef(None, row, col) in e.value
    ensures CellId(CellAddress(row, col, c.address.sheet)) in CellNode(x, isVariable, c, index).deps
  {
    var refs := x.extract(StripMarker(c.formulaData.value.formulaString),
                          Point(OrOne(c.address.row), OrOne(c.address.col)), isVariable).value;
    var k :| 0 <= k < |refs| && refs[k] == CellRef(None, row, col);
    FormulaNodeDeps(x, isVariable, CellId(c.address), c.formulaData.value.formulaString,
                    c.address.row, c.address.col, Some(c.address.sheet), index,
                    CellId(CellAddress(row, col, c.address.sheet)));
  }

  /**
   * A variable formula's reference to a cell without a sheet gets no default: it depends on
   * the identity `undefined-row-col`, which is a cell's only on a sheet named "undefined".
   */
  lemma VariableFormulaHasNoSheet<V>(x: Extractor, isVariable: string -> bool, v: Variable<V>, index: CellIndex, row: int, col: int)
    requires v.formula != ""
    requires var e := x.extract(StripMarker(v.formula), Point(1, 1), isVariable);
      e.Returned? && CellRef(None, row, col) in e.value
    ensures CellId(CellAddress(row, col, "undefined")) in VariableNode(x, isVariable, v, index).deps
  {
    var refs := x.extract(StripMarker(v.formula), Point(1, 1), isVariable).value;
    var k :| 0 <= k < |refs| && refs[k] == CellRef(None, row, col);
    FormulaNodeDeps(x, isVariable, v.name, v.formula, 1, 1, None, index,
                    CellId(CellAddress(row, col, "undefined")));
  }

  /**
   * A cell or variable whose formula reads an identity that is neither a cell's nor a
   * variable's (an empty position, say) is never sorted: it ends up residual.
   */
  lemma UnknownDependencyIsResidual<V>(x: Extractor, w: Book<V>, k: nat, d: string)
    requires DistinctIds(w) && k < |BuildNodes(x, w)|
    requires d in BuildNodes(x, w)[k].deps
    requires d !in CellIds(w.cells) && d !in VariableNames(w.variables)
    ensures BuildNodes(x, w)[k] in SortCells(x, w).residual
  {
    BuildNodesUnique(x, w);
    BuildNodesIdSet(x, w);
    MissingDependencyIsResidual(BuildNodes(x, w), BuildNodes(x, w)[k], d);
  }

  /** Every cell and every variable is scheduled: its node is sorted or residual. */
  lemma EveryIdScheduled<V>(x: Extractor, w: Book<V>, id: string)
    requires DistinctIds(w)
    requires id in CellIds(w.cells) || id in VariableNames(w.variables)
    ensures exists n :: n in SortCells(x, w).sorted + SortCells(x, w).residual && n.id == id
  {
    var nodes := BuildNodes(x, w);
    var s := SortCells(x, w);
    BuildNodesIdSet(x, w);
    assert id in IdSet(nodes);
    var n :| n in nodes && n.id == id;
    assert n in multiset(s.sorted + s.residual);
  }

  /** No identity is both sorted and residual. */
  lemma SortedApartFromResidual<V>(x: Extractor, w: Book<V>, a: Node, b: Node)
    requires DistinctIds(w)
    requires a in SortCells(x, w).sorted && b in SortCells(x, w).residual
    ensures a.id != b.id
  {
    var nodes := BuildNodes(x, w);
    var s := SortCells(x, w);
    BuildNodesUnique(x, w);
    SortedOrResidual(nodes);
    assert a in s.sorted + s.residual && b in s.sorted + s.residual;
    if a.id == b.id {
      SameIdSameNode(nodes, a, b);
    }
  }

  /** No identity occurs twice among the sorted and the residual nodes together. */
  lemma ScheduleUnique<V>(x: Extractor, w: Book<V>)
    requires DistinctIds(w)
    ensures UniqueIds(SortCells(x, w).sorted + SortCells(x, w).residual)
    ensures UniqueIds(SortCells(x, w).sorted) && UniqueIds(SortCells(x, w).residual)
  {
    BuildNodesUnique(x, w);
    ScheduleIdsUnique(BuildNodes(x, w));
  }
}
