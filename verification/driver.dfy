/**
 * Recalculation driver: `evaluateFormula`, and `evaluateWorkbook`, which schedules the nodes,
 * evaluates the sorted ones once in order (honouring pre-cached results) and then sweeps the
 * residual cells a fixed number of times.
 */
module Driver {
  import opened Values
  import opened Address
  import opened References
  import opened Scheduler
  import opened Workbook
  import opened Graph

  /** The callbacks through which a formula evaluator reads the workbook. */
  datatype Lookups<V> = Lookups(
    onCell: CellQuery -> Slot<V>,
    onRange: RangeQuery -> Outcome<seq<seq<Slot<V>>>>,
    onVariable: string -> Slot<V>)

  /**
   * The formula evaluator (`FormulaParser`): formula text, the position it is evaluated at and
   * the lookups, to a value; it may throw. `zero` is the number 0 of its value domain.
   */
  datatype Evaluator<!V> = Evaluator(evaluate: (string, CellAddress, Lookups<V>) -> Outcome<Slot<V>>, zero: V)

  /** `MAX_ITER`: the number of sweeps over the residual nodes. */
  const MaxIter: nat := 30

  /** The position a formula is evaluated at when no context is given. */
  const DefaultPosition := CellAddress(1, 1, "Sheet1")

  /** The callbacks over the workbook as it stands, so that an evaluation sees every earlier write. */
  function LookupsOf<V>(w: Book<V>, zero: V): Lookups<V> {
    Lookups(q => OnCell(w, zero, q), q => OnRange(w, zero, q), name => OnVariable(w, zero, name))
  }

  /**
   * `evaluateFormula`: the formula without its marker, at the context position or (1, 1) of
   * "Sheet1"; the result is what the evaluator returns, or 0 when it throws.
   */
  function EvaluateFormula<V>(e: Evaluator<V>, formula: string, context: Option<CellAddress>, lookups: Lookups<V>): (r: Slot<V>)
    ensures var out := e.evaluate(StripMarker(formula), context.GetOr(DefaultPosition), lookups);
      && (out.Returned? ==> r == out.value)
      && (out.Threw? ==> r == Defined(e.zero))
  {
    match e.evaluate(StripMarker(formula), context.GetOr(DefaultPosition), lookups)
    case Returned(v) => v
    case Threw => Defined(e.zero)
  }

  // ---------------------------------------------------------------------------------------------
  // What the driver writes.

  /** A cell whose formula data caches a result (neither undefined nor null). */
  predicate PreCached<V>(c: Cell<V>) {
    c.formulaData.Some? && c.formulaData.value.cachesResult.Defined?
  }

  /** The pre-cache short-circuit: the cached result copied into the value. */
  function CopyCache<V>(c: Cell<V>): (r: Cell<V>)
    requires PreCached(c)
    ensures PreCached(r) && r.value == r.formulaData.value.cachesResult
    ensures SameCellShape(c, r) && r.formulaData == c.formulaData
  {
    c.(value := c.formulaData.value.cachesResult)
  }

  /** The result of a cell's formula in `w`, evaluated at the cell's own position. */
  function Recompute<V>(e: Evaluator<V>, w: Book<V>, c: Cell<V>): Slot<V>
    requires HasFormula(c)
  {
    EvaluateFormula(e, c.formulaData.value.formulaString, Some(c.address), LookupsOf(w, e.zero))
  }

  /** A cell with `result` written to both its value and its cached result. */
  function Store<V>(c: Cell<V>, result: Slot<V>): (r: Cell<V>)
    requires c.formulaData.Some?
    ensures r.formulaData.Some? && r.value == result && r.formulaData.value.cachesResult == result
    ensures SameCellShape(c, r)
  {
    c.(value := result, formulaData := Some(c.formulaData.value.(cachesResult := result)))
  }

  /** A formula cell whose value agrees with its cached result. */
  ghost predicate Settled<V>(c: Cell<V>) {
    HasFormula(c) ==> c.value == c.formulaData.value.cachesResult
  }

  /** The parts of a cell the driver never writes. */
  predicate SameCellShape<V>(a: Cell<V>, b: Cell<V>) {
    && a.kind == b.kind && a.address == b.address
    && a.formulaData.Some? == b.formulaData.Some?
    && (a.formulaData.Some? ==> a.formulaData.value.formulaString == b.formulaData.value.formulaString)
  }

  /**
   * `r` differs from `w` only where the driver writes: the cells' values and cached results
   * and the variables' results.
   */
  ghost predicate SameShape<V>(w: Book<V>, r: Book<V>) {
    && r.sheets == w.sheets
    && |r.cells| == |w.cells|
    && (forall p :: 0 <= p < |w.cells| ==> SameCellShape(w.cells[p], r.cells[p]))
    && |r.variables| == |w.variables|
    && (forall k :: 0 <= k < |w.variables| ==> r.variables[k] == w.variables[k].(result := r.variables[k].result))
  }

  lemma SameShapeTransitive<V>(a: Book<V>, b: Book<V>, c: Book<V>)
    requires SameShape(a, b) && SameShape(b, c)
    ensures SameShape(a, c)
  {
  }

  /** Writing only values, caches and results keeps identities, and so the lookups by identity. */
  lemma SameShapeIds<V>(w: Book<V>, r: Book<V>)
    requires SameShape(w, r)
    ensures CellIds(r.cells) == CellIds(w.cells)
    ensures VariableNames(r.variables) == VariableNames(w.variables)
  {
  }

  /** With distinct cell identities, a cell is found under its own identity. */
  lemma FindCellOwn<V>(cells: seq<Cell<V>>, p: nat)
    requires NoDup(CellIds(cells)) && p < |cells|
    ensures FindCell(cells, CellId(cells[p].address)) == Some(p)
  {
    var ids := CellIds(cells);
    assert ids[p] in ids;
  }

  // ---------------------------------------------------------------------------------------------
  // Pass 1: the sorted nodes, once each, in order.

  /** `w` with cell `p` replaced by `c`, a cell of the same shape. */
  function SetCell<V>(w: Book<V>, p: nat, c: Cell<V>): (r: Book<V>)
    requires p < |w.cells| && SameCellShape(w.cells[p], c)
    ensures SameShape(w, r) && r.variables == w.variables
    ensures r.cells[p] == c && forall q :: 0 <= q < |w.cells| && q != p ==> r.cells[q] == w.cells[q]
  {
    w.(cells := w.cells[p := c])
  }

  /** `w` with the result of variable `k` replaced by `result`. */
  function SetResult<V>(w: Book<V>, k: nat, result: Slot<V>): (r: Book<V>)
    requires k < |w.variables|
    ensures SameShape(w, r) && r.cells == w.cells
    ensures r.variables[k].result == result && forall j :: 0 <= j < |w.variables| && j != k ==> r.variables[j] == w.variables[j]
  {
    w.(variables := w.variables[k := w.variables[k].(result := result)])
  }

  /**
   * One node of pass 1. A variable (an identity that is no cell's) with a formula gets the
   * formula's result; a cell without formula data is skipped; a pre-cached cell gets its
   * cached result as value; any other formula cell gets its formula's result as both value
   * and cached result. Nothing else changes.
   */
  function Pass1Step<V>(e: Evaluator<V>, w: Book<V>, id: string): (r: Book<V>)
    ensures SameShape(w, r)
    ensures forall p :: 0 <= p < |w.cells| && CellId(w.cells[p].address) != id ==> r.cells[p] == w.cells[p]
    ensures forall k :: 0 <= k < |w.variables| && w.variables[k].name != id ==> r.variables[k] == w.variables[k]
  {
    match FindCell(w.cells, id)
    case None => (
      match FindVariable(w.variables, id)
      case None => w
      case Some(k) =>
        if w.variables[k].formula == "" then w
        else SetResult(w, k, EvaluateFormula(e, w.variables[k].formula, None, LookupsOf(w, e.zero))))
    case Some(p) =>
      var c := w.cells[p];
      if c.formulaData.None? then w
      else if PreCached(c) then SetCell(w, p, CopyCache(c))
      else if HasFormula(c) then SetCell(w, p, Store(c, Recompute(e, w, c)))
      else w
  }

  /**
   * What pass 1 does to the cell of the identity it visits: it ends settled; a pre-cached cell
   * holds exactly its cached result; otherwise a formula cell holds its formula's result, and
   * any other cell is left as it was. The variables are untouched.
   */
  lemma Pass1StepCell<V>(e: Evaluator<V>, w: Book<V>, id: string, p: nat)
    requires FindCell(w.cells, id) == Some(p)
    ensures Settled(Pass1Step(e, w, id).cells[p])
    ensures PreCached(w.cells[p]) ==> Pass1Step(e, w, id).cells[p] == CopyCache(w.cells[p])
    ensures !PreCached(w.cells[p]) && HasFormula(w.cells[p]) ==>
      Pass1Step(e, w, id).cells[p].value == Recompute(e, w, w.cells[p])
    ensures !PreCached(w.cells[p]) && !HasFormula(w.cells[p]) ==> Pass1Step(e, w, id).cells[p] == w.cells[p]
    ensures Pass1Step(e, w, id).variables == w.variables
  {
  }

  /** A step writes at most the cell its identity finds. */
  lemma Pass1StepOthers<V>(e: Evaluator<V>, w: Book<V>, id: string, q: nat)
    requires q < |w.cells| && FindCell(w.cells, id) != Some(q)
    ensures Pass1Step(e, w, id).cells[q] == w.cells[q]
  {
    match FindCell(w.cells, id)
    case None =>
    case Some(p) =>
      var c := w.cells[p];
      if c.formulaData.Some? && PreCached(c) {
        assert Pass1Step(e, w, id) == SetCell(w, p, CopyCache(c));
      } else if c.formulaData.Some? && HasFormula(c) {
        assert Pass1Step(e, w, id) == SetCell(w, p, Store(c, Recompute(e, w, c)));
      }
  }

  /** Pass 1 keeps settled cells settled. */
  lemma Pass1StepKeepsSettled<V>(e: Evaluator<V>, w: Book<V>, id: string, q: nat)
    requires q < |w.cells|
    ensures Settled(w.cells[q]) ==> Settled(Pass1Step(e, w, id).cells[q])
  {
    if FindCell(w.cells, id) == Some(q) {
      Pass1StepCell(e, w, id, q);
    } else {
      Pass1StepOthers(e, w, id, q);
    }
  }

  /** A variable with a formula visited by pass 1 gets that formula's result, evaluated without a context. */
  lemma Pass1StepVariable<V>(e: Evaluator<V>, w: Book<V>, id: string, k: nat)
    requires FindCell(w.cells, id).None? && FindVariable(w.variables, id) == Some(k)
    requires w.variables[k].formula != ""
    ensures Pass1Step(e, w, id).variables[k].result == EvaluateFormula(e, w.variables[k].formula, None, LookupsOf(w, e.zero))
    ensures Pass1Step(e, w, id).cells == w.cells
  {
  }

  /** The identities of `nodes[1..]` and of the first node are those of `nodes`. */
  lemma IdSetCons(nodes: seq<Node>)
    requires |nodes| > 0
    ensures IdSet(nodes) == {nodes[0].id} + IdSet(nodes[1..])
  {
    assert forall n :: n in nodes <==> n == nodes[0] || n in nodes[1..];
  }

  /** Pass 1 over `nodes`: cells and variables of identities not visited are untouched. */
  function Pass1<V>(e: Evaluator<V>, w: Book<V>, nodes: seq<Node>): (r: Book<V>)
    ensures SameShape(w, r)
    ensures forall p :: 0 <= p < |w.cells| && CellId(w.cells[p].address) !in IdSet(nodes) ==> r.cells[p] == w.cells[p]
    ensures forall k :: 0 <= k < |w.variables| && w.variables[k].name !in IdSet(nodes) ==> r.variables[k] == w.variables[k]
    decreases |nodes|
  {
    if |nodes| == 0 then w
    else
      var w1 := Pass1Step(e, w, nodes[0].id);
      var r := Pass1(e, w1, nodes[1..]);
      SameShapeTransitive(w, w1, r);
      IdSetCons(nodes);
      r
  }

  /**
   * With distinct cell identities, pass 1 leaves every cell of a visited identity settled, a
   * pre-cached one holding exactly its cached result, and keeps settled cells settled.
   */
  lemma {:induction false} Pass1Cell<V>(e: Evaluator<V>, w: Book<V>, nodes: seq<Node>, p: nat)
    requires NoDup(CellIds(w.cells)) && p < |w.cells|
    ensures Settled(w.cells[p]) ==> Settled(Pass1(e, w, nodes).cells[p])
    ensures CellId(w.cells[p].address) in IdSet(nodes) ==> Settled(Pass1(e, w, nodes).cells[p])
    ensures CellId(w.cells[p].address) in IdSet(nodes) && PreCached(w.cells[p]) ==>
      Pass1(e, w, nodes).cells[p] == CopyCache(w.cells[p])
    decreases |nodes|
  {
    if |nodes| > 0 {
      var id := CellId(w.cells[p].address);
      var w1 := Pass1Step(e, w, nodes[0].id);
      var r := Pass1(e, w1, nodes[1..]);
      assert Pass1(e, w, nodes) == r;
      SameShapeIds(w, w1);
      assert w1.cells[p].address == w.cells[p].address;
      Pass1Cell(e, w1, nodes[1..], p);
      IdSetCons(nodes);
      Pass1StepKeepsSettled(e, w, nodes[0].id, p);
      if id == nodes[0].id {
        FindCellOwn(w.cells, p);
        Pass1StepCell(e, w, nodes[0].id, p);
        if PreCached(w.cells[p]) {
          var c := w.cells[p];
          assert CopyCache(CopyCache(c)) == CopyCache(c);
        }
      } else {
        assert w1.cells[p] == w.cells[p];
      }
    }
  }

  // ---------------------------------------------------------------------------------------------
  // Pass 2: a fixed number of sweeps over the residual nodes.

  /**
   * One node of a residual sweep: a formula cell with formula text gets its formula's result
   * as value and cached result, whatever it cached before; variables and other cells are left
   * alone.
   */
  function Reevaluate<V>(e: Evaluator<V>, w: Book<V>, id: string): (r: Book<V>)
    ensures SameShape(w, r) && r.variables == w.variables
    ensures forall p :: 0 <= p < |w.cells| && CellId(w.cells[p].address) != id ==> r.cells[p] == w.cells[p]
    ensures forall p :: 0 <= p < |w.cells| && !HasFormula(w.cells[p]) ==> r.cells[p] == w.cells[p]
  {
    match FindCell(w.cells, id)
    case None => w
    case Some(p) =>
      if HasFormula(w.cells[p]) then SetCell(w, p, Store(w.cells[p], Recompute(e, w, w.cells[p]))) else w
  }

  /** A residual formula cell is evaluated again, even when it caches a result, and ends settled. */
  lemma ReevaluateCell<V>(e: Evaluator<V>, w: Book<V>, id: string, p: nat)
    requires FindCell(w.cells, id) == Some(p) && HasFormula(w.cells[p])
    ensures Reevaluate(e, w, id).cells[p].value == Recompute(e, w, w.cells[p])
    ensures Reevaluate(e, w, id).cells[p].formulaData.value.cachesResult == Recompute(e, w, w.cells[p])
  {
  }

  /** A sweep keeps settled cells settled. */
  lemma ReevaluateKeepsSettled<V>(e: Evaluator<V>, w: Book<V>, id: string, q: nat)
    requires q < |w.cells|
    ensures Settled(w.cells[q]) ==> Settled(Reevaluate(e, w, id).cells[q])
  {
    if FindCell(w.cells, id) == Some(q) && HasFormula(w.cells[q]) {
      ReevaluateCell(e, w, id, q);
    }
  }

  /** One sweep: every node of `nodes`, in order. */
  function Sweep<V>(e: Evaluator<V>, w: Book<V>, nodes: seq<Node>): (r: Book<V>)
    ensures SameShape(w, r) && r.variables == w.variables
    ensures forall p :: 0 <= p < |w.cells| && CellId(w.cells[p].address) !in IdSet(nodes) ==> r.cells[p] == w.cells[p]
    ensures forall p :: 0 <= p < |w.cells| && !HasFormula(w.cells[p]) ==> r.cells[p] == w.cells[p]
    decreases |nodes|
  {
    if |nodes| == 0 then w
    else
      var previous := nodes[..|nodes| - 1];
      var w1 := Sweep(e, w, previous);
      var r := Reevaluate(e, w1, nodes[|nodes| - 1].id);
      SameShapeTransitive(w, w1, r);
      IdSetSnoc(nodes);
      r
  }

  /** The identities of `nodes` are those of all but its last node, and the last node's. */
  lemma IdSetSnoc(nodes: seq<Node>)
    requires |nodes| > 0
    ensures IdSet(nodes) == IdSet(nodes[..|nodes| - 1]) + {nodes[|nodes| - 1].id}
  {
    assert nodes == nodes[..|nodes| - 1] + [nodes[|nodes| - 1]];
    assert forall n :: n in nodes <==> n in nodes[..|nodes| - 1] || n == nodes[|nodes| - 1];
  }

  /**
   * With distinct cell identities, a sweep leaves every cell of a visited identity settled and
   * keeps settled cells settled.
   */
  lemma {:induction false} SweepCell<V>(e: Evaluator<V>, w: Book<V>, nodes: seq<Node>, p: nat)
    requires NoDup(CellIds(w.cells)) && p < |w.cells|
    ensures Settled(w.cells[p]) ==> Settled(Sweep(e, w, nodes).cells[p])
    ensures CellId(w.cells[p].address) in IdSet(nodes) ==> Settled(Sweep(e, w, nodes).cells[p])
    decreases |nodes|
  {
    if |nodes| > 0 {
      var previous := nodes[..|nodes| - 1];
      var id := nodes[|nodes| - 1].id;
      var w1 := Sweep(e, w, previous);
      assert Sweep(e, w, nodes) == Reevaluate(e, w1, id);
      SweepCell(e, w, previous, p);
      SameShapeIds(w, w1);
      assert w1.cells[p].address == w.cells[p].address;
      IdSetSnoc(nodes);
      ReevaluateKeepsSettled(e, w1, id, p);
      if CellId(w.cells[p].address) == id && HasFormula(w1.cells[p]) {
        FindCellOwn(w1.cells, p);
        ReevaluateCell(e, w1, id, p);
      }
    }
  }

  /** `n` sweeps over the same nodes. */
  function Sweeps<V>(e: Evaluator<V>, w: Book<V>, nodes: seq<Node>, n: nat): (r: Book<V>)
    ensures SameShape(w, r) && r.variables == w.variables
    ensures forall p :: 0 <= p < |w.cells| && CellId(w.cells[p].address) !in IdSet(nodes) ==> r.cells[p] == w.cells[p]
    ensures forall p :: 0 <= p < |w.cells| && !HasFormula(w.cells[p]) ==> r.cells[p] == w.cells[p]
  {
    if n == 0 then w
    else
      var w1 := Sweeps(e, w, nodes, n - 1);
      var r := Sweep(e, w1, nodes);
      SameShapeTransitive(w, w1, r);
      r
  }

  /** After at least one sweep, every cell of a visited identity is settled. */
  lemma {:induction false} SweepsCell<V>(e: Evaluator<V>, w: Book<V>, nodes: seq<Node>, n: nat, p: nat)
    requires NoDup(CellIds(w.cells)) && p < |w.cells|
    ensures Settled(w.cells[p]) ==> Settled(Sweeps(e, w, nodes, n).cells[p])
    ensures n > 0 && CellId(w.cells[p].address) in IdSet(nodes) ==> Settled(Sweeps(e, w, nodes, n).cells[p])
  {
    if n > 0 {
      var w1 := Sweeps(e, w, nodes, n - 1);
      SweepsCell(e, w, nodes, n - 1, p);
      SameShapeIds(w, w1);
      assert w1.cells[p].address == w.cells[p].address;
      SweepCell(e, w1, nodes, p);
    }
  }

  /** How many of `nodes` name a formula cell with formula text: the evaluations of one sweep. */
  function Evaluable<V>(w: Book<V>, nodes: seq<Node>): (k: nat)
    ensures k <= |nodes|
  {
    if |nodes| == 0 then 0
    else
      var id := nodes[|nodes| - 1].id;
      Evaluable(w, nodes[..|nodes| - 1])
      + (if FindCell(w.cells, id).Some? && HasFormula(w.cells[FindCell(w.cells, id).value]) then 1 else 0)
  }

  /** The count does not change while only values, caches and results are written. */
  lemma {:induction false} EvaluableShape<V>(w: Book<V>, r: Book<V>, nodes: seq<Node>)
    requires SameShape(w, r)
    ensures Evaluable(r, nodes) == Evaluable(w, nodes)
    decreases |nodes|
  {
    if |nodes| > 0 {
      SameShapeIds(w, r);
      EvaluableShape(w, r, nodes[..|nodes| - 1]);
    }
  }

  /** Sweeping one more node is re-evaluating it after the sweep so far. */
  lemma SweepSnoc<V>(e: Evaluator<V>, w: Book<V>, nodes: seq<Node>, i: nat)
    requires i < |nodes|
    ensures Sweep(e, w, nodes[..i + 1]) == Reevaluate(e, Sweep(e, w, nodes[..i]), nodes[i].id)
  {
    assert nodes[..i + 1][..i] == nodes[..i];
  }

  /** Counting one more node adds one exactly when it names a formula cell with formula text. */
  lemma EvaluableSnoc<V>(w: Book<V>, r: Book<V>, nodes: seq<Node>, i: nat)
    requires i < |nodes| && SameShape(w, r)
    ensures var found := FindCell(r.cells, nodes[i].id);
      Evaluable(w, nodes[..i + 1])
        == Evaluable(w, nodes[..i]) + (if found.Some? && HasFormula(r.cells[found.value]) then 1 else 0)
  {
    assert nodes[..i + 1][..i] == nodes[..i];
    SameShapeIds(w, r);
  }

  /** The inner loop of pass 2: one sweep, counting the evaluations. */
  method RunSweep<V>(e: Evaluator<V>, w: Book<V>, residual: seq<Node>) returns (r: Book<V>, evaluations: nat)
    ensures r == Sweep(e, w, residual)
    ensures evaluations == Evaluable(w, residual)
  {
    r := w;
    evaluations := 0;
    var i := 0;
    while i < |residual|
      invariant 0 <= i <= |residual|
      invariant r == Sweep(e, w, residual[..i])
      invariant evaluations == Evaluable(w, residual[..i])
    {
      r, evaluations := SweepNode(e, w, residual, i, r, evaluations);
      i := i + 1;
    }
    assert residual[..i] == residual;
  }

  /** One iteration of the inner loop: re-evaluate node `i`, counting it when it is evaluated. */
  method SweepNode<V>(e: Evaluator<V>, w: Book<V>, residual: seq<Node>, i: nat, r: Book<V>, evaluations: nat)
    returns (r': Book<V>, evaluations': nat)
    requires i < |residual| && r == Sweep(e, w, residual[..i]) && evaluations == Evaluable(w, residual[..i])
    ensures r' == Sweep(e, w, residual[..i + 1]) && evaluations' == Evaluable(w, residual[..i + 1])
  {
    var id := residual[i].id;
    SweepSnoc(e, w, residual, i);
    EvaluableSnoc(w, r, residual, i);
    var found := FindCell(r.cells, id);
    evaluations' := evaluations;
    if found.Some? && HasFormula(r.cells[found.value]) {
      evaluations' := evaluations + 1;
    }
    r' := Reevaluate(e, r, id);
  }

  /** One more sweep is a sweep after the sweeps so far. */
  lemma SweepsSucc<V>(e: Evaluator<V>, w: Book<V>, nodes: seq<Node>, n: nat)
    ensures Sweeps(e, w, nodes, n + 1) == Sweep(e, Sweeps(e, w, nodes, n), nodes)
  {
  }

  /** `n` times `k`, as repeated addition. */
  function Repeated(k: nat, n: nat): nat {
    if n == 0 then 0 else Repeated(k, n - 1) + k
  }

  lemma {:induction false} RepeatedIsProduct(k: nat, n: nat)
    ensures Repeated(k, n) == n * k
  {
    if n > 0 {
      RepeatedIsProduct(k, n - 1);
    }
  }

  /** Sweeping never changes which residual nodes name a formula cell. */
  lemma {:induction false} SweepsEvaluable<V>(e: Evaluator<V>, w: Book<V>, nodes: seq<Node>, n: nat)
    ensures Evaluable(Sweeps(e, w, nodes, n), nodes) == Evaluable(w, nodes)
  {
    EvaluableShape(w, Sweeps(e, w, nodes, n), nodes);
  }

  /** One iteration of the pass-2 loop: a sweep, with its evaluations added to the count. */
  method SweepAgain<V>(e: Evaluator<V>, w: Book<V>, residual: seq<Node>, iter: nat, r: Book<V>, evaluations: nat)
    returns (r': Book<V>, evaluations': nat)
    requires r == Sweeps(e, w, residual, iter)
    requires evaluations == Repeated(Evaluable(w, residual), iter)
    ensures r' == Sweeps(e, w, residual, iter + 1)
    ensures evaluations' == Repeated(Evaluable(w, residual), iter + 1)
  {
    SweepsEvaluable(e, w, residual, iter);
    var count;
    r', count := RunSweep(e, r, residual);
    evaluations' := evaluations + count;
  }

  /**
   * The loop of pass 2: `MaxIter` sweeps over the residual nodes, with no early exit, each
   * evaluating every residual formula cell once.
   */
  method RunSweeps<V>(e: Evaluator<V>, w: Book<V>, residual: seq<Node>) returns (r: Book<V>, evaluations: nat)
    ensures r == Sweeps(e, w, residual, MaxIter)
    ensures evaluations == MaxIter * Evaluable(w, residual)
  {
    r := w;
    evaluations := 0;
    var iter := 0;
    while iter < MaxIter
      invariant 0 <= iter <= MaxIter
      invariant r == Sweeps(e, w, residual, iter)
      invariant evaluations == Repeated(Evaluable(w, residual), iter)
    {
      r, evaluations := SweepAgain(e, w, residual, iter, r, evaluations);
      iter := iter + 1;
    }
    RepeatedIsProduct(Evaluable(w, residual), MaxIter);
  }

  // ---------------------------------------------------------------------------------------------
  // Composing the passes.

  /** Pass 1 over `a + b` is pass 1 over `a`, then over `b`. */
  lemma {:induction false} Pass1Append<V>(e: Evaluator<V>, w: Book<V>, a: seq<Node>, b: seq<Node>)
    ensures Pass1(e, w, a + b) == Pass1(e, Pass1(e, w, a), b)
    decreases |a|
  {
    if |a| == 0 {
      assert a + b == b;
    } else {
      assert (a + b)[0] == a[0];
      assert (a + b)[1..] == a[1..] + b;
      Pass1Append(e, Pass1Step(e, w, a[0].id), a[1..], b);
    }
  }

  /** Node `i` is evaluated in the state that pass 1 has reached over the nodes before it. */
  lemma Pass1Snoc<V>(e: Evaluator<V>, w: Book<V>, nodes: seq<Node>, i: nat)
    requires i < |nodes|
    ensures Pass1(e, w, nodes[..i + 1]) == Pass1Step(e, Pass1(e, w, nodes[..i]), nodes[i].id)
  {
    assert nodes[..i + 1] == nodes[..i] + [nodes[i]];
    Pass1Append(e, w, nodes[..i], [nodes[i]]);
    assert [nodes[i]][1..] == [];
  }

  /** Pass 1 is the nodes before `i`, then node `i`, then the nodes after it. */
  lemma Pass1Split<V>(e: Evaluator<V>, w: Book<V>, nodes: seq<Node>, i: nat)
    requires i < |nodes|
    ensures Pass1(e, w, nodes) == Pass1(e, Pass1Step(e, Pass1(e, w, nodes[..i]), nodes[i].id), nodes[i + 1..])
  {
    assert nodes == nodes[..i + 1] + nodes[i + 1..];
    Pass1Append(e, w, nodes[..i + 1], nodes[i + 1..]);
    Pass1Snoc(e, w, nodes, i);
  }

  /** The loop of pass 1: the sorted nodes, once each, in order. */
  method RunPass1<V>(e: Evaluator<V>, w: Book<V>, sorted: seq<Node>) returns (r: Book<V>)
    ensures r == Pass1(e, w, sorted)
  {
    r := w;
    var i := 0;
    while i < |sorted|
      invariant 0 <= i <= |sorted|
      invariant r == Pass1(e, w, sorted[..i])
    {
      Pass1Snoc(e, w, sorted, i);
      r := Pass1Step(e, r, sorted[i].id);
      i := i + 1;
    }
    assert sorted[..i] == sorted;
  }

  /** A sweep over `a + b` is a sweep over `a`, then over `b`. */
  lemma {:induction false} SweepAppend<V>(e: Evaluator<V>, w: Book<V>, a: seq<Node>, b: seq<Node>)
    ensures Sweep(e, w, a + b) == Sweep(e, Sweep(e, w, a), b)
    decreases |b|
  {
    if |b| == 0 {
      assert a + b == a;
    } else {
      var front := b[..|b| - 1];
      assert (a + b)[..|a + b| - 1] == a + front;
      assert (a + b)[|a + b| - 1] == b[|b| - 1];
      SweepAppend(e, w, a, front);
    }
  }

  /** A sweep is the nodes before `i`, then node `i`, then the nodes after it. */
  lemma SweepSplit<V>(e: Evaluator<V>, w: Book<V>, nodes: seq<Node>, i: nat)
    requires i < |nodes|
    ensures Sweep(e, w, nodes) == Sweep(e, Reevaluate(e, Sweep(e, w, nodes[..i]), nodes[i].id), nodes[i + 1..])
  {
    assert nodes == nodes[..i + 1] + nodes[i + 1..];
    SweepAppend(e, w, nodes[..i + 1], nodes[i + 1..]);
    SweepSnoc(e, w, nodes, i);
  }

  /** In a list with unique identities, node `i`'s identity is carried by no node before or after it. */
  lemma IdOnlyAt(nodes: seq<Node>, i: nat)
    requires UniqueIds(nodes) && i < |nodes|
    ensures nodes[i].id !in IdSet(nodes[..i]) && nodes[i].id !in IdSet(nodes[i + 1..])
  {
    forall n | n in nodes[..i] ensures n.id != nodes[i].id {
      var j :| 0 <= j < i && nodes[..i][j] == n;
      assert nodes[j] == n;
    }
    forall n | n in nodes[i + 1..] ensures n.id != nodes[i].id {
      var j :| 0 <= j < |nodes| - i - 1 && nodes[i + 1..][j] == n;
      assert nodes[i + 1 + j] == n;
    }
  }

  /** With distinct variable names, a variable is found under its own name. */
  lemma FindVariableOwn<V>(variables: seq<Variable<V>>, k: nat)
    requires NoDup(VariableNames(variables)) && k < |variables|
    ensures FindVariable(variables, variables[k].name) == Some(k)
  {
    var names := VariableNames(variables);
    assert names[k] in names;
  }

  // ---------------------------------------------------------------------------------------------
  // The whole recalculation.

  /**
   * `evaluateWorkbook`, as the workbook it leaves behind: pass 1 over the sorted nodes, then
   * `MaxIter` sweeps over the residual ones. Only values, cached results and variable results
   * change, and only variables whose node was sorted get a new result.
   */
  function Recalculate<V>(x: Extractor, e: Evaluator<V>, w: Book<V>): (r: Book<V>)
    requires DistinctIds(w)
    ensures SameShape(w, r)
    ensures forall k :: 0 <= k < |w.variables| && w.variables[k].name !in IdSet(SortCells(x, w).sorted) ==>
      r.variables[k] == w.variables[k]
  {
    var s := SortCells(x, w);
    var w1 := Pass1(e, w, s.sorted);
    var r := Sweeps(e, w1, s.residual, MaxIter);
    SameShapeTransitive(w, w1, r);
    r
  }

  /**
   * `evaluateWorkbook` with its loops: the recalculated workbook, and the number of formula
   * evaluations pass 2 performs, `MaxIter` for every residual formula cell.
   */
  method EvaluateWorkbook<V>(x: Extractor, e: Evaluator<V>, w: Book<V>) returns (r: Book<V>, sweepEvaluations: nat)
    requires DistinctIds(w)
    ensures r == Recalculate(x, e, w)
    ensures sweepEvaluations == MaxIter * Evaluable(w, SortCells(x, w).residual)
  {
    var s := SortCells(x, w);
    var w1 := RunPass1(e, w, s.sorted);
    EvaluableShape(w, w1, s.residual);
    r, sweepEvaluations := RunSweeps(e, w1, s.residual);
  }

  /** An identity whose node is sorted has no residual node. */
  lemma SortedNotResidual<V>(x: Extractor, w: Book<V>, id: string)
    requires DistinctIds(w) && id in IdSet(SortCells(x, w).sorted)
    ensures id !in IdSet(SortCells(x, w).residual)
  {
    var s := SortCells(x, w);
    var a :| a in s.sorted && a.id == id;
    forall b | b in s.residual ensures b.id != id {
      SortedApartFromResidual(x, w, a, b);
    }
  }

  /** Every cell ends settled: a formula cell's value is its cached result. */
  lemma EveryFormulaCellSettled<V>(x: Extractor, e: Evaluator<V>, w: Book<V>, p: nat)
    requires DistinctIds(w) && p < |w.cells|
    ensures Settled(Recalculate(x, e, w).cells[p])
  {
    var s := SortCells(x, w);
    var w1 := Pass1(e, w, s.sorted);
    var id := CellId(w.cells[p].address);
    DistinctIdsParts(w);
    assert CellIds(w.cells)[p] == id;
    EveryIdScheduled(x, w, id);
    var n :| n in s.sorted + s.residual && n.id == id;
    Pass1Cell(e, w, s.sorted, p);
    SameShapeIds(w, w1);
    assert w1.cells[p].address == w.cells[p].address;
    SweepsCell(e, w1, s.residual, MaxIter, p);
    if n in s.sorted {
      assert id in IdSet(s.sorted);
    } else {
      assert id in IdSet(s.residual);
    }
  }

  /**
   * A sorted cell that caches a result is never evaluated: it ends holding its cached result
   * as value, with nothing else changed.
   */
  lemma PreCachedSortedCell<V>(x: Extractor, e: Evaluator<V>, w: Book<V>, p: nat)
    requires DistinctIds(w) && p < |w.cells| && PreCached(w.cells[p])
    requires CellId(w.cells[p].address) in IdSet(SortCells(x, w).sorted)
    ensures Recalculate(x, e, w).cells[p] == CopyCache(w.cells[p])
  {
    var s := SortCells(x, w);
    var w1 := Pass1(e, w, s.sorted);
    DistinctIdsParts(w);
    Pass1Cell(e, w, s.sorted, p);
    SortedNotResidual(x, w, CellId(w.cells[p].address));
    assert w1.cells[p].address == w.cells[p].address;
  }

  /**
   * A sorted formula cell that caches nothing is evaluated once, in the state pass 1 has
   * reached when its node comes up, and keeps that result as value and cached result.
   */
  lemma SortedCellComputed<V>(x: Extractor, e: Evaluator<V>, w: Book<V>, p: nat, i: nat)
    requires DistinctIds(w) && p < |w.cells| && HasFormula(w.cells[p]) && !PreCached(w.cells[p])
    requires i < |SortCells(x, w).sorted| && SortCells(x, w).sorted[i].id == CellId(w.cells[p].address)
    ensures var c := Recalculate(x, e, w).cells[p];
      && c.value == Recompute(e, Pass1(e, w, SortCells(x, w).sorted[..i]), w.cells[p])
      && c.formulaData.value.cachesResult == c.value
  {
    var s := SortCells(x, w);
    var id := CellId(w.cells[p].address);
    var before := Pass1(e, w, s.sorted[..i]);
    var after := Pass1Step(e, before, id);
    DistinctIdsParts(w);
    ScheduleUnique(x, w);
    IdOnlyAt(s.sorted, i);
    assert before.cells[p] == w.cells[p];
    SameShapeIds(w, before);
    FindCellOwn(before.cells, p);
    Pass1StepCell(e, before, id, p);
    Pass1Split(e, w, s.sorted, i);
    assert after.cells[p].address == w.cells[p].address;
    assert Pass1(e, w, s.sorted).cells[p] == after.cells[p];
    SortedNotResidual(x, w, id);
  }

  /**
   * A sorted variable with a formula gets, once, the formula's result evaluated without a
   * context in the state pass 1 has reached when its node comes up, and keeps it.
   */
  lemma SortedVariableComputed<V>(x: Extractor, e: Evaluator<V>, w: Book<V>, k: nat, i: nat)
    requires DistinctIds(w) && k < |w.variables| && w.variables[k].formula != ""
    requires i < |SortCells(x, w).sorted| && SortCells(x, w).sorted[i].id == w.variables[k].name
    ensures Recalculate(x, e, w).variables[k].result
         == EvaluateFormula(e, w.variables[k].formula, None, LookupsOf(Pass1(e, w, SortCells(x, w).sorted[..i]), e.zero))
  {
    var s := SortCells(x, w);
    DistinctIdsParts(w);
    ScheduleUnique(x, w);
    Pass1VisitsVariable(e, w, s.sorted, i, k);
  }

  /**
   * What `onVariable` reads from the recalculated workbook for a sorted variable with a formula:
   * the result pass 1 gave it, or its value when that result is not defined, and 0 after that.
   */
  lemma OnVariableAfterRecalculate<V>(x: Extractor, e: Evaluator<V>, w: Book<V>, k: nat, i: nat)
    requires DistinctIds(w) && k < |w.variables| && w.variables[k].formula != ""
    requires i < |SortCells(x, w).sorted| && SortCells(x, w).sorted[i].id == w.variables[k].name
    ensures
      var result := EvaluateFormula(e, w.variables[k].formula, None, LookupsOf(Pass1(e, w, SortCells(x, w).sorted[..i]), e.zero));
      var value := w.variables[k].value;
      OnVariable(Recalculate(x, e, w), e.zero, w.variables[k].name)
        == (if result.Defined? then result else if value.Defined? then value else Defined(e.zero))
  {
    var r := Recalculate(x, e, w);
    SortedVariableComputed(x, e, w, k, i);
    RecalculateKeepsWellFormed(x, e, w);
    DistinctIdsParts(r);
    FindVariableOwn(r.variables, k);
  }

  /** Pass 1 over nodes with unique identities gives variable `k` its formula's result when its node comes up. */
  lemma Pass1VisitsVariable<V>(e: Evaluator<V>, w: Book<V>, sorted: seq<Node>, i: nat, k: nat)
    requires NoDup(CellIds(w.cells)) && NoDup(VariableNames(w.variables))
    requires forall id :: id in CellIds(w.cells) ==> id !in VariableNames(w.variables)
    requires UniqueIds(sorted) && i < |sorted| && k < |w.variables| && w.variables[k].formula != ""
    requires sorted[i].id == w.variables[k].name
    ensures Pass1(e, w, sorted).variables[k].result
         == EvaluateFormula(e, w.variables[k].formula, None, LookupsOf(Pass1(e, w, sorted[..i]), e.zero))
  {
    var name := w.variables[k].name;
    var before := Pass1(e, w, sorted[..i]);
    IdOnlyAt(sorted, i);
    assert before.variables[k] == w.variables[k];
    SameShapeIds(w, before);
    assert VariableNames(w.variables)[k] == name;
    assert FindCell(before.cells, name).None?;
    FindVariableOwn(before.variables, k);
    Pass1StepVariable(e, before, name, k);
    Pass1Split(e, w, sorted, i);
  }

  /**
   * Within a sweep over nodes with unique identities, the cell of node `i` ends holding its
   * formula's result in the state the sweep has reached when node `i` comes up.
   */
  lemma SweepVisits<V>(e: Evaluator<V>, w: Book<V>, nodes: seq<Node>, i: nat, p: nat)
    requires NoDup(CellIds(w.cells)) && UniqueIds(nodes)
    requires i < |nodes| && p < |w.cells| && nodes[i].id == CellId(w.cells[p].address) && HasFormula(w.cells[p])
    ensures var c := Sweep(e, w, nodes).cells[p];
      && c.value == Recompute(e, Sweep(e, w, nodes[..i]), w.cells[p])
      && c.formulaData.value.cachesResult == c.value
  {
    var before := Sweep(e, w, nodes[..i]);
    IdOnlyAt(nodes, i);
    SameShapeIds(w, before);
    FindCellOwn(before.cells, p);
    ReevaluateCell(e, before, nodes[i].id, p);
    SweepSplit(e, w, nodes, i);
  }

  /**
   * A residual formula cell is evaluated again on every sweep, whatever it cached: it ends
   * holding its formula's result in the state the last sweep has reached when its node comes up.
   */
  lemma ResidualCellRecomputed<V>(x: Extractor, e: Evaluator<V>, w: Book<V>, p: nat, i: nat)
    requires DistinctIds(w) && p < |w.cells| && HasFormula(w.cells[p])
    requires i < |SortCells(x, w).residual| && SortCells(x, w).residual[i].id == CellId(w.cells[p].address)
    ensures var s := SortCells(x, w);
      var last := Sweeps(e, Pass1(e, w, s.sorted), s.residual, MaxIter - 1);
      var c := Recalculate(x, e, w).cells[p];
      && c.value == Recompute(e, Sweep(e, last, s.residual[..i]), w.cells[p])
      && c.formulaData.value.cachesResult == c.value
  {
    var s := SortCells(x, w);
    DistinctIdsParts(w);
    ScheduleUnique(x, w);
    LastSweepVisits(e, w, s.sorted, s.residual, i, p);
  }

  /** The last of the sweeps that follow pass 1 leaves node `i`'s cell holding its formula's result. */
  lemma LastSweepVisits<V>(e: Evaluator<V>, w: Book<V>, sorted: seq<Node>, residual: seq<Node>, i: nat, p: nat)
    requires NoDup(CellIds(w.cells)) && UniqueIds(residual)
    requires i < |residual| && p < |w.cells| && residual[i].id == CellId(w.cells[p].address) && HasFormula(w.cells[p])
    ensures var last := Sweeps(e, Pass1(e, w, sorted), residual, MaxIter - 1);
      var c := Sweeps(e, Pass1(e, w, sorted), residual, MaxIter).cells[p];
      && c.value == Recompute(e, Sweep(e, last, residual[..i]), w.cells[p])
      && c.formulaData.value.cachesResult == c.value
  {
    var last := Sweeps(e, Pass1(e, w, sorted), residual, MaxIter - 1);
    SameShapeTransitive(w, Pass1(e, w, sorted), last);
    SameShapeIds(w, last);
    assert last.cells[p].address == w.cells[p].address;
    SweepVisits(e, last, residual, i, p);
  }

  /** A variable whose node is residual is never evaluated. */
  lemma ResidualVariableUntouched<V>(x: Extractor, e: Evaluator<V>, w: Book<V>, k: nat)
    requires DistinctIds(w) && k < |w.variables|
    requires w.variables[k].name in IdSet(SortCells(x, w).residual)
    ensures Recalculate(x, e, w).variables[k] == w.variables[k]
  {
    if w.variables[k].name in IdSet(SortCells(x, w).sorted) {
      SortedNotResidual(x, w, w.variables[k].name);
    }
  }

  /** Pass 1 leaves a cell without formula data alone. */
  lemma {:induction false} Pass1KeepsPlainCell<V>(e: Evaluator<V>, w: Book<V>, nodes: seq<Node>, p: nat)
    requires p < |w.cells| && w.cells[p].formulaData.None?
    ensures Pass1(e, w, nodes).cells[p] == w.cells[p]
    decreases |nodes|
  {
    if |nodes| > 0 {
      var w1 := Pass1Step(e, w, nodes[0].id);
      if FindCell(w.cells, nodes[0].id) != Some(p) {
        Pass1StepOthers(e, w, nodes[0].id, p);
      }
      assert w1.cells[p] == w.cells[p];
      Pass1KeepsPlainCell(e, w1, nodes[1..], p);
    }
  }

  /** A cell without formula data (a constant, say) comes out exactly as it went in. */
  lemma PlainCellUntouched<V>(x: Extractor, e: Evaluator<V>, w: Book<V>, p: nat)
    requires DistinctIds(w) && p < |w.cells| && w.cells[p].formulaData.None?
    ensures Recalculate(x, e, w).cells[p] == w.cells[p]
  {
    Pass1KeepsPlainCell(e, w, SortCells(x, w).sorted, p);
  }

  /** A step never writes a variable without a formula. */
  lemma Pass1StepPlainVariable<V>(e: Evaluator<V>, w: Book<V>, id: string, k: nat)
    requires k < |w.variables| && w.variables[k].formula == ""
    ensures Pass1Step(e, w, id).variables[k] == w.variables[k]
  {
    match FindCell(w.cells, id)
    case Some(p) =>
      var c := w.cells[p];
      if c.formulaData.Some? && PreCached(c) {
        assert Pass1Step(e, w, id) == SetCell(w, p, CopyCache(c));
      } else if c.formulaData.Some? && HasFormula(c) {
        assert Pass1Step(e, w, id) == SetCell(w, p, Store(c, Recompute(e, w, c)));
      }
    case None =>
      match FindVariable(w.variables, id)
      case None =>
      case Some(j) =>
        if w.variables[j].formula != "" {
          assert j != k;
          assert Pass1Step(e, w, id) == SetResult(w, j, EvaluateFormula(e, w.variables[j].formula, None, LookupsOf(w, e.zero)));
        }
  }

  /** Pass 1 never writes a variable without a formula. */
  lemma {:induction false} Pass1KeepsPlainVariable<V>(e: Evaluator<V>, w: Book<V>, nodes: seq<Node>, k: nat)
    requires k < |w.variables| && w.variables[k].formula == ""
    ensures Pass1(e, w, nodes).variables[k] == w.variables[k]
    decreases |nodes|
  {
    if |nodes| > 0 {
      var w1 := Pass1Step(e, w, nodes[0].id);
      Pass1StepPlainVariable(e, w, nodes[0].id, k);
      Pass1KeepsPlainVariable(e, w1, nodes[1..], k);
    }
  }

  /** A variable without a formula comes out exactly as it went in, sorted or not. */
  lemma PlainVariableUntouched<V>(x: Extractor, e: Evaluator<V>, w: Book<V>, k: nat)
    requires DistinctIds(w) && k < |w.variables| && w.variables[k].formula == ""
    ensures Recalculate(x, e, w).variables[k] == w.variables[k]
  {
    Pass1KeepsPlainVariable(e, w, SortCells(x, w).sorted, k);
  }

  /** In a list with unique identities, an identity carried before position `i` is not carried from `i` on. */
  lemma IdNotAfter(nodes: seq<Node>, i: nat, d: string)
    requires UniqueIds(nodes) && i <= |nodes| && d in IdSet(nodes[..i])
    ensures d !in IdSet(nodes[i..])
  {
    var j :| 0 <= j < i && nodes[..i][j].id == d;
    forall n | n in nodes[i..] ensures n.id != d {
      var m :| 0 <= m < |nodes| - i && nodes[i..][m] == n;
      assert nodes[i + m] == n && nodes[j].id == d;
    }
  }

  /**
   * When pass 1 reaches a sorted node, every cell its formula reads already holds its final
   * pass-1 state (and so is settled): that cell's node came earlier in the order, and no later
   * node carries its identity.
   */
  lemma DependencySettledBeforeUse<V>(x: Extractor, e: Evaluator<V>, w: Book<V>, i: nat, q: nat)
    requires DistinctIds(w) && i < |SortCells(x, w).sorted| && q < |w.cells|
    requires CellId(w.cells[q].address) in SortCells(x, w).sorted[i].deps
    ensures Pass1(e, w, SortCells(x, w).sorted[..i]).cells[q] == Pass1(e, w, SortCells(x, w).sorted).cells[q]
    ensures Settled(Pass1(e, w, SortCells(x, w).sorted[..i]).cells[q])
  {
    var s := SortCells(x, w);
    var id := CellId(w.cells[q].address);
    DependencyEarlier(s.sorted, i, id);
    DistinctIdsParts(w);
    Pass1Cell(e, w, s.sorted[..i], q);
    ScheduleUnique(x, w);
    IdNotAfter(s.sorted, i, id);
    Pass1KeepsUnvisited(e, w, s.sorted[..i], s.sorted[i..], q);
    SplitAt(s.sorted, i);
  }

  /** Pass 1 over more nodes leaves a cell alone whose identity none of the extra nodes carries. */
  lemma Pass1KeepsUnvisited<V>(e: Evaluator<V>, w: Book<V>, a: seq<Node>, b: seq<Node>, q: nat)
    requires q < |w.cells| && CellId(w.cells[q].address) !in IdSet(b)
    ensures Pass1(e, w, a).cells[q] == Pass1(e, w, a + b).cells[q]
  {
    var before := Pass1(e, w, a);
    assert before.cells[q].address == w.cells[q].address;
    Pass1KeepsCell(e, before, b, q);
    Pass1Append(e, w, a, b);
  }

  lemma SplitAt(nodes: seq<Node>, i: nat)
    requires i <= |nodes|
    ensures nodes[..i] + nodes[i..] == nodes
  {
  }

  /** Pass 1 leaves a cell alone whose identity no visited node carries. */
  lemma Pass1KeepsCell<V>(e: Evaluator<V>, w: Book<V>, nodes: seq<Node>, q: nat)
    requires q < |w.cells| && CellId(w.cells[q].address) !in IdSet(nodes)
    ensures Pass1(e, w, nodes).cells[q] == w.cells[q]
  {
  }

  /** Without a context a formula is evaluated exactly as at (1, 1) of "Sheet1". */
  lemma EvaluateFormulaDefaultContext<V>(e: Evaluator<V>, f: string, lookups: Lookups<V>)
    ensures EvaluateFormula(e, f, None, lookups) == EvaluateFormula(e, f, Some(CellAddress(1, 1, "Sheet1")), lookups)
  {
  }

  /** A leading formula marker makes no difference to what is evaluated. */
  lemma EvaluateFormulaMarker<V>(e: Evaluator<V>, f: string, context: Option<CellAddress>, lookups: Lookups<V>)
    requires |f| == 0 || f[0] != '='
    ensures EvaluateFormula(e, "=" + f, context, lookups) == EvaluateFormula(e, f, context, lookups)
  {
    StripMarkerSpec(f);
  }

  /** Recalculation keeps the workbook well formed and its identities distinct. */
  lemma RecalculateKeepsWellFormed<V>(x: Extractor, e: Evaluator<V>, w: Book<V>)
    requires DistinctIds(w)
    ensures WellFormed(w) ==> WellFormed(Recalculate(x, e, w))
    ensures DistinctIds(Recalculate(x, e, w))
  {
    SameShapeIds(w, Recalculate(x, e, w));
  }
}
