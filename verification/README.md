# Workbook recalculation, modelled in Dafny

This project models the recalculation engine of a spreadsheet formula library:
`evaluateWorkbook` and `evaluateFormula` in `grammar/workbook/evaluator.js`. It proves
properties of that model. Given a workbook of sheets, cells and named variables, the engine
works in four steps:

1. It extracts every formula's references with a dependency parser. It turns each reference into node identities:
   - a cell is `sheet-row-col`;
   - a range is every cell it covers, capped at 1000 cells unless a sparse index of populated cells is at hand;
   - a variable is its name.
2. It orders the resulting dependency graph with Kahn's algorithm. Nodes that never become ready are "residual" (cycles, and anything that reads a cycle or an unknown identity).
3. It evaluates the sorted nodes once, in order. A cell with a cached result keeps that result instead of being evaluated again.
4. It then re-evaluates the residual formula cells in 30 sweeps.

Formulas read the workbook through three callbacks (`onCell`, `onRange`, `onVariable`).

| file | module | what it holds |
|---|---|---|
| `values.dfy` | `Values` | `Option`; `Slot` (JavaScript's undefined / null / a value); `Outcome` (returned or threw); duplicate-free sequences; the last-writer-wins lookup; the `=` formula marker |
| `address.dfy` | `Address` | A1 column letters (bijective base 26); A1 keys; cell identities `sheet-row-col`, with their inverses |
| `references.dfy` | `References` | parser references as bags of optional properties; their classification; range expansion (rectangle, cap, sparse index); identity lists |
| `workbook.dfy` | `Workbook` | cells, variables and sheets; a sheet maps A1 keys to cells; the `onCell`, `onRange` and `onVariable` callbacks |
| `graph.dfy` | `Graph` | the sparse cell index; the dependency node of a formula, a cell or a variable; `_topologicallySortCells` |
| `scheduler.dfy` | `Scheduler` | the reverse dependency map; the Kahn loop with its invariant; the residual nodes; order, partition and cycle results |
| `driver.dfy` | `Driver` | `evaluateFormula`; pass 1 over the sorted nodes; the residual sweeps; `evaluateWorkbook` |

Modelling choices:

- **Cell values.** Cell values are an abstract type `V`. The evaluator's numeric 0 is `Evaluator.zero`.
- **Foreign parsers.** The dependency parser (`Graph.Extractor`) and the formula parser (`Driver.Evaluator`) are not part of this model. Each is a function parameter that either returns or throws.
- **The workbook.** It is an arena. `Book.cells` is the list of all cells in the order `Object.values(...).flatMap` gives them. Each sheet maps its A1 keys to positions in that list, so a cell object shared by the sheet and the driver's index is one entry.
- **The driver's mutations.** The driver writes cells in place. Here every write produces a new `Book`, and every formula is evaluated against the workbook as it stands at that moment. This is what the shared objects give the source.

Three behaviours of the code worth knowing:

- **Pre-cached cells.** Only pass 1 honours a cell's pre-cached result. A residual formula cell is evaluated in every sweep whatever it had cached (`Driver.ResidualCellRecomputed`).
- **`onRange` on a missing sheet.** It does not always return a zero matrix. When the range has at least one row and a negative column count, `new Array` throws (`Workbook.OnRangeMissingSheet`).
- **Sheetless references in variable formulas.** A cell reference without a sheet inside a variable's formula has no default sheet to fall back on. Its identity starts with `undefined-` (`Graph.VariableFormulaHasNoSheet`).

## Model

| member | source | states |
|---|---|---|
| Values.LastIndex | grammar/workbook/evaluator.js:373-379 | the index lookup finds the last entry carrying a key (later entries overwrite earlier ones), and nothing exactly when no entry carries it |
| Values.StripMarkerSpec | grammar/workbook/evaluator.js:188-189 | one leading `=` is dropped; a formula without it passes unchanged |
| Address.ColumnLetters | grammar/workbook/evaluator.js:73-80 | the column part of an A1 key is all capital letters, and empty exactly when the column is below 1 |
| Address.ColumnRoundTrip | grammar/workbook/evaluator.js:73-80 | decoding the letters of a column gives the column back (the letters are bijective base 26) |
| Address.LettersRoundTrip | grammar/workbook/evaluator.js:73-80 | every letter string is the encoding of some column, so the encoding is onto |
| Address.ColumnLettersExamples | grammar/workbook/evaluator.js:73-80 | columns 1, 26, 27 and 16384 are A, Z, AA and XFD |
| Address.DecimalRoundTrip | grammar/workbook/evaluator.js:81 | the decimal row printed into a key reads back as the same number |
| Address.A1RoundTrip | grammar/workbook/evaluator.js:73-82 | an A1 key of a row and a column of at least 1 parses back to that row and column |
| Address.A1KeyInjective | grammar/workbook/evaluator.js:73-82 | two positions with columns of at least 1 share an A1 key only if they are the same position, for any row, negative ones included |
| Address.CellIdRoundTrip | grammar/workbook/evaluator.js:84-86 | a cell identity with non-negative row and column parses back to its address, even when the sheet name contains dashes |
| Address.CellIdInjective | grammar/workbook/evaluator.js:84-86 | distinct addresses with non-negative coordinates never share an identity |
| References.KindOf | grammar/workbook/evaluator.js:92-97 | a reference with row, column and sheet is a cell; otherwise one with sheet, from and to is a range; otherwise one with a name is a variable; a range always has sheet, from and to, a variable always a name, and one with no sheet and no name is a cell |
| References.Rectangle | grammar/workbook/evaluator.js:136-140 | a range within the cap lists every cell of the rectangle exactly once, row by row, and nothing when the corners are reversed |
| References.RowsInColumn | grammar/workbook/evaluator.js:121-125 | a column of the index contributes exactly its populated rows inside the range, without duplicates |
| References.IndexedCells | grammar/workbook/evaluator.js:117-127 | over the cap with an index, the cells are exactly the populated ones inside the rectangle, by ascending column, without duplicates |
| References.RangeCells | grammar/workbook/evaluator.js:104-142 | every listed cell lies in the rectangle; within 1000 cells the whole rectangle is listed; over 1000 cells the list is empty without an index or without the sheet in the index, and otherwise holds exactly the populated cells |
| References.CellReferenceIds | grammar/workbook/evaluator.js:155-160 | a cell reference yields one identity, on the default sheet exactly when its own sheet is empty and the default is non-empty |
| References.VariableReferenceIds | grammar/workbook/evaluator.js:168-171 | a variable reference yields exactly its name |
| References.ShapelessReferenceIds | grammar/workbook/evaluator.js:92-97 | a reference with none of the known properties is treated as a cell whose row and column print as `undefined` |
| References.RangeReferenceUsesDefault | grammar/workbook/evaluator.js:161-167 | a range with an empty sheet expands on the non-empty default sheet |
| References.RangeIdsInside | grammar/workbook/evaluator.js:161-167 | for a named sheet and a start corner with non-negative row and column, every identity a range yields parses back to a cell inside the range's rectangle |
| References.ReferencesToIdsConcat | grammar/workbook/evaluator.js:150-174 | the identities of a reference list are those of its parts, concatenated in reference order |
| References.ReferencesToIdsMembers | grammar/workbook/evaluator.js:150-174 | an identity is produced exactly when some reference of the list produces it |
| Workbook.ReadCell | grammar/workbook/evaluator.js:389-393 | a formula cell whose cached result is not undefined reads that cache (null included); every other stored cell reads its value, or 0 when that is undefined or null; so a stored cell never reads as undefined, and as null only through a null cache |
| Workbook.ReadKey | grammar/workbook/evaluator.js:384-387 | a key the sheet does not store reads 0; a stored key reads its cell as above |
| Workbook.OnCell | grammar/workbook/evaluator.js:382-387 | a query on a sheet that does not exist reads 0 |
| Workbook.OnCellReadsStoredCell | grammar/workbook/evaluator.js:382-394 | a query reads the cell the sheet stores under the query's A1 key |
| Workbook.OnCellMissingKey | grammar/workbook/evaluator.js:384-387 | a query whose A1 key the sheet does not hold reads 0 |
| Workbook.ZeroRow | grammar/workbook/evaluator.js:401 | a row of zeros of the given length, and a throw exactly when the length is negative |
| Workbook.OnRange | grammar/workbook/evaluator.js:406-422 | on an existing sheet the result is a matrix with one row per range row and one entry per range column |
| Workbook.OnRangeEntry | grammar/workbook/evaluator.js:406-421 | each entry of the matrix is what `onCell` reads at the corresponding position |
| Workbook.ReadAtIsOnCell | grammar/workbook/evaluator.js:409-418 | `onRange` reads a cell of an existing sheet exactly as `onCell` does |
| Workbook.RangeRows | grammar/workbook/evaluator.js:406-421 | over an existing sheet there is one row per range row, each with one entry per range column, and none when the corners are reversed |
| Workbook.OnRangeMissingSheet | grammar/workbook/evaluator.js:399-404 | on a missing sheet the result is a zero matrix of the range's rows and columns, and a throw exactly when there is a row and the column count is negative |
| Workbook.OnVariable | grammar/workbook/evaluator.js:424-430 | an unknown variable reads 0; a known one reads its result, else its value, else 0, and never undefined |
| Graph.AddAddressSpec | grammar/workbook/evaluator.js:321-328 | adding a cell to the sparse index adds exactly that cell and its sheet, and keeps every row list duplicate-free |
| Graph.SparseIndex | grammar/workbook/evaluator.js:316-329 | the index holds exactly the cells' addresses, a sheet key exactly when some cell is on it, and no row twice |
| Graph.FormulaNode | grammar/workbook/evaluator.js:186-198 | the node keeps its identity, and has no dependencies when the dependency parser throws |
| Graph.FormulaNodeMarker | grammar/workbook/evaluator.js:188-189 | a formula with a leading `=` gives the same node as without it |
| Graph.FormulaNodeOrigin | grammar/workbook/evaluator.js:191 | a row or column of 0 is parsed as 1 |
| Graph.OrOne | grammar/workbook/evaluator.js:191 | a non-zero coordinate is kept and a falsy 0 becomes 1, the position the extractor is given |
| Graph.FormulaNodeDeps | grammar/workbook/evaluator.js:191-194 | the dependencies are exactly the identities of the references the parser returns, duplicates collapsed |
| Graph.CellNode | grammar/workbook/evaluator.js:206-219 | a cell's node carries the cell's identity, and no dependencies unless it is a formula cell with formula text |
| Graph.CellFormulaUsesOwnSheet | grammar/workbook/evaluator.js:210-217 | a sheetless cell reference in a cell's formula depends on that cell's own sheet |
| Graph.VariableNode | grammar/workbook/evaluator.js:227-230 | a variable's node carries its name, and no dependencies when it has no formula |
| Graph.VariableFormulaHasNoSheet | grammar/workbook/evaluator.js:229 | a sheetless cell reference in a variable's formula depends on the identity on sheet `undefined` |
| Graph.BuildNodes | grammar/workbook/evaluator.js:331-339 | one node per cell, in cell order, then one per variable, in variable order |
| Graph.BuildNodesUnique | grammar/workbook/evaluator.js:331-339 | with distinct cell identities and variable names the nodes have distinct identities |
| Graph.BuildNodesIdSet | grammar/workbook/evaluator.js:331-339 | the node identities are exactly the cell identities and variable names |
| Graph.SortCells | grammar/workbook/evaluator.js:295-342 | the sorted and residual nodes together are a permutation of the workbook's nodes, and every sorted node's dependencies are carried by earlier sorted nodes |
| Graph.UnknownDependencyIsResidual | grammar/workbook/evaluator.js:273-287 | a node that reads an identity which is no cell and no variable is residual |
| Graph.EveryIdScheduled | grammar/workbook/evaluator.js:283-287 | every cell and variable is either sorted or residual |
| Graph.SortedApartFromResidual | grammar/workbook/evaluator.js:283-287 | no identity is both sorted and residual |
| Graph.ScheduleUnique | grammar/workbook/evaluator.js:250-288 | no identity is scheduled twice |
| Scheduler.IndexById | grammar/workbook/evaluator.js:251-259 | the index's keys are exactly the node identities, each mapping to a node carrying it, and with unique identities each node is found under its own |
| Scheduler.WorkingCopies | grammar/workbook/evaluator.js:254-257 | the working copy of every indexed node starts as that node's full dependency set |
| Scheduler.DependentsOfMembers | grammar/workbook/evaluator.js:236-244 | the nodes listed for an identity are exactly those that read it, and none is listed twice |
| Scheduler.BuildReverse | grammar/workbook/evaluator.js:236-244 | the reverse map has an entry exactly for the identities some node reads, listing its readers in node order |
| Scheduler.ReverseSound | grammar/workbook/evaluator.js:236-244 | every node the reverse map lists for an identity really reads that identity |
| Scheduler.ReverseComplete | grammar/workbook/evaluator.js:236-244 | every node that reads an identity is listed for it |
| Scheduler.UnblockedMembers | grammar/workbook/evaluator.js:273-280 | a dependent is enqueued exactly when it is indexed and removing the finished identity leaves it with no dependencies |
| Scheduler.Relax | grammar/workbook/evaluator.js:273-280 | each listed dependent loses the finished identity, every other working set is unchanged, and the queue gains exactly the newly unblocked dependents in listing order |
| Scheduler.InitialState | grammar/workbook/evaluator.js:251-264 | the initial index, working copies, reverse map and ready queue satisfy the loop invariant |
| Scheduler.Pop | grammar/workbook/evaluator.js:265-281 | one iteration keeps the loop invariant, appends the queue's head to the order, strictly shrinks the set of unsorted identities, and serves the queue first in, first out |
| Scheduler.Drain | grammar/workbook/evaluator.js:265-281 | the loop terminates with an empty queue and its invariant intact; the order so far, followed by the current queue, is a prefix of the final order |
| Scheduler.RunKahn | grammar/workbook/evaluator.js:250-281 | the nodes that are ready from the start are popped first, in input order |
| Scheduler.BlockedMembers | grammar/workbook/evaluator.js:283-286 | a node is residual exactly when some dependency of it was never popped |
| Scheduler.TopologicalSort | grammar/workbook/evaluator.js:250-288 | sorted and residual nodes partition the input; every sorted node's dependencies are sorted before it; a node is sorted exactly when all its dependencies are; the residual nodes are the blocked ones in input order; the ready nodes come first |
| Scheduler.SortedOrResidual | grammar/workbook/evaluator.js:250-288 | each input node is exactly one of sorted and residual |
| Scheduler.MissingDependencyIsResidual | grammar/workbook/evaluator.js:273-287 | a node that reads an identity no node carries is never sorted |
| Scheduler.ResidualPropagates | grammar/workbook/evaluator.js:273-287 | a node that reads a residual node is itself residual |
| Scheduler.CycleIsResidual | grammar/workbook/evaluator.js:250-288 | every node on a dependency cycle is residual |
| Scheduler.AcyclicHasNoResidual | grammar/workbook/evaluator.js:250-288 | a graph whose dependencies all lie strictly lower in some ranking leaves no residual node |
| Scheduler.AcyclicAllSorted | grammar/workbook/evaluator.js:250-288 | in such a graph the sorted nodes are a permutation of all nodes |
| Scheduler.ChainOrder | grammar/workbook/evaluator.js:250-288 | the only dependencies-first order of a three-node chain is the chain itself |
| Scheduler.ChainScenario | test/workbook/evaluator.js:157-192 | the chain a, b reading a, c reading b is sorted as a, b, c with nothing residual |
| Scheduler.DuplicateIdsLoopForever | grammar/workbook/evaluator.js:251-281 | with two nodes named y (one reading z, one reading nothing) and z reading y, the later y wins the index, the first queue is [y], and from then on every pop re-enqueues the other identity with all working sets empty, so the loop never ends |
| Driver.EvaluateFormula | grammar/workbook/evaluator.js:350-360 | the result is what the formula parser returns for the formula without its marker, at the context position; it is 0 when the parser throws |
| Driver.EvaluateFormulaDefaultContext | grammar/workbook/evaluator.js:355 | without a context a formula is evaluated at row 1, column 1 of `Sheet1` |
| Driver.EvaluateFormulaMarker | grammar/workbook/evaluator.js:352-353 | a leading `=` makes no difference to the result |
| Driver.Pass1Step | grammar/workbook/evaluator.js:433-465 | visiting an identity writes only the cell or variable carrying it, and only values, cached results and variable results |
| Driver.CopyCache | grammar/workbook/evaluator.js:451-454 | the pre-cache short-circuit gives the cell its (still defined) cached result as value and changes nothing else of it |
| Driver.Store | grammar/workbook/evaluator.js:462-463 | storing a result writes it to both the value and the cached result and keeps the formula and the rest of the cell |
| Driver.Pass1StepCell | grammar/workbook/evaluator.js:446-464 | a visited cell ends settled (when it is a cell with formula text, its value equals its cache); a pre-cached cell takes its cache as value; a formula cell otherwise takes its formula's result; any other cell is left alone |
| Driver.Pass1StepVariable | grammar/workbook/evaluator.js:437-442 | a visited variable with a formula gets the formula's result, evaluated without a context, and no cell changes |
| Driver.Pass1StepPlainVariable | grammar/workbook/evaluator.js:439 | a variable without a formula is never written |
| Driver.Pass1 | grammar/workbook/evaluator.js:433-465 | cells and variables whose identity is not visited keep their state, and only values, caches and results change |
| Driver.Pass1Cell | grammar/workbook/evaluator.js:433-465 | after pass 1 every visited cell with formula text has value equal to cache, settled cells stay settled, and a visited pre-cached cell holds exactly its cached result |
| Driver.RunPass1 | grammar/workbook/evaluator.js:433-465 | the loop over the sorted nodes computes pass 1 |
| Driver.Pass1Append | grammar/workbook/evaluator.js:433-465 | pass 1 over two lists is pass 1 over the first, then over the second |
| Driver.Reevaluate | grammar/workbook/evaluator.js:470-479 | re-evaluating an identity writes only that cell, never a cell without formula text, and no variable |
| Driver.ReevaluateCell | grammar/workbook/evaluator.js:470-479 | a formula cell re-evaluated gets its formula's result as value and cache, whatever it held before |
| Driver.Sweep | grammar/workbook/evaluator.js:469-480 | a sweep writes only residual formula cells, and never a variable |
| Driver.SweepVisits | grammar/workbook/evaluator.js:469-480 | after a sweep a residual formula cell holds its formula's result over the workbook as the sweep left it just before that cell |
| Driver.RunSweep | grammar/workbook/evaluator.js:469-480 | the loop computes one sweep and counts one evaluation per residual formula cell |
| Driver.Sweeps | grammar/workbook/evaluator.js:467-482 | repeated sweeps write only residual formula cells, never a variable |
| Driver.SweepsCell | grammar/workbook/evaluator.js:467-482 | after at least one sweep every residual cell with formula text has value equal to cache, and such settled cells stay settled |
| Driver.RunSweeps | grammar/workbook/evaluator.js:467-482 | the loop performs exactly 30 sweeps, 30 evaluations per residual formula cell |
| Driver.Recalculate | grammar/workbook/evaluator.js:366-485 | recalculation changes only values, caches and variable results, and a variable whose node is not sorted keeps everything |
| Driver.EvaluateWorkbook | grammar/workbook/evaluator.js:366-485 | the procedure with its loops computes the recalculated workbook, and pass 2 evaluates 30 times per residual formula cell |
| Driver.EveryFormulaCellSettled | grammar/workbook/evaluator.js:433-482 | after recalculation every formula cell with formula text has its cached result as value (a formula cell with empty text is not touched and need not be) |
| Driver.PreCachedSortedCell | grammar/workbook/evaluator.js:451-454 | a sorted cell with a cached result ends holding exactly that result, never evaluated |
| Driver.SortedCellComputed | grammar/workbook/evaluator.js:456-464 | a sorted formula cell without a cache ends with the result of its formula over the workbook as pass 1 left it before that cell |
| Driver.SortedVariableComputed | grammar/workbook/evaluator.js:437-442 | a sorted variable with a formula ends with the formula's result over the workbook as pass 1 left it before that variable |
| Driver.OnVariableAfterRecalculate | grammar/workbook/evaluator.js:424-430 | after recalculation, a formula reading a sorted variable with a formula gets the result pass 1 computed for it; when that result is not defined, it gets the variable's value, and otherwise 0 |
| Driver.DependencySettledBeforeUse | grammar/workbook/evaluator.js:433-465 | when pass 1 reaches a sorted node, every cell it reads already holds its final pass-1 state (and is settled): no later node writes it |
| Driver.ResidualCellRecomputed | grammar/workbook/evaluator.js:467-482 | a residual formula cell ends with the result of its formula during the last sweep, whatever it had cached |
| Driver.ResidualVariableUntouched | grammar/workbook/evaluator.js:469-471 | a residual variable is never evaluated and keeps its state |
| Driver.PlainCellUntouched | grammar/workbook/evaluator.js:447-449 | a cell without formula data comes out exactly as it went in |
| Driver.PlainVariableUntouched | grammar/workbook/evaluator.js:439 | a variable without a formula comes out exactly as it went in |
| Driver.RecalculateKeepsWellFormed | grammar/workbook/evaluator.js:366-485 | recalculation keeps the sheets' key-to-cell maps valid and the identities distinct |

## Left out

- Formula parsing and evaluation are not part of this model. `FormulaParser` and `DepParser` are function parameters that return a value or throw. Likewise, the concrete numbers of the tests depend on them, so the tests appear only as scheduling scenarios.
- Duplicate identities are excluded. `Recalculate`, `SortCells` and `TopologicalSort` require distinct cell identities and variable names. With a repeated identity the source's Kahn loop can re-enqueue the same nodes forever. For example, take a variable Y with formula `=Z`, a second Y without a formula, and Z with `=Y`. `Scheduler.DuplicateIdsLoopForever` shows that, after the first pop, this loop's queue alternates between `[Z]` and `[Y]` and the working sets never change.
- JavaScript's key order is not modelled. The residual nodes are taken in input order, although `Object.keys` lists integer-like keys first.
- Prototype-inherited keys such as `toString`, `valueOf`, `constructor` or `__proto__` are not modelled; the model's indexes hold only what was stored. In the source the indexes are plain objects, which has two effects:
  - `evaluateWorkbook` itself throws a TypeError once any node depends on such an identity. A formula only has to mention the name, because the variable recogniser (evaluator.js:309) finds the inherited member whether or not such a variable exists. The reverse mapping (evaluator.js:240) then finds that inherited function or object for the identity. The value is truthy but not iterable, so spreading it throws, and no try surrounds this.
  - A variable with such a name, such as `constructor`, is never evaluated. In pass 1 the cell index lookup (evaluator.js:434) finds the inherited `Object`, so the node is taken for a cell without formula data and skipped.
- Floating point is not modelled. Cell values are an abstract type, and rows and columns are unbounded integers. Non-integer coordinates, and `new Array` on them, are out of scope.
- The debug script, the package entry point and the type declarations are not part of this model.
- A reference whose `sheet` property is present but set to undefined is not modelled. A present sheet is always a string.
- Workbook.ZeroRow: only a negative length throws. In the source, `new Array(n)` (evaluator.js:401) also throws a RangeError for a length of 2^32 or more. The model has no array-length limit, so that throw is not modelled, and the same holds for Workbook.OnRangeMissingSheet.
- Workbook.ReadKey: a sheet entry pointing outside the cell list reads as 0. This case cannot arise in a well-formed workbook (`Workbook.EntriesInRange`).
- Workbook.OnCell: its contract states only the missing-sheet case. The stored-cell and missing-key cases are the separate lemmas `OnCellReadsStoredCell` and `OnCellMissingKey`.
- Driver.RunPass1: it does not count pass 1's evaluations. Only pass 2's count is stated.
- Address.CellIdInjective: stated only for non-negative rows and columns. Negative numbers print with a dash, so `a--1-2` names both row -1 of sheet `a` and row 1 of sheet `a-`.
- Address.A1KeyInjective: stated only for columns of at least 1. For lower columns the letter part is empty, so the key no longer determines the column.
- Address.CellIdRoundTrip: stated only for non-negative rows and columns. A negative number prints with a dash, and the split at the last two dashes then cuts the wrong place (the `a--1-2` case above).
- References.RangeIdsInside: stated only for a start corner with non-negative row and column, for the same reason as Address.CellIdRoundTrip, and only for a non-empty sheet name, because an empty one is replaced by the default sheet (evaluator.js:164), so the cells then lie on that sheet instead.
- Graph.FormulaNode: a range is added to the dependencies with one spread call, `push(...ids)` (evaluator.js:166). A JavaScript engine limits the number of arguments (about 10^5). The uncapped indexed range path (evaluator.js:113-127) can exceed that, and the throw then lands in the catch at evaluator.js:195-196, which leaves the node with no dependencies. This is not modelled, because the model has no argument limit; the same applies to Graph.FormulaNodeDeps.
