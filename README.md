# Trading post: the dynamic-programming solver, verified

The trading-post problem: a river has ports 0 .. N-1, a canoe rented at port i can
be dropped at any later port j for a posted cost, and a traveller going from port 0
to port N-1 wants the cheapest sequence of rentals. `src/TradingPost.java` reads the
cost matrix from tab-separated text ("NA" for a trip that is not offered), fills a
dynamic-programming table, walks that table back from the last port to produce the
list of hops, and reports the cost in the first entry of that list.

This project models that solver in Dafny and proves what it computes.

- `java_int.dfy` (module `JavaInt`) holds Java's 32-bit `int`, with the wrapping `+`
  the fill uses.
- `cost_table.dfy` (module `CostTable`) holds the specification functions.
  - `Cell` is the value `dynamicProg` leaves in each cell of the table. `DynProg` is
    the whole filled table.
  - `LastArgMin` is the predecessor the backward scan chooses.
  - `Trace` is the list `findDynProgPath` returns, and `Chain` is the route that list
    describes.
  - It also holds the lemmas on these functions: the recurrence, the borders the fill
    leaves untouched, how the list is linked, the tie-break, and the first entry.
- `routes.dfy` (module `Routes`) says what the table means.
  - `IsRoute` defines forward-only routes and `RouteCost` their exact costs.
  - The table satisfies the shortest-route recurrence (`Fills`).
  - The reported cost is the least cost of any route to the last port, and every
    entry of the list carries the least cost of a route to its own destination
    (`TraceHopIsOptimal`). Both hold on the matrices the test-data generator writes
    (`WellFormed`).
  - A concrete matrix shows what the fill does with "NA" above the diagonal.
- `input_format.dfy` (module `InputFormat`) defines the text the parser reads.
  - `Text` and `Line` are fields joined by tabs, each line closed by "\r\n".
  - `String.indexOf` and `Integer.parseInt` are modelled. The digit reader and a
    decimal writer invert each other; the 32-bit range check of `Integer.parseInt`
    is `IsField`'s.
  - The lemmas say where the parser's splits fall.
- `trading_post.dfy` (module `TradingPost`) holds the source's methods as imperative
  Dafny on arrays.
  - Methods: `ParseInput`, `DynamicProg`, `FindDynProgPath` and `TestDynProg`, plus
    one method per inner loop.
  - Each method is proved against the functions above.

The main results:

- `TestDynProg` returns `Trace(DynProg(input), N-1)[0].cost`. When the input is
  well formed, that value is the least cost of a forward-only route from port 0 to
  port N-1 (`IsMinRouteCost`).
- `TraceHopIsOptimal`: every entry of the list carries the least cost of reaching
  its destination. For a real hop (k, d, v), v minus the direct cost k -> d is the
  least cost of reaching k.
- `ParseInput` returns the N x N matrix of the parsed costs, where N is the number
  of fields on the first line. "NA" becomes `Integer.MAX_VALUE`, and every cell that
  no line reaches is 0.

Behaviour of the code worth knowing:

- **List order.** The list runs from the destination back to port 0 and ends with
  (0, 0, 0). It also contains a "stop" entry (c, c, cost[c][c]) for every
  intermediate port visited (`Trace`, `TraceEntry`).
- **Tie-break.** Among equally cheap predecessors, the backward scan picks the
  *last* row, because it uses `<=` in ascending order (`LastArgMinIsLastMin`,
  `TieGoesToLastRow`).
- **Infeasible input.** There is no error for an unreachable destination.
- **"NA" above the diagonal.**
  - A port i gets increment 0 when every filled value above it in column i is
    `MAX_VALUE`. The scan keeps only values strictly below `MAX_VALUE`, so such a
    port counts as reachable for free. `UnreachableStopCountsAsFree` shows a
    three-port matrix on which the source reports 1, although the only real route
    costs 8.
  - A "NA" cell in a row with a positive increment wraps around in the `+=` and
    turns into a large negative value, which later scans take as the cheapest
    arrival and which can become the reported cost. `NaCellWrapsNegative` shows a
    four-port matrix on which the source reports -2147483643, although no route
    costs less than 0.
  - With a negative increment (the parser accepts negative costs), a "NA" cell
    does not wrap. It drops just below `MAX_VALUE`, so later scans take it as a
    real, very expensive arrival.
  - The optimality results therefore assume `WellFormed`.

## Model

| member | source | states |
|---|---|---|
| JavaInt.Add | src/TradingPost.java:153 | Java's `int` addition: the exact sum whenever it fits in 32 bits, always a value in the 32-bit range |
| JavaInt.AddWrapsAround | src/TradingPost.java:153 | the wrapped sum agrees with the exact sum modulo 2^32; a sum past `MAX_VALUE` comes out negative |
| CostTable.ArrivalMin | src/TradingPost.java:145-151 | the least value of column i over rows 0 .. n-1 is no greater than any of those cells |
| CostTable.ArrivalMinAttained | src/TradingPost.java:145-151 | that least value is the value of one of the scanned cells |
| CostTable.DynProg | src/TradingPost.java:134-157 | the filled table has the same number of rows, and every row the same width as the input |
| CostTable.DynProgCell | src/TradingPost.java:140-155 | each cell of the filled table is the value the row-by-row fill leaves there (`Cell`) |
| CostTable.FillKeepsBorders | src/TradingPost.java:140-142 | row 0, the last row and every cell left of the diagonal come out of the fill unchanged |
| CostTable.ArrivalMinIsColumnMin | src/TradingPost.java:144-151 | the scan over the partly filled table finds the least value of the filled column above the diagonal |
| CostTable.FillRecurrence | src/TradingPost.java:140-155 | for a middle row i and j >= i, the filled cell is the input cell plus (wrapping) the column-i minimum above row i, or plus 0 when that minimum is `MAX_VALUE` |
| CostTable.LastArgMin | src/TradingPost.java:178-183 | the chosen predecessor is a row above the diagonal |
| CostTable.LastArgMinIsLastMin | src/TradingPost.java:178-183 | the chosen row holds the least value of the column, and every later row holds strictly more (the last minimum wins) |
| CostTable.TieGoesToLastRow | src/TradingPost.java:179 | when all rows above the diagonal tie, the scan chooses the row just above it |
| CostTable.Trace | src/TradingPost.java:166-191 | the list `findDynProgPath` returns is never empty |
| CostTable.TraceEndsAtOrigin | src/TradingPost.java:188 | the list always ends with (0, 0, 0) |
| CostTable.TraceHead | src/TradingPost.java:168-184 | for one port the list is [(0, 0, 0)]; otherwise its first entry is the hop into the last port from the row of least value in the last column, carrying that least value |
| CostTable.TraceIsLinked | src/TradingPost.java:170-186 | the list starts at column c, and each entry's origin is the next entry's destination |
| CostTable.TraceEntry | src/TradingPost.java:174-184 | every entry but the last is a stop entry (d, d, r[d][d]) at an intermediate port or a hop (k, d, r[k][d]) from the chosen predecessor, with ports at most c |
| CostTable.Chain | src/TradingPost.java:170-186 | the ports the walk visits, from port 0 up to c, strictly increasing |
| CostTable.TraceMovesFollowChain | src/TradingPost.java:170-188 | the real hops of the returned list (origin differs from destination), read from the end, are exactly the consecutive steps of the route `Chain` from port 0 to c |
| CostTable.TraceStepMoves | src/TradingPost.java:174-185 | one pass of the loop at column c contributes exactly one real hop, (chosen predecessor, c); the stop entry contributes none |
| Routes.Bellman | src/TradingPost.java:140-155 | on well-formed input, row k of the filled table from the diagonal on is k's arrival cost plus the direct cost, and that arrival cost is between 0 and the direct trip 0 -> k |
| Routes.DynProgFills | src/TradingPost.java:134-157 | on well-formed input, the filled table satisfies the shortest-route recurrence |
| Routes.RouteCostAtLeastBest | src/TradingPost.java:140-155 | no forward-only route to j costs less than the arrival cost the table holds for j |
| Routes.ChainIsOptimal | src/TradingPost.java:166-191 | the route `Chain` (whose steps are the list's real hops, by `TraceMovesFollowChain`) is a forward-only route that costs exactly the table's arrival cost |
| Routes.TraceFollowsCheapestRoute | src/TradingPost.java:166-191 | on well-formed input, the real hops of the returned list, read from the end, are the steps of a forward-only route to the last port whose exact cost is the least route cost |
| Routes.BestIsOptimal | src/TradingPost.java:140-155 | in a table satisfying the recurrence, the arrival cost of each port is the least route cost to it |
| Routes.ColumnMinIsOptimal | src/TradingPost.java:128-157 | on well-formed input, the least filled value of column j above the diagonal is the least cost of a forward-only route from 0 to j |
| Routes.DiagonalIsOptimal | src/TradingPost.java:140-155 | on well-formed input, the diagonal cell of an intermediate port is the least route cost to that port |
| Routes.ReportedIsMinimal | src/TradingPost.java:125 | the cost in the first entry of the list is the least cost of a route to the last port |
| Routes.TraceHopIsOptimal | src/TradingPost.java:174-184 | on well-formed input, every entry of the list carries the least route cost to its destination, and for a hop (k, d, v), v minus the direct cost k -> d is the least route cost to k |
| Routes.EntryIsOptimal | src/TradingPost.java:174-184 | a stop entry or a chosen hop of a table satisfying the recurrence records least route costs |
| Routes.UnreachableStopCountsAsFree | src/TradingPost.java:144-153 | with "NA" on the leg 0 -> 1 of three ports, the fill gives port 1 increment 0 and the list reports (1, 2, 1), while the least real route cost is 8 |
| Routes.NaCellWrapsNegative | src/TradingPost.java:144-153 | with "NA" on leg 1 -> 2 after a paid leg 0 -> 1, row 1's increment 5 wraps that cell to -2147483644, port 2 takes it as its increment, and the list reports (2, 3, -2147483643), while no route costs less than 0 |
| InputFormat.IndexOf | src/TradingPost.java:82 | `indexOf` is the first index holding the character, or -1 when there is none |
| InputFormat.ParseIntRoundTrip | src/TradingPost.java:97 | the decimal writer and the digit reader of `Integer.parseInt` invert each other on every integer (the `int` range check is `IsField`'s) |
| InputFormat.FieldRoundTrip | src/TradingPost.java:97 | every `int` cost written as "NA" (for `MAX_VALUE`) or in decimal reads back as the same cost |
| InputFormat.LineTabs | src/TradingPost.java:81-83 | a line of n fields holds n - 1 tabs |
| InputFormat.LineSplit | src/TradingPost.java:93-100 | the first tab not at index 0, or else the carriage return, ends the first field; the rest of the line is the line of the remaining fields |
| InputFormat.TextSplit | src/TradingPost.java:87-104 | the first line feed ends the first line; the rest of the text is the text of the remaining lines |
| TradingPost.ParseInput | src/TradingPost.java:78-107 | for text written from a grid of fields, a fresh N x N matrix, where N is the field count of the first line, holding each field's value ("NA" read as `MAX_VALUE`) and 0 elsewhere |
| TradingPost.ColumnCount | src/TradingPost.java:79-83 | the column count is the number of fields on the first line |
| TradingPost.ParseRow | src/TradingPost.java:88-100 | a fresh row of colCount costs holding the line's field values in order, then zeros |
| TradingPost.StoreRow | src/TradingPost.java:102 | row r of the matrix becomes the parsed row; every other row is unchanged |
| TradingPost.TestDynProg | src/TradingPost.java:114-126 | the reported cost is the cost of the first entry of the list for the filled table; on well-formed input it is the least route cost from port 0 to the last port |
| TradingPost.DynamicProg | src/TradingPost.java:134-157 | a fresh table of the input's size that equals `DynProg` of the input; the input is not modified |
| TradingPost.CloneRows | src/TradingPost.java:135-138 | a fresh table equal to the input |
| TradingPost.FillRow | src/TradingPost.java:141-154 | row i becomes the filled row of `Cell`; earlier rows stay filled and later rows keep their input values |
| TradingPost.ArrivalScan | src/TradingPost.java:145-151 | the strict `<` scan from row i-1 up to row 0 over the filled rows yields the row's increment |
| TradingPost.ScanFindsIncrement | src/TradingPost.java:145-151 | the scan's final minimum decides `currCost` as the increment does: the minimum if below `MAX_VALUE`, else 0 |
| TradingPost.FindDynProgPath | src/TradingPost.java:166-191 | returns exactly `Trace` of the table from the last column |
| TradingPost.RecordColumn | src/TradingPost.java:174-184 | one pass appends the stop entry (unless at the destination) and the hop from the chosen predecessor |
| TradingPost.ChoosePredecessor | src/TradingPost.java:171-183 | the `<=` ascending scan returns the last row of least value in the column |
| TradingPost.TraceStep | src/TradingPost.java:170-186 | after one pass, the list built so far followed by the walk from the chosen predecessor is still the whole walk |

## Left out

- `readInput`, `main`, the clock and the printing in `testDynProg`, `printCostArray` and `generateTestData` are not part of this model: they do I/O, timing and printing.
- The brute-force and divide-and-conquer solvers are not part of this model. Their classes (`BruteForce.testTime`, `DivideAndConquer.testTime`, which `main` calls at lines 22 and 24) are not in `src/TradingPost.java`, and the `BruteForce(int[][])` method at lines 266-268 is an empty stub.
- TradingPost.ParseInput: covers only text written from a grid of valid fields, where each line has at least one field and no more than the first line, and there are no more lines than the first line has fields. Other text (which makes the source throw, or, for blank lines or a carriage return between fields, parses differently) is not modelled.
- InputFormat.ParseInt: covers ASCII digits only; `Integer.parseInt` also accepts other Unicode decimal digits.
- TradingPost.StoreRow: `rowData[rowCount] = rowCosts` replaces a row object in Java. Here it copies the row into a two-dimensional array, so aliasing between rows is not modelled.
- Ragged `int[][]` arrays are not modelled: every matrix is rectangular.
  - The source's `dynamicProg` reads `thePorts[0].length` and `findDynProgPath` reads column N-1. The methods here therefore require at least one row, and at least as many columns as rows where the source indexes that far.
- Routes.TraceHopIsOptimal, Routes.ColumnMinIsOptimal, Routes.DiagonalIsOptimal, TradingPost.TestDynProg: optimality is stated only for `WellFormed` matrices.
  - `WellFormed` means a zero diagonal and finite non-negative costs above it, with no sum 0 -> i -> j past `MAX_VALUE`.
  - With "NA" above the diagonal the source can report a cost that no route has (`UnreachableStopCountsAsFree`).
  - With larger costs the additions wrap around.
