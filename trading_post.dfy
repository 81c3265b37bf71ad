/**
 * The dynamic-programming solver of the trading-post problem, as the source runs it:
 * `dynamicProg` fills a copy of the cost matrix row by row, `findDynProgPath` walks
 * the filled table back from the last port, and `testDynProg` reports the cost of the
 * first hop of that walk; `parseInput` reads the cost matrix from its tab-separated
 * text. Java's `int[][]` is a rectangular `array2` here.
 */
module TradingPost {
  import opened JavaInt
  import opened CostTable
  import opened Routes
  import opened InputFormat

  /** The rows of a two-dimensional array, as a value. */
  ghost function Rows(a: array2<int32>): (t: Matrix)
    reads a
    ensures |t| == a.Length0
    ensures forall i :: 0 <= i < |t| ==> |t[i]| == a.Length1
    ensures forall i, j :: 0 <= i < a.Length0 && 0 <= j < a.Length1 ==> t[i][j] == a[i, j]
  {
    seq(a.Length0, i requires 0 <= i < a.Length0 reads a =>
      seq(a.Length1, j requires 0 <= j < a.Length1 reads a => a[i, j]))
  }

  /**
   * `parseInput`: the first line's tabs give the column count n; the result is an
   * n x n matrix holding, for each line of the text, its costs in order ("NA" read
   * as `MAX_VALUE`), and 0 in every cell no line reaches.
   */
  method ParseInput(inputStr: string, ghost grid: seq<seq<string>>) returns (rowData: array2<int32>)
    requires IsGrid(grid) && inputStr == Text(grid)
    ensures fresh(rowData)
    ensures rowData.Length0 == |grid[0]| && rowData.Length1 == |grid[0]|
    ensures forall r, c :: 0 <= r < rowData.Length0 && 0 <= c < rowData.Length1 ==>
      rowData[r, c] == if r < |grid| && c < |grid[r]| then FieldValue(grid[r][c]) else 0
  {
    var colCount := ColumnCount(inputStr, grid);
    var rowCount := 0;
    rowData := new int32[colCount, colCount]((_, _) => 0);
    var rest := inputStr;
    while |rest| > 0
      invariant rowData.Length0 == colCount && rowData.Length1 == colCount && fresh(rowData)
      invariant 0 <= rowCount <= |grid|
      invariant rest == Text(grid[rowCount..])
      invariant forall r, c :: 0 <= r < colCount && 0 <= c < colCount ==>
        rowData[r, c] == if r < rowCount && c < |grid[r]| then FieldValue(grid[r][c]) else 0
      decreases |rest|
    {
      var rows := grid[rowCount..];
      TextSplit(rows);
      assert rows[0] == grid[rowCount] && rows[1..] == grid[rowCount + 1..];
      var row := rest[..IndexOf(rest, '\n')];
      var rowCosts := ParseRow(row, colCount, grid[rowCount]);
      StoreRow(rowData, rowCount, rowCosts);
      rowCount := rowCount + 1;
      rest := rest[IndexOf(rest, '\n') + 1..];
    }
  }

  /** The first loop of `parseInput`: one more than the tabs before the first line feed. */
  method ColumnCount(inputStr: string, ghost grid: seq<seq<string>>) returns (colCount: nat)
    requires IsGrid(grid) && inputStr == Text(grid)
    ensures colCount == |grid[0]|
  {
    colCount := 1;
    TextSplit(grid);
    LineTabs(grid[0]);
    var i := 0;
    while i < IndexOf(inputStr, '\n')
      invariant 0 <= i <= IndexOf(inputStr, '\n')
      invariant colCount == 1 + CountOf(inputStr[..i], '\t')
    {
      assert inputStr[..i + 1][..i] == inputStr[..i];
      if inputStr[i] == '\t' {
        colCount := colCount + 1;
      }
      i := i + 1;
    }
    assert inputStr[..i] == Line(grid[0]);
  }

  /**
   * The inner loop of `parseInput` on one line: each field ends at the first tab
   * (when not at index 0) or else at the carriage return, and its value goes to
   * the next slot of a fresh zero-filled row of colCount costs.
   */
  method ParseRow(line: string, colCount: nat, ghost fields: seq<string>) returns (rowCosts: array<int32>)
    requires 0 < |fields| <= colCount && AllFields(fields) && line == Line(fields)
    ensures fresh(rowCosts) && rowCosts.Length == colCount
    ensures forall c :: 0 <= c < colCount ==> rowCosts[c] == if c < |fields| then FieldValue(fields[c]) else 0
  {
    var i := 0;
    var row := line;
    rowCosts := new int32[colCount](_ => 0);
    while |row| > 0
      invariant 0 <= i <= |fields|
      invariant row == if i < |fields| then Line(fields[i..]) else ""
      invariant forall c :: 0 <= c < colCount ==> rowCosts[c] == if c < i then FieldValue(fields[c]) else 0
      decreases |row|
    {
      var rest := fields[i..];
      LineSplit(rest);
      assert rest[0] == fields[i] && rest[1..] == fields[i + 1..];
      var charIndex := if IndexOf(row, '\t') > 0 then IndexOf(row, '\t') else IndexOf(row, '\r');
      var value := row[..charIndex];
      // "NA" is the sentinel; any other field is a decimal
      rowCosts[i] := if value == "NA" then MAX_VALUE else ParseInt(value);
      i := i + 1;
      row := row[charIndex + 1..];
    }
  }

  /** `rowData[rowCount] = rowCosts`, as a copy of the row into the two-dimensional array. */
  method StoreRow(rowData: array2<int32>, r: nat, rowCosts: array<int32>)
    requires r < rowData.Length0 && rowCosts.Length == rowData.Length1
    modifies rowData
    ensures forall k, c :: 0 <= k < rowData.Length0 && 0 <= c < rowData.Length1 ==>
      rowData[k, c] == if k == r then rowCosts[c] else old(rowData[k, c])
  {
    for c := 0 to rowData.Length1
      invariant forall k, c' :: 0 <= k < rowData.Length0 && 0 <= c' < rowData.Length1 ==>
        rowData[k, c'] == if k == r && c' < c then rowCosts[c'] else old(rowData[k, c'])
    {
      rowData[r, c] := rowCosts[c];
    }
  }

  /**
   * `testDynProg` without its clock and its printing: fills the table, walks it back,
   * and reports the cost in the first entry of the list. On the matrices the test
   * data generator writes, that is the least cost of a forward-only route from the
   * first port to the last.
   */
  method TestDynProg(rowData: array2<int32>) returns (minCost: int32)
    requires 1 <= rowData.Length0 <= rowData.Length1
    ensures minCost == Trace(DynProg(Rows(rowData)), rowData.Length0 - 1)[0].cost
    ensures WellFormed(Rows(rowData)) ==> IsMinRouteCost(Rows(rowData), rowData.Length0 - 1, minCost)
  {
    ghost var t := Rows(rowData);
    var costArray := DynamicProg(rowData);
    ghost var r := Rows(costArray);
    var shortestPath := FindDynProgPath(costArray);
    minCost := shortestPath[0].cost;
    if WellFormed(t) {
      DynProgFills(t);
      ReportedIsMinimal(t, r, minCost);
    }
  }

  /**
   * `dynamicProg`: copies the ports matrix into a fresh table, then for every row i
   * but the last adds the row's running increment `currCost` to the cells from the
   * diagonal on. The argument is not modified.
   */
  method DynamicProg(ports: array2<int32>) returns (costs: array2<int32>)
    requires ports.Length0 >= 1
    ensures fresh(costs)
    ensures costs.Length0 == ports.Length0 && costs.Length1 == ports.Length1
    ensures Rows(costs) == DynProg(Rows(ports))
  {
    ghost var t := Rows(ports);
    costs := CloneRows(ports);
    for i := 0 to costs.Length0 - 1
      invariant forall k, c :: 0 <= k < i && 0 <= c < costs.Length1 ==> costs[k, c] == Cell(t, k, c)
      invariant forall k, c :: i <= k < costs.Length0 && 0 <= c < costs.Length1 ==> costs[k, c] == t[k][c]
    {
      FillRow(costs, i, t);
    }
    forall k, c | 0 <= k < costs.Length0 && 0 <= c < costs.Length1
      ensures Rows(costs)[k][c] == DynProg(t)[k][c]
    {
      DynProgCell(t, k, c);
    }
    assert forall k :: 0 <= k < costs.Length0 ==> Rows(costs)[k] == DynProg(t)[k];
  }

  /** The row-by-row `clone()` that starts `dynamicProg`: a fresh table equal to the input. */
  method CloneRows(ports: array2<int32>) returns (costs: array2<int32>)
    ensures fresh(costs)
    ensures costs.Length0 == ports.Length0 && costs.Length1 == ports.Length1
    ensures forall k, c :: 0 <= k < ports.Length0 && 0 <= c < ports.Length1 ==> costs[k, c] == ports[k, c]
  {
    var n, m := ports.Length0, ports.Length1;
    costs := new int32[n, m];
    for k := 0 to n
      invariant forall k', c :: 0 <= k' < k && 0 <= c < m ==> costs[k', c] == ports[k', c]
    {
      for c := 0 to m
        invariant forall k', c' :: 0 <= k' < k && 0 <= c' < m ==> costs[k', c'] == ports[k', c']
        invariant forall c' :: 0 <= c' < c ==> costs[k, c'] == ports[k, c']
      {
        costs[k, c] := ports[k, c];
      }
    }
  }

  /**
   * One pass of the outer loop of `dynamicProg`: row i (not the last) gets
   * `currCost` added from the diagonal on; `currCost` is found at the diagonal cell
   * (for i > 0) and then kept for the rest of the row.
   */
  method FillRow(costs: array2<int32>, i: nat, ghost t: Matrix)
    requires IsTable(t) && |t| == costs.Length0 && Width(t) == costs.Length1
    requires i < costs.Length0 - 1
    requires forall k, c :: 0 <= k < i && 0 <= c < costs.Length1 ==> costs[k, c] == Cell(t, k, c)
    requires forall k, c :: i <= k < costs.Length0 && 0 <= c < costs.Length1 ==> costs[k, c] == t[k][c]
    modifies costs
    ensures forall k, c :: 0 <= k <= i && 0 <= c < costs.Length1 ==> costs[k, c] == Cell(t, k, c)
    ensures forall k, c :: i < k < costs.Length0 && 0 <= c < costs.Length1 ==> costs[k, c] == t[k][c]
  {
    var m := costs.Length1;
    var currCost: int32 := 0;
    var j := i;
    while j < m
      invariant i <= j && (j == i || j <= m)
      invariant forall k, c :: 0 <= k < costs.Length0 && k != i && 0 <= c < m ==> costs[k, c] == old(costs[k, c])
      invariant forall c :: 0 <= c < m && (c < i || j <= c) ==> costs[i, c] == t[i][c]
      invariant forall c :: i <= c < j && c < m ==> costs[i, c] == Cell(t, i, c)
      invariant (i == 0 || j == i) ==> currCost == 0
      invariant 1 <= i < j ==> currCost == Increment(t, i)
    {
      if j == i && i != 0 {
        currCost := ArrivalScan(costs, i, t);
      }
      costs[i, j] := Add(costs[i, j], currCost);
      j := j + 1;
    }
  }

  /**
   * The innermost loop of `dynamicProg`: scans column i from row i - 1 up to row 0,
   * taking every value strictly below the least seen so far (initially
   * `MAX_VALUE`) as the new `currCost`; with the rows above i filled, the result is
   * the row's increment.
   */
  method ArrivalScan(costs: array2<int32>, i: nat, ghost t: Matrix) returns (currCost: int32)
    requires IsTable(t) && |t| == costs.Length0 && Width(t) == costs.Length1
    requires 1 <= i < costs.Length0 && i < costs.Length1
    requires forall k :: 0 <= k < i ==> costs[k, i] == Cell(t, k, i)
    ensures currCost == Increment(t, i)
  {
    currCost := 0;
    var minCost: int32 := MAX_VALUE;
    ghost var at := i;  // the row minCost was taken from, once it is below MAX_VALUE
    var k := i - 1;
    while k >= 0
      invariant -1 <= k < i
      invariant forall k' :: k < k' < i ==> minCost <= Cell(t, k', i)
      invariant minCost == MAX_VALUE || (k < at < i && minCost == Cell(t, at, i))
      invariant currCost == if minCost < MAX_VALUE then minCost else 0
    {
      if costs[k, i] < minCost {
        currCost := costs[k, i];
        minCost := currCost;
        at := k;
      }
      k := k - 1;
    }
    ScanFindsIncrement(t, i, minCost);
  }

  /**
   * What the upward strict-`<` scan of column i leaves in `minCost` decides
   * `currCost` exactly as `Increment` says.
   */
  lemma ScanFindsIncrement(t: Matrix, i: nat, minCost: int32)
    requires IsTable(t) && 1 <= i < |t| && i < Width(t)
    requires forall k :: 0 <= k < i ==> minCost <= Cell(t, k, i)
    requires minCost == MAX_VALUE || exists k :: 0 <= k < i && minCost == Cell(t, k, i)
    ensures Increment(t, i) == if minCost < MAX_VALUE then minCost else 0
  {
    var m := ArrivalMin(t, i, i);
    ArrivalMinAttained(t, i, i);
    var k0 :| 0 <= k0 < i && m == Cell(t, k0, i);
    assert minCost <= m;
  }

  /**
   * `findDynProgPath`: starting from the last column, records a stop entry for every
   * column but the last, picks the predecessor row of the column, records the hop
   * from it, and moves to it; (0, 0, 0) closes the list.
   */
  method FindDynProgPath(costs: array2<int32>) returns (path: seq<Hop>)
    requires 1 <= costs.Length0 <= costs.Length1
    ensures path == Trace(Rows(costs), costs.Length0 - 1)
  {
    ghost var r := Rows(costs);
    var n := costs.Length0;
    path := [];
    var colPtr := n - 1;
    while colPtr != 0
      invariant 0 <= colPtr < n
      invariant path + Trace(r, colPtr) == Trace(r, n - 1)
      decreases colPtr
    {
      ghost var before := path;
      var minOrigPort;
      path, minOrigPort := RecordColumn(costs, colPtr, r, path);
      TraceStep(r, n - 1, colPtr, minOrigPort, before, path);
      colPtr := minOrigPort;
    }
    path := path + [Hop(0, 0, 0)];
  }

  /**
   * The body of the reconstruction loop of `findDynProgPath` at column c: the stop
   * entry (c, c, costs[c][c]) unless c is the destination, then the hop from the
   * chosen predecessor row k, (k, c, costs[k][c]).
   */
  method RecordColumn(costs: array2<int32>, c: nat, ghost r: Matrix, path: seq<Hop>)
    returns (path': seq<Hop>, k: nat)
    requires r == Rows(costs) && 1 <= c < costs.Length0 <= costs.Length1
    ensures k == LastArgMin(r, c, c)
    ensures path' == path + Stop(r, c) + [Hop(k, c, r[k][c])]
  {
    path' := path;
    // add the stop where the canoe was rented, unless this is the destination
    if c < costs.Length0 - 1 {
      path' := path' + [Hop(c, c, costs[c, c])];
    }
    k := ChoosePredecessor(costs, c, r);
    path' := path' + [Hop(k, c, costs[k, c])];
  }

  /**
   * The predecessor scan of `findDynProgPath`: rows 0 .. c-1 of column c in
   * ascending order, keeping every value `<=` the least seen so far (initially
   * `MAX_VALUE`), so the last row of least value wins.
   */
  method ChoosePredecessor(costs: array2<int32>, c: nat, ghost r: Matrix) returns (minOrigPort: nat)
    requires r == Rows(costs) && 1 <= c < costs.Length0 <= costs.Length1
    ensures minOrigPort == LastArgMin(r, c, c)
  {
    minOrigPort := 0;
    var minOrigCost: int32 := MAX_VALUE;
    for k := 0 to c
      invariant k == 0 ==> minOrigPort == 0 && minOrigCost == MAX_VALUE
      invariant 0 < k ==> minOrigPort == LastArgMin(r, c, k) && minOrigCost == r[minOrigPort][c]
    {
      if costs[k, c] <= minOrigCost {
        minOrigCost := costs[k, c];
        minOrigPort := k;
      }
    }
  }

  /**
   * One pass of the reconstruction loop appends exactly the head of `Trace` for
   * column c, so the list built so far followed by the rest of the walk from the
   * chosen predecessor k is still the whole walk from column d.
   */
  lemma TraceStep(r: Matrix, d: nat, c: nat, k: nat, before: seq<Hop>, after: seq<Hop>)
    requires IsTable(r) && 1 <= c < |r| <= Width(r) && d < |r| && k == LastArgMin(r, c, c)
    requires before + Trace(r, c) == Trace(r, d)
    requires after == before + Stop(r, c) + [Hop(k, c, r[k][c])]
    ensures after + Trace(r, k) == Trace(r, d)
  {
    var head := Stop(r, c) + [Hop(k, c, r[k][c])];
    assert Trace(r, c) == head + Trace(r, k);
    Associative(before, Stop(r, c), [Hop(k, c, r[k][c])]);
    Associative(before, head, Trace(r, k));
  }

  /**
   * Regrouping a concatenation; Dafny knows it, but handing it the two instances
   * keeps `TraceStep` from searching for them through sequence extensionality.
   */
  lemma Associative<T>(x: seq<T>, y: seq<T>, z: seq<T>)
    ensures x + y + z == x + (y + z)
  {
  }
}
