/**
 * The values `dynamicProg` and `findDynProgPath` compute, as functions of their input.
 *
 * A cost matrix is a sequence of equally long rows; entry [i][j] is the cost of the
 * direct trip from port i to port j. `Cell` gives the value `dynamicProg` leaves at
 * [i][j], `LastArgMin` the predecessor `findDynProgPath` picks, and `Trace` the list
 * of hops it returns.
 */
module CostTable {
  import opened JavaInt

  type Matrix = seq<seq<int32>>

  /** One hop of a reconstructed route, the `int[]{origin, destination, cost}` of the source. */
  datatype Hop = Hop(origin: int, dest: int, cost: int32)

  /** At least one row (the source reads row 0), and every row as wide as row 0. */
  predicate IsTable(t: Matrix) {
    |t| >= 1 && forall i :: 0 <= i < |t| ==> |t[i]| == |t[0]|
  }

  function Width(t: Matrix): nat
    requires IsTable(t)
  {
    |t[0]|
  }

  function Min(a: int32, b: int32): (m: int32)
    ensures m <= a && m <= b && (m == a || m == b)
  {
    if a <= b then a else b
  }

  // ---------------------------------------------------------------------------
  // The filled table of dynamicProg
  // ---------------------------------------------------------------------------

  /**
   * The value `dynamicProg` leaves at [i][j]. Rows 0 and |t|-1 and the cells left of
   * the diagonal keep their input value; every other cell gets the row's increment
   * added with Java's wrapping `+`.
   */
  function Cell(t: Matrix, i: nat, j: nat): int32
    requires IsTable(t) && i < |t| && j < Width(t)
    decreases i, 2, 0
  {
    if 1 <= i < |t| - 1 && i <= j then Add(t[i][j], Increment(t, i)) else t[i][j]
  }

  /**
   * `currCost` of row i >= 1: the cheapest filled arrival at port i, or 0 when no
   * arrival is below `Integer.MAX_VALUE` (the strict `<` against the initial
   * `MAX_VALUE` never fires then).
   */
  function Increment(t: Matrix, i: nat): int32
    requires IsTable(t) && 1 <= i < |t| && i < Width(t)
    decreases i, 1, 0
  {
    var m := ArrivalMin(t, i, i);
    if m < MAX_VALUE then m else 0
  }

  /** The least filled value of column i over rows 0 .. n-1. */
  function ArrivalMin(t: Matrix, i: nat, n: nat): (m: int32)
    requires IsTable(t) && 1 <= n <= i < |t| && i < Width(t)
    ensures forall k :: 0 <= k < n ==> m <= Cell(t, k, i)
    decreases i, 0, n
  {
    if n == 1 then Cell(t, 0, i) else Min(ArrivalMin(t, i, n - 1), Cell(t, n - 1, i))
  }

  /** The least value `ArrivalMin` finds is the value of one of the rows it looks at. */
  lemma {:induction false} ArrivalMinAttained(t: Matrix, i: nat, n: nat)
    requires IsTable(t) && 1 <= n <= i < |t| && i < Width(t)
    ensures exists k :: 0 <= k < n && ArrivalMin(t, i, n) == Cell(t, k, i)
    decreases n
  {
    if n > 1 {
      ArrivalMinAttained(t, i, n - 1);
      var k :| 0 <= k < n - 1 && ArrivalMin(t, i, n - 1) == Cell(t, k, i);
      if Cell(t, n - 1, i) < Cell(t, k, i) {
        assert ArrivalMin(t, i, n) == Cell(t, n - 1, i);
      } else {
        assert ArrivalMin(t, i, n) == Cell(t, k, i);
      }
    } else {
      assert ArrivalMin(t, i, n) == Cell(t, 0, i);
    }
  }

  /** The whole table `dynamicProg` returns for input t. */
  function DynProg(t: Matrix): (r: Matrix)
    requires IsTable(t)
    ensures IsTable(r) && |r| == |t| && Width(r) == Width(t)
  {
    FilledRows(t, |t|)
  }

  /** Rows 0 .. n-1 of the filled table. */
  function FilledRows(t: Matrix, n: nat): (rows: Matrix)
    requires IsTable(t) && n <= |t|
    ensures |rows| == n && forall i :: 0 <= i < n ==> |rows[i]| == Width(t)
  {
    if n == 0 then [] else FilledRows(t, n - 1) + [seq(Width(t), j requires 0 <= j < Width(t) => Cell(t, n - 1, j))]
  }

  /** Each cell of the filled table is the `Cell` of the input. */
  lemma {:induction false} FilledCell(t: Matrix, n: nat, i: nat, j: nat)
    requires IsTable(t) && i < n <= |t| && j < Width(t)
    ensures FilledRows(t, n)[i][j] == Cell(t, i, j)
    decreases n
  {
    if i < n - 1 {
      FilledCell(t, n - 1, i, j);
      assert FilledRows(t, n)[i] == FilledRows(t, n - 1)[i];
    }
  }

  /** The value the fill leaves at [i][j]. */
  lemma DynProgCell(t: Matrix, i: nat, j: nat)
    requires IsTable(t) && i < |t| && j < Width(t)
    ensures DynProg(t)[i][j] == Cell(t, i, j)
  {
    FilledCell(t, |t|, i, j);
  }

  // ---------------------------------------------------------------------------
  // Predecessor choice and the route of findDynProgPath
  // ---------------------------------------------------------------------------

  /**
   * The row the ascending `<=` scan of `findDynProgPath` settles on in column c
   * among rows 0 .. n-1: a row of least value, the last such row when several tie.
   */
  function LastArgMin(r: Matrix, c: nat, n: nat): (k: nat)
    requires IsTable(r) && 1 <= n <= |r| && c < Width(r)
    ensures k < n
  {
    if n == 1 then 0
    else
      var k := LastArgMin(r, c, n - 1);
      if r[n - 1][c] <= r[k][c] then n - 1 else k
  }

  /**
   * `LastArgMin` picks a row of least value among rows 0 .. n-1 of column c, and
   * every later row holds a strictly greater value (so on a tie the last row wins).
   */
  lemma {:induction false} LastArgMinIsLastMin(r: Matrix, c: nat, n: nat)
    requires IsTable(r) && 1 <= n <= |r| && c < Width(r)
    ensures var k := LastArgMin(r, c, n);
      && (forall k' :: 0 <= k' < n ==> r[k][c] <= r[k'][c])
      && (forall k' :: k < k' < n ==> r[k][c] < r[k'][c])
    decreases n
  {
    if n > 1 {
      LastArgMinIsLastMin(r, c, n - 1);
    }
  }

  /** The least value of column c over the rows above the diagonal. */
  function ColumnMin(r: Matrix, c: nat): int32
    requires IsTable(r) && 1 <= c < |r| && c < Width(r)
  {
    r[LastArgMin(r, c, c)][c]
  }

  /** The stop entry recorded at column c: (c, c, r[c][c]), except at the destination. */
  function Stop(r: Matrix, c: nat): seq<Hop>
    requires IsTable(r) && c < |r| <= Width(r)
  {
    if c < |r| - 1 then [Hop(c, c, r[c][c])] else []
  }

  /**
   * The hops `findDynProgPath` appends from the moment `colPtr` equals c: a stop
   * entry (c, c, r[c][c]) unless c is the destination, the hop from the chosen
   * predecessor, then the rest from that predecessor; (0, 0, 0) closes the list.
   */
  function Trace(r: Matrix, c: nat): (hops: seq<Hop>)
    requires IsTable(r) && c < |r| <= Width(r)
    ensures |hops| >= 1
    decreases c
  {
    if c == 0 then [Hop(0, 0, 0)]
    else
      var k := LastArgMin(r, c, c);
      Stop(r, c) + [Hop(k, c, r[k][c])] + Trace(r, k)
  }

  /** The list always ends with the closing entry (0, 0, 0). */
  lemma {:induction false} TraceEndsAtOrigin(r: Matrix, c: nat)
    requires IsTable(r) && c < |r| <= Width(r)
    ensures var hops := Trace(r, c); hops[|hops| - 1] == Hop(0, 0, 0)
    decreases c
  {
    if c > 0 {
      TraceEndsAtOrigin(r, LastArgMin(r, c, c));
    }
  }

  /** The ports of the route `Trace` walks back, listed from port 0 to port c. */
  function Chain(r: Matrix, c: nat): (p: seq<int>)
    requires IsTable(r) && c < |r| <= Width(r)
    ensures |p| >= 1 && p[0] == 0 && p[|p| - 1] == c
    ensures forall t :: 0 <= t < |p| - 1 ==> p[t] < p[t + 1]
    ensures forall t :: 0 <= t < |p| ==> 0 <= p[t] <= c
    decreases c
  {
    if c == 0 then [0] else Chain(r, LastArgMin(r, c, c)) + [c]
  }

  // ---------------------------------------------------------------------------
  // Properties of the filled table
  // ---------------------------------------------------------------------------

  /**
   * Row 0, the last row and every cell left of the diagonal come out of the fill
   * exactly as they went in.
   */
  lemma FillKeepsBorders(t: Matrix, i: nat, j: nat)
    requires IsTable(t) && i < |t| && j < Width(t)
    requires i == 0 || i == |t| - 1 || j < i
    ensures DynProg(t)[i][j] == t[i][j]
  {
    DynProgCell(t, i, j);
  }

  /** The filled column prefix above port i is what `ArrivalMin` minimises over. */
  lemma ArrivalMinIsColumnMin(t: Matrix, i: nat)
    requires IsTable(t) && 1 <= i < |t| && i < Width(t)
    ensures ArrivalMin(t, i, i) == ColumnMin(DynProg(t), i)
  {
    var r := DynProg(t);
    var k := LastArgMin(r, i, i);
    var m := ArrivalMin(t, i, i);
    ArrivalMinAttained(t, i, i);
    var k0 :| 0 <= k0 < i && m == Cell(t, k0, i);
    LastArgMinIsLastMin(r, i, i);
    DynProgCell(t, k, i);
    DynProgCell(t, k0, i);
    assert r[k][i] <= r[k0][i];
    assert m <= Cell(t, k, i);
  }

  /**
   * The recurrence of the fill, stated on the result table itself: for a middle row
   * i, every cell from the diagonal on is its input value plus the least value of
   * column i above row i, or plus 0 when that least value is `MAX_VALUE`.
   */
  lemma FillRecurrence(t: Matrix, i: nat, j: nat)
    requires IsTable(t) && 1 <= i < |t| - 1 && i <= j < Width(t)
    ensures var r := DynProg(t);
            var m := ColumnMin(r, i);
            r[i][j] == Add(t[i][j], if m < MAX_VALUE then m else 0)
  {
    ArrivalMinIsColumnMin(t, i);
    DynProgCell(t, i, j);
  }

  // ---------------------------------------------------------------------------
  // Properties of the reconstructed route
  // ---------------------------------------------------------------------------

  /**
   * The list `findDynProgPath` returns when it starts from column c is one linked
   * walk back to port 0: the first entry arrives at c, and each entry's origin is
   * the destination of the entry recorded after it.
   */
  lemma {:induction false} TraceIsLinked(r: Matrix, c: nat, s: nat)
    requires IsTable(r) && c < |r| <= Width(r) && s < |Trace(r, c)| - 1
    ensures Trace(r, c)[0].dest == c
    ensures Trace(r, c)[s].origin == Trace(r, c)[s + 1].dest
    decreases c
  {
    var k := LastArgMin(r, c, c);
    var m := |Stop(r, c)| + 1;
    assert Trace(r, c) == Stop(r, c) + [Hop(k, c, r[k][c])] + Trace(r, k);
    if s >= m {
      TraceIsLinked(r, k, s - m);
      assert Trace(r, c)[s] == Trace(r, k)[s - m];
      assert Trace(r, c)[s + 1] == Trace(r, k)[s + 1 - m];
    } else if s == m - 1 {
      assert Trace(r, c)[s + 1] == Trace(r, k)[0];
    }
  }

  /**
   * The real hops of a list (entries whose origin differs from their destination),
   * as (origin, destination) pairs read from the end of the list to its start.
   */
  function Moves(h: seq<Hop>): seq<(int, int)>
  {
    if |h| == 0 then []
    else Moves(h[1..]) + (if h[0].origin != h[0].dest then [(h[0].origin, h[0].dest)] else [])
  }

  /** The consecutive steps (p[t], p[t + 1]) of a sequence of ports. */
  function Steps(p: seq<int>): seq<(int, int)>
  {
    if |p| <= 1 then [] else Steps(p[..|p| - 1]) + [(p[|p| - 2], p[|p| - 1])]
  }

  /** Reading the real hops of a concatenation from the end takes the second part first. */
  lemma {:induction false} MovesAppend(x: seq<Hop>, y: seq<Hop>)
    ensures Moves(x + y) == Moves(y) + Moves(x)
    decreases |x|
  {
    if |x| > 0 {
      assert (x + y)[1..] == x[1..] + y;
      MovesAppend(x[1..], y);
    } else {
      assert x + y == y;
    }
  }

  /**
   * The list `findDynProgPath` returns, started at column c, is the route `Chain`
   * describes: its real hops, read from the end, are exactly the consecutive steps
   * of that route from port 0 to c; the stop entries and the closing (0, 0, 0) are
   * the only other entries.
   */
  lemma {:induction false} TraceMovesFollowChain(r: Matrix, c: nat)
    requires IsTable(r) && c < |r| <= Width(r)
    ensures Moves(Trace(r, c)) == Steps(Chain(r, c))
    decreases c
  {
    if c == 0 {
      assert Moves([Hop(0, 0, 0)]) == Moves([]) + [];
    } else {
      var k := LastArgMin(r, c, c);
      TraceMovesFollowChain(r, k);
      TraceStepMoves(r, c);
      StepsSnoc(Chain(r, k), c);
    }
  }

  /** One step of the walk adds the single real hop (k, c) to the moves of the walk from k. */
  lemma TraceStepMoves(r: Matrix, c: nat)
    requires IsTable(r) && 1 <= c < |r| <= Width(r)
    ensures var k := LastArgMin(r, c, c);
      Moves(Trace(r, c)) == Moves(Trace(r, k)) + [(k, c)]
  {
    var k := LastArgMin(r, c, c);
    var stop := Stop(r, c);
    var hop := [Hop(k, c, r[k][c])];
    assert Trace(r, c) == (stop + hop) + Trace(r, k);
    MovesAppend(stop + hop, Trace(r, k));
    MovesAppend(stop, hop);
    assert Moves(hop) == Moves([]) + [(k, c)];
    if c < |r| - 1 {
      assert Moves(stop) == Moves([]) + [];
    }
  }

  /** Extending a sequence of ports by one adds the step from its last port. */
  lemma StepsSnoc(p: seq<int>, c: int)
    requires 0 < |p|
    ensures Steps(p + [c]) == Steps(p) + [(p[|p| - 1], c)]
  {
    assert (p + [c])[..|p|] == p;
  }

  /**
   * An entry (the closing (0, 0, 0) excepted) of the list: either a stop entry
   * (d, d, r[d][d]) for an intermediate port 0 < d < |r| - 1, or a real hop
   * (k, d, r[k][d]) from the predecessor the scan of column d chooses.
   */
  predicate IsEntry(r: Matrix, e: Hop)
    requires IsTable(r) && |r| <= Width(r)
  {
    if e.origin == e.dest then 0 < e.dest < |r| - 1 && e.cost == r[e.dest][e.dest]
    else 1 <= e.dest < |r| && e.origin == LastArgMin(r, e.dest, e.dest) && e.cost == r[e.origin][e.dest]
  }

  /** Every entry but the last of the list started at column c is an `IsEntry` at a port up to c. */
  lemma {:induction false} TraceEntry(r: Matrix, c: nat, s: nat)
    requires IsTable(r) && c < |r| <= Width(r) && s < |Trace(r, c)| - 1
    ensures 0 <= Trace(r, c)[s].origin <= Trace(r, c)[s].dest <= c
    ensures IsEntry(r, Trace(r, c)[s])
    decreases c
  {
    var k := LastArgMin(r, c, c);
    var pre := Stop(r, c);
    var m := |pre| + 1;
    assert Trace(r, c) == pre + [Hop(k, c, r[k][c])] + Trace(r, k);
    if s >= m {
      TraceEntry(r, k, s - m);
      assert Trace(r, c)[s] == Trace(r, k)[s - m];
    }
  }

  /**
   * The first entry of the list: for at least two ports it is the hop into the last
   * port from the row holding the least value of the last column (the value the
   * source reports as the minimum cost); for a single port the list is [(0, 0, 0)].
   */
  lemma TraceHead(r: Matrix)
    requires IsTable(r) && |r| <= Width(r)
    ensures var n := |r|;
            var h := Trace(r, n - 1);
            if n == 1 then h == [Hop(0, 0, 0)]
            else
              && 0 <= h[0].origin < n - 1 && h[0].dest == n - 1
              && h[0].cost == r[h[0].origin][n - 1] == ColumnMin(r, n - 1)
              && (forall k :: 0 <= k < n - 1 ==> h[0].cost <= r[k][n - 1])
  {
    if |r| > 1 {
      LastArgMinIsLastMin(r, |r| - 1, |r| - 1);
    }
  }

  /**
   * Tie-break of the predecessor scan: when every row above the diagonal holds the
   * same value in column c (all `MAX_VALUE`, say), the scan picks row c - 1.
   */
  lemma TieGoesToLastRow(r: Matrix, c: nat)
    requires IsTable(r) && 1 <= c < |r| && c < Width(r)
    requires forall k :: 0 <= k < c ==> r[k][c] == r[0][c]
    ensures LastArgMin(r, c, c) == c - 1
  {
  }
}
