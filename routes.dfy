/**
 * What the filled table means: forward-only routes from port 0, their exact costs,
 * and the proof that the table and the reconstructed list report the cheapest one.
 */
module Routes {
  import opened JavaInt
  import opened CostTable

  /** A forward-only route from port 0 to port j among n ports: strictly increasing ports. */
  predicate IsRoute(n: nat, p: seq<int>, j: int) {
    && |p| >= 1 && p[0] == 0 && p[|p| - 1] == j
    && (forall t :: 0 <= t < |p| ==> 0 <= p[t] < n)
    && (forall t :: 0 <= t < |p| - 1 ==> p[t] < p[t + 1])
  }

  /** A forward-only route to port j visits at most j + 1 ports. */
  lemma {:induction false} RouteLength(n: nat, p: seq<int>, j: int)
    requires IsRoute(n, p, j)
    ensures |p| <= j + 1
    decreases |p|
  {
    if |p| > 1 {
      var k := p[|p| - 2];
      assert IsRoute(n, p[..|p| - 1], k);
      RouteLength(n, p[..|p| - 1], k);
    }
  }

  /** The exact total of the direct costs along a route (no wrap-around). */
  function RouteCost(a: Matrix, p: seq<int>): int
    requires IsTable(a) && |a| <= Width(a)
    requires forall t :: 0 <= t < |p| ==> 0 <= p[t] < |a|
  {
    if |p| <= 1 then 0 else RouteCost(a, p[..|p| - 1]) + a[p[|p| - 2]][p[|p| - 1]]
  }

  /** v is the least cost of a forward-only route from port 0 to port j. */
  ghost predicate IsMinRouteCost(a: Matrix, j: int, v: int)
    requires IsTable(a) && |a| <= Width(a)
  {
    && (forall p :: IsRoute(|a|, p, j) ==> RouteCost(a, p) >= v)
    && (exists p :: IsRoute(|a|, p, j) && RouteCost(a, p) == v)
  }

  /**
   * The inputs the optimality results cover, the shape the test-data generator
   * writes: a square matrix, 0 on the diagonal, a finite non-negative cost for every
   * forward trip, and no trip 0 -> i -> j whose cost exceeds `MAX_VALUE` (so no
   * addition in the fill wraps around). Entries left of the diagonal are never read.
   */
  ghost predicate WellFormed(a: Matrix) {
    && IsTable(a) && |a| == Width(a)
    && (forall i :: 0 <= i < |a| ==> a[i][i] == 0)
    && (forall i, j :: 0 <= i < j < |a| ==> 0 <= a[i][j] < MAX_VALUE)
    && (forall i, j :: 0 < i < j < |a| ==> a[0][i] + a[i][j] <= MAX_VALUE)
  }

  /** The cheapest arrival at port j a filled table r holds: its column minimum, 0 for port 0. */
  function Best(r: Matrix, j: nat): int32
    requires IsTable(r) && j < |r| && j < Width(r)
  {
    if j == 0 then 0 else ColumnMin(r, j)
  }

  /**
   * r satisfies the shortest-route recurrence for the direct costs a: in every row
   * but the last, each cell from the diagonal on is the cheapest arrival at the row's
   * port plus the direct cost to the cell's port.
   */
  ghost predicate Fills(a: Matrix, r: Matrix)
    requires IsTable(a) && |a| <= Width(a)
  {
    && IsTable(r) && |r| == |a| && Width(r) == Width(a)
    && forall k, j {:trigger a[k][j]} :: 0 <= k <= j < |a| && k < |a| - 1 ==> r[k][j] == Best(r, k) + a[k][j]
  }

  /**
   * The filled table obeys the shortest-route recurrence: cell [k][j] from the
   * diagonal on is the cheapest arrival at k plus the direct cost k -> j, and that
   * arrival cost is non-negative and no more than the direct trip 0 -> k.
   */
  lemma {:induction false} Bellman(a: Matrix, k: nat)
    requires WellFormed(a) && k < |a|
    ensures 0 <= Best(DynProg(a), k)
    ensures 1 <= k ==> Best(DynProg(a), k) <= a[0][k]
    ensures forall j :: k <= j < |a| && k < |a| - 1 ==> DynProg(a)[k][j] == Best(DynProg(a), k) + a[k][j]
    decreases k
  {
    var r := DynProg(a);
    if k >= 1 {
      var p := LastArgMin(r, k, k);
      Bellman(a, p);
      DynProgCell(a, 0, k);
      ArrivalMinIsColumnMin(a, k);
      LastArgMinIsLastMin(r, k, k);
      forall j | k <= j < |a| && k < |a| - 1
        ensures r[k][j] == Best(r, k) + a[k][j]
      {
        DynProgCell(a, k, j);
      }
    } else {
      forall j | 0 <= j < |a|
        ensures r[0][j] == a[0][j]
      {
        DynProgCell(a, 0, j);
      }
    }
  }

  /** The table `dynamicProg` fills satisfies the recurrence. */
  lemma DynProgFills(a: Matrix)
    requires WellFormed(a)
    ensures Fills(a, DynProg(a))
  {
    var r := DynProg(a);
    forall k, j | 0 <= k <= j < |a| && k < |a| - 1
      ensures r[k][j] == Best(r, k) + a[k][j]
    {
      Bellman(a, k);
    }
  }

  /** No route to port j is cheaper than the arrival cost at j of a table satisfying the recurrence. */
  lemma {:induction false} RouteCostAtLeastBest(a: Matrix, r: Matrix, p: seq<int>, j: nat)
    requires IsTable(a) && |a| <= Width(a) && Fills(a, r) && j < |a| && IsRoute(|a|, p, j)
    ensures RouteCost(a, p) >= Best(r, j)
    decreases |p|
  {
    if |p| > 1 {
      var q := p[..|p| - 1];
      var k := p[|p| - 2];
      assert IsRoute(|a|, q, k);
      RouteCostAtLeastBest(a, r, q, k);
      LastArgMinIsLastMin(r, j, j);
      assert r[k][j] == Best(r, k) + a[k][j];
    }
  }

  /** The route `Chain` reads off such a table reaches port c at exactly its arrival cost. */
  lemma {:induction false} ChainIsOptimal(a: Matrix, r: Matrix, c: nat)
    requires IsTable(a) && |a| <= Width(a) && Fills(a, r) && c < |a|
    ensures IsRoute(|a|, Chain(r, c), c)
    ensures RouteCost(a, Chain(r, c)) == Best(r, c)
    decreases c
  {
    if c > 0 {
      var k := LastArgMin(r, c, c);
      ChainIsOptimal(a, r, k);
      var p := Chain(r, c);
      assert p[..|p| - 1] == Chain(r, k) && p[|p| - 2] == k;
      assert r[k][c] == Best(r, k) + a[k][c];
    }
  }

  /** In a table satisfying the recurrence, the arrival cost at every port is the least route cost. */
  lemma BestIsOptimal(a: Matrix, r: Matrix, j: nat)
    requires IsTable(a) && |a| <= Width(a) && Fills(a, r) && j < |a|
    ensures IsMinRouteCost(a, j, Best(r, j))
  {
    forall p | IsRoute(|a|, p, j)
      ensures RouteCost(a, p) >= Best(r, j)
    {
      RouteCostAtLeastBest(a, r, p, j);
    }
    ChainIsOptimal(a, r, j);
  }

  /**
   * The meaning `dynamicProg` promises: for every port j >= 1, the least value of
   * column j above the diagonal is the least cost of a forward-only route from 0 to j.
   */
  lemma ColumnMinIsOptimal(a: Matrix, j: nat)
    requires WellFormed(a) && 1 <= j < |a|
    ensures IsMinRouteCost(a, j, ColumnMin(DynProg(a), j))
  {
    DynProgFills(a);
    BestIsOptimal(a, DynProg(a), j);
  }

  /**
   * The diagonal cell [i][i] of an intermediate port is the least cost of a
   * forward-only route from port 0 to port i.
   */
  lemma DiagonalIsOptimal(a: Matrix, i: nat)
    requires WellFormed(a) && 1 <= i < |a| - 1
    ensures IsMinRouteCost(a, i, DynProg(a)[i][i])
  {
    var r := DynProg(a);
    DynProgFills(a);
    assert r[i][i] == Best(r, i) + a[i][i];
    BestIsOptimal(a, r, i);
  }

  /**
   * The cost `testDynProg` reports, the third field of the first entry of the list,
   * is the least cost of a forward-only route from port 0 to the last port, for any
   * table satisfying the recurrence (the filled one does, by `DynProgFills`).
   */
  lemma ReportedIsMinimal(a: Matrix, r: Matrix, v: int32)
    requires IsTable(a) && |a| <= Width(a) && Fills(a, r) && v == Trace(r, |r| - 1)[0].cost
    ensures IsMinRouteCost(a, |a| - 1, v)
  {
    TraceHead(r);
    BestIsOptimal(a, r, |a| - 1);
  }

  /**
   * Read from the end, the list `findDynProgPath` returns is a cheapest route with
   * the cumulative cost at every port: the cost of entry s (the closing (0, 0, 0)
   * excepted) is the least cost of a route to its destination, and for a real hop
   * (k, d, v), v less the direct cost k -> d is the least cost of a route to k.
   */
  lemma TraceHopIsOptimal(a: Matrix, s: nat)
    requires WellFormed(a) && s < |Trace(DynProg(a), |a| - 1)| - 1
    ensures var e := Trace(DynProg(a), |a| - 1)[s];
      && 0 <= e.origin <= e.dest < |a|
      && IsMinRouteCost(a, e.dest, e.cost)
      && (e.origin < e.dest ==> IsMinRouteCost(a, e.origin, e.cost - a[e.origin][e.dest]))
  {
    var r := DynProg(a);
    DynProgFills(a);
    TraceEntry(r, |a| - 1, s);
    EntryIsOptimal(a, r, Trace(r, |a| - 1)[s]);
  }

  /**
   * On well-formed input the real hops of the list `findDynProgPath` returns, read
   * from the end, are the steps of a cheapest forward-only route to the last port.
   */
  lemma TraceFollowsCheapestRoute(a: Matrix)
    requires WellFormed(a)
    ensures var r := DynProg(a);
      var p := Chain(r, |a| - 1);
      && IsRoute(|a|, p, |a| - 1)
      && Moves(Trace(r, |a| - 1)) == Steps(p)
      && IsMinRouteCost(a, |a| - 1, RouteCost(a, p))
  {
    var r := DynProg(a);
    DynProgFills(a);
    ChainIsOptimal(a, r, |a| - 1);
    BestIsOptimal(a, r, |a| - 1);
    TraceMovesFollowChain(r, |a| - 1);
  }

  /** A stop entry or a real hop of a table satisfying the recurrence records cheapest arrivals. */
  lemma EntryIsOptimal(a: Matrix, r: Matrix, e: Hop)
    requires WellFormed(a) && Fills(a, r) && 0 <= e.origin <= e.dest && IsEntry(r, e)
    ensures IsMinRouteCost(a, e.dest, e.cost)
    ensures e.origin < e.dest ==> IsMinRouteCost(a, e.origin, e.cost - a[e.origin][e.dest])
  {
    var (k, d) := (e.origin, e.dest);
    assert r[k][d] == Best(r, k) + a[k][d];
    BestIsOptimal(a, r, d);
    if k < d {
      BestIsOptimal(a, r, k);
    }
  }

  /** Three ports whose leg 0 -> 1 is "NA": the only real route to port 2 is the direct one, at 8. */
  const NaFirstLeg: Matrix := [[0, MAX_VALUE, 8], [MAX_VALUE, 0, 1], [MAX_VALUE, MAX_VALUE, 0]]

  /**
   * What the fill does with "NA" above the diagonal: on `NaFirstLeg` the scan of
   * column 1 finds nothing below `MAX_VALUE`, so port 1 gets increment 0 as if it
   * were reachable for free, and the list reports port 2 reached from port 1 at
   * cost 1, although every real route to port 2 costs at least 8.
   */
  lemma UnreachableStopCountsAsFree()
    ensures !WellFormed(NaFirstLeg)
    ensures Trace(DynProg(NaFirstLeg), 2)[0] == Hop(1, 2, 1)
    ensures IsMinRouteCost(NaFirstLeg, 2, 8)
  {
    var a := NaFirstLeg;
    var r := DynProg(a);
    assert ArrivalMin(a, 1, 1) == MAX_VALUE;
    assert Increment(a, 1) == 0;
    DynProgCell(a, 0, 2);
    DynProgCell(a, 1, 2);
    assert r[0][2] == 8 && r[1][2] == 1;
    LastArgMinIsLastMin(r, 2, 2);
    assert LastArgMin(r, 2, 2) == 1;
    assert Trace(r, 2) == [Hop(1, 2, 1)] + Trace(r, 1);
    forall p | IsRoute(|a|, p, 2)
      ensures RouteCost(a, p) >= 8
    {
      NaFirstLegRoute(p);
    }
    assert IsRoute(|a|, [0, 2], 2) && RouteCost(a, [0, 2]) == 8;
  }

  /** The two routes to port 2 on `NaFirstLeg` cost 8 and `MAX_VALUE` + 1. */
  lemma NaFirstLegRoute(p: seq<int>)
    requires IsRoute(3, p, 2)
    ensures p == [0, 2] || p == [0, 1, 2]
    ensures RouteCost(NaFirstLeg, p) >= 8
  {
    var a := NaFirstLeg;
    if |p| == 2 {
      assert p == [0, 2];
      assert RouteCost(a, p) == RouteCost(a, p[..1]) + a[0][2];
    } else {
      RouteLength(3, p, 2);
      assert p == [0, 1, 2];
      assert p[..2] == [0, 1] && [0, 1][..1] == [0];
      assert RouteCost(a, p) == RouteCost(a, [0, 1]) + a[1][2];
    }
  }

  /** Four ports: 0 -> 1 costs 5 and 1 -> 2 is "NA", so row 1 adds 5 to a `MAX_VALUE` cell. */
  const NaAfterPaidLeg: Matrix := [
    [0, 5, MAX_VALUE, 9],
    [MAX_VALUE, 0, MAX_VALUE, 1],
    [MAX_VALUE, MAX_VALUE, 0, 1],
    [MAX_VALUE, MAX_VALUE, MAX_VALUE, 0]]

  /**
   * What the fill does with "NA" in a row whose increment is not 0: on
   * `NaAfterPaidLeg` row 1 gets increment 5, the "NA" cell [1][2] wraps around to a
   * large negative value, port 2 takes it as its cheapest arrival, and the list
   * reports a negative cost, although no route costs less than 0.
   */
  lemma NaCellWrapsNegative()
    ensures Increment(NaAfterPaidLeg, 1) == 5
    ensures DynProg(NaAfterPaidLeg)[1][2] == -2147483644
    ensures Increment(NaAfterPaidLeg, 2) == -2147483644
    ensures Trace(DynProg(NaAfterPaidLeg), 3)[0] == Hop(2, 3, -2147483643)
    ensures forall p :: IsRoute(4, p, 3) ==> RouteCost(NaAfterPaidLeg, p) >= 0
  {
    var a := NaAfterPaidLeg;
    var r := DynProg(a);
    assert ArrivalMin(a, 1, 1) == 5;
    assert Cell(a, 1, 2) == -2147483644;
    assert ArrivalMin(a, 2, 2) == -2147483644;
    DynProgCell(a, 0, 3);
    DynProgCell(a, 1, 2);
    DynProgCell(a, 1, 3);
    DynProgCell(a, 2, 3);
    assert r[0][3] == 9 && r[1][3] == 6 && r[2][3] == -2147483643;
    LastArgMinIsLastMin(r, 3, 3);
    assert LastArgMin(r, 3, 3) == 2;
    assert Trace(r, 3) == [Hop(2, 3, -2147483643)] + Trace(r, 2);
    forall p | IsRoute(4, p, 3)
      ensures RouteCost(a, p) >= 0
    {
      RouteCostNonNegative(a, p);
    }
  }

  /** Over a matrix of non-negative direct costs, every sequence of ports costs at least 0. */
  lemma {:induction false} RouteCostNonNegative(a: Matrix, p: seq<int>)
    requires IsTable(a) && |a| <= Width(a)
    requires forall i, j :: 0 <= i < |a| && 0 <= j < Width(a) ==> 0 <= a[i][j]
    requires forall t :: 0 <= t < |p| ==> 0 <= p[t] < |a|
    ensures RouteCost(a, p) >= 0
    decreases |p|
  {
    if |p| > 1 {
      RouteCostNonNegative(a, p[..|p| - 1]);
    }
  }
}
