/** Day 11, the simulation: one double-buffered sweep under either neighbour
    rule, the change count it reports, and the driver that sweeps until a
    sweep changes nothing. */
module SeatingSweep {
  import opened Common
  import opened SeatingGrid
  import opened SeatingAdjacency
  import opened SeatingVisibility

  /** Part 1 counts the immediate neighbours, part 2 the first seat seen in
      each direction. */
  datatype Rule = Adjacent | Extended

  /** The occupied count at which an occupied seat is vacated. */
  function Threshold(rule: Rule): nat
  {
    match rule
    case Adjacent => 4
    case Extended => 5
  }

  /** The occupied cells that matter to (x, y) under `rule`, by plain walks. */
  function Relevant(rule: Rule, a: WaitingArea, x: nat, y: nat): nat
    requires Valid(a) && InBounds(a, x, y)
  {
    match rule
    case Adjacent => CountAdjacent(a, x, y, Occupied)
    case Extended => VisibleCount(a, x, y, Occupied)
  }

  /** The state of (x, y) after one sweep, read from the pre-sweep grid only. */
  function NextCell(rule: Rule, a: WaitingArea, x: nat, y: nat): Cell
    requires Valid(a) && InBounds(a, x, y)
  {
    match a.seats[y][x]
    case Floor => Floor
    case Empty => if Relevant(rule, a, x, y) == 0 then Occupied else Empty
    case Occupied => if Relevant(rule, a, x, y) >= Threshold(rule) then Empty else Occupied
  }

  /** The grid one sweep produces: every cell computed from `a`. */
  function Sweep(rule: Rule, a: WaitingArea): (b: WaitingArea)
    requires Valid(a)
    ensures Valid(b) && b.height == a.height && b.width == a.width
  {
    WaitingArea(
      seq(a.height, y requires 0 <= y < a.height =>
        seq(a.width, x requires 0 <= x < a.width => NextCell(rule, a, x, y))),
      a.height, a.width)
  }

  /** The rule for one cell: floor stays floor, an empty seat is taken
      exactly when no relevant seat is occupied, an occupied seat is vacated
      exactly when at least the threshold of relevant seats are occupied. */
  predicate CellFollows(rule: Rule, a: WaitingArea, b: WaitingArea, x: nat, y: nat)
    requires Valid(a) && InBounds(a, x, y)
    requires Valid(b) && b.height == a.height && b.width == a.width
  {
    match a.seats[y][x]
    case Floor => b.seats[y][x] == Floor
    case Empty =>
      (b.seats[y][x] == Occupied <==> Relevant(rule, a, x, y) == 0) &&
      (b.seats[y][x] == Empty <==> Relevant(rule, a, x, y) != 0)
    case Occupied =>
      (b.seats[y][x] == Empty <==> Relevant(rule, a, x, y) >= Threshold(rule)) &&
      (b.seats[y][x] == Occupied <==> Relevant(rule, a, x, y) < Threshold(rule))
  }

  /** `b` is what one sweep of `a` must produce, every cell by the rule. */
  predicate SweepsTo(rule: Rule, a: WaitingArea, b: WaitingArea)
    requires Valid(a)
  {
    && Valid(b) && b.height == a.height && b.width == a.width
    && forall y: nat, x: nat :: y < a.height && x < a.width ==> CellFollows(rule, a, b, x, y)
  }

  /** The sweep relation has exactly one result, the grid `Sweep` builds. */
  lemma SweepsToUnique(rule: Rule, a: WaitingArea, b: WaitingArea)
    requires Valid(a)
    ensures SweepsTo(rule, a, b) <==> b == Sweep(rule, a)
  {
    var s := Sweep(rule, a);
    if SweepsTo(rule, a, b) {
      forall y | 0 <= y < a.height
        ensures b.seats[y] == s.seats[y]
      {
        forall x | 0 <= x < a.width
          ensures b.seats[y][x] == s.seats[y][x]
        {
          assert CellFollows(rule, a, b, x, y);
        }
      }
      assert b.seats == s.seats;
    }
  }

  /** Cells at which two rows differ, among the first `n`. */
  function RowChanges(r1: seq<Cell>, r2: seq<Cell>, n: nat): nat
    requires n <= |r1| && n <= |r2|
  {
    if n == 0 then 0 else RowChanges(r1, r2, n - 1) + (if r1[n - 1] != r2[n - 1] then 1 else 0)
  }

  /** Cells at which two grids differ, among the first `k` rows. */
  function Changes(a: WaitingArea, b: WaitingArea, k: nat): nat
    requires Valid(a) && Valid(b) && a.width == b.width && k <= a.height && k <= b.height
  {
    if k == 0 then 0 else Changes(a, b, k - 1) + RowChanges(a.seats[k - 1], b.seats[k - 1], a.width)
  }

  lemma {:induction false} RowChangesZero(r1: seq<Cell>, r2: seq<Cell>, n: nat)
    requires n <= |r1| && n <= |r2|
    ensures RowChanges(r1, r2, n) == 0 <==> r1[..n] == r2[..n]
    decreases n
  {
    if n > 0 {
      RowChangesZero(r1, r2, n - 1);
      if r1[..n] == r2[..n] {
        assert r1[..n - 1] == r1[..n][..n - 1] && r2[..n - 1] == r2[..n][..n - 1];
        assert r1[n - 1] == r1[..n][n - 1];
      }
      if RowChanges(r1, r2, n) == 0 {
        assert r1[..n] == r1[..n - 1] + [r1[n - 1]];
        assert r2[..n] == r2[..n - 1] + [r2[n - 1]];
      }
    }
  }

  /** No changed cell means the same grid, and the other way round. */
  lemma {:induction false} ChangesZeroIffSame(a: WaitingArea, b: WaitingArea, k: nat)
    requires Valid(a) && Valid(b) && a.width == b.width && k <= a.height && k <= b.height
    ensures Changes(a, b, k) == 0 <==> a.seats[..k] == b.seats[..k]
    decreases k
  {
    if k > 0 {
      ChangesZeroIffSame(a, b, k - 1);
      var r1 := a.seats[k - 1];
      var r2 := b.seats[k - 1];
      RowChangesZero(r1, r2, a.width);
      assert r1[..a.width] == r1 && r2[..a.width] == r2;
      if a.seats[..k] == b.seats[..k] {
        assert a.seats[..k - 1] == a.seats[..k][..k - 1] && b.seats[..k - 1] == b.seats[..k][..k - 1];
        assert r1 == a.seats[..k][k - 1];
      }
      if Changes(a, b, k) == 0 {
        assert a.seats[..k] == a.seats[..k - 1] + [r1];
        assert b.seats[..k] == b.seats[..k - 1] + [r2];
      }
    }
  }

  /** The relevant count of one cell, using the cache under the extended rule. */
  method RelevantCount(rule: Rule, a: WaitingArea, cache: Cache, x: nat, y: nat)
    returns (count: nat, cache': Cache)
    requires Valid(a) && InBounds(a, x, y) && CacheAgrees(a, cache)
    ensures count == Relevant(rule, a, x, y)
    ensures CacheAgrees(a, cache')
  {
    match rule {
      case Adjacent =>
        count, cache' := CountAdjacent(a, x, y, Occupied), cache;
      case Extended =>
        count, cache' := CountAdjacentExtended(a, cache, x, y, Occupied);
    }
  }

  /** One row of a sweep: the cells of row `y` of a copy are overwritten
      from reads of the untouched original, counting the cells changed. */
  method SweepRow(rule: Rule, a: WaitingArea, cache: Cache, y: nat)
    returns (row: seq<Cell>, rowUpdates: nat, cache': Cache)
    requires Valid(a) && y < a.height && CacheAgrees(a, cache)
    ensures |row| == a.width
    ensures forall x :: 0 <= x < a.width ==> row[x] == NextCell(rule, a, x, y)
    ensures rowUpdates == RowChanges(a.seats[y], row, a.width)
    ensures CacheAgrees(a, cache')
  {
    cache' := cache;
    row := a.seats[y];
    rowUpdates := 0;
    var x := 0;
    while x < a.width
      invariant x <= a.width && RowSweptUpTo(rule, a, y, row, rowUpdates, x)
      invariant CacheAgrees(a, cache')
      decreases a.width - x
    {
      row, rowUpdates, cache' := SweepCell(rule, a, cache', y, row, rowUpdates, x);
      x := x + 1;
    }
  }

  /** The first `x` cells of `row` hold their next state and the rest are
      untouched, and `rowUpdates` counts the changes among the first `x`. */
  ghost predicate RowSweptUpTo(rule: Rule, a: WaitingArea, y: nat, row: seq<Cell>, rowUpdates: nat, x: nat)
    requires Valid(a) && y < a.height && x <= a.width
  {
    && |row| == a.width
    && (forall c :: 0 <= c < x ==> row[c] == NextCell(rule, a, c, y))
    && (forall c :: x <= c < a.width ==> row[c] == a.seats[y][c])
    && rowUpdates == RowChanges(a.seats[y], row, x)
  }

  /** One pass of the cell loop: the cell at column `x` is updated from
      reads of the original grid. */
  method SweepCell(rule: Rule, a: WaitingArea, cache: Cache, y: nat, row: seq<Cell>, rowUpdates: nat, x: nat)
    returns (row': seq<Cell>, rowUpdates': nat, cache': Cache)
    requires Valid(a) && y < a.height && x < a.width && CacheAgrees(a, cache)
    requires RowSweptUpTo(rule, a, y, row, rowUpdates, x)
    ensures RowSweptUpTo(rule, a, y, row', rowUpdates', x + 1)
    ensures CacheAgrees(a, cache')
  {
    var seat := a.seats[y][x];
    cache' := cache;
    row', rowUpdates' := row, rowUpdates;
    if seat == Empty {
      var count;
      count, cache' := RelevantCount(rule, a, cache', x, y);
      if count == 0 {
        row' := row[x := Occupied];
        rowUpdates' := rowUpdates + 1;
      }
    }
    if seat == Occupied {
      var count;
      count, cache' := RelevantCount(rule, a, cache', x, y);
      if count >= Threshold(rule) {
        row' := row[x := Empty];
        rowUpdates' := rowUpdates + 1;
      }
    }
    RowChangesFrame(a.seats[y], row, row', x);
  }

  /** The change count over the first `n` cells ignores the cells after them. */
  lemma {:induction false} RowChangesFrame(r: seq<Cell>, s1: seq<Cell>, s2: seq<Cell>, n: nat)
    requires n <= |r| && n <= |s1| && n <= |s2|
    requires forall c :: 0 <= c < n ==> s1[c] == s2[c]
    ensures RowChanges(r, s1, n) == RowChanges(r, s2, n)
    decreases n
  {
    if n > 0 {
      RowChangesFrame(r, s1, s2, n - 1);
    }
  }

  /** One sweep: a copy of the seats is updated row by row from reads of the
      untouched original, counting the cells it changes. The result is the
      sweep of the grid, and the count is the number of cells that differ,
      so it is zero exactly when the sweep left the grid as it was. */
  method SweepOnce(rule: Rule, a: WaitingArea) returns (b: WaitingArea, updates: nat)
    requires Valid(a)
    ensures SweepsTo(rule, a, b) && b == Sweep(rule, a)
    ensures updates == Changes(a, b, a.height)
    ensures updates == 0 <==> b == a
  {
    var cache: Cache := map[];
    var next := a.seats;
    updates := 0;
    var y := 0;
    while y < a.height
      invariant y <= a.height && SweptUpTo(rule, a, next, updates, y)
      invariant CacheAgrees(a, cache)
      decreases a.height - y
    {
      next, updates, cache := SweepStep(rule, a, cache, next, updates, y);
      y := y + 1;
    }
    b := WaitingArea(next, a.height, a.width);
    SweepDone(rule, a, next, updates);
  }

  /** The first `y` rows of `next` are swept and the rest untouched, and
      `updates` counts the changes among the swept rows. */
  ghost predicate SweptUpTo(rule: Rule, a: WaitingArea, next: seq<seq<Cell>>, updates: nat, y: nat)
    requires Valid(a) && y <= a.height
  {
    && |next| == a.height
    && (forall r :: 0 <= r < y ==> next[r] == Sweep(rule, a).seats[r])
    && (forall r :: y <= r < a.height ==> next[r] == a.seats[r])
    && updates == Changes(a, Sweep(rule, a), y)
  }

  /** One pass of the row loop of a sweep: row `y` is swept in place. */
  method SweepStep(rule: Rule, a: WaitingArea, cache: Cache, next: seq<seq<Cell>>, updates: nat, y: nat)
    returns (next': seq<seq<Cell>>, updates': nat, cache': Cache)
    requires Valid(a) && y < a.height && CacheAgrees(a, cache)
    requires SweptUpTo(rule, a, next, updates, y)
    ensures SweptUpTo(rule, a, next', updates', y + 1)
    ensures CacheAgrees(a, cache')
  {
    var row, rowUpdates;
    row, rowUpdates, cache' := SweepRow(rule, a, cache, y);
    SweptRow(rule, a, y, row);
    next' := next[y := row];
    updates' := updates + rowUpdates;
  }

  /** When every row is swept, the rows are the sweep and the count is its
      number of changes, zero exactly when nothing changed. */
  lemma SweepDone(rule: Rule, a: WaitingArea, next: seq<seq<Cell>>, updates: nat)
    requires Valid(a) && SweptUpTo(rule, a, next, updates, a.height)
    ensures WaitingArea(next, a.height, a.width) == Sweep(rule, a)
    ensures SweepsTo(rule, a, WaitingArea(next, a.height, a.width))
    ensures updates == Changes(a, Sweep(rule, a), a.height)
    ensures updates == 0 <==> WaitingArea(next, a.height, a.width) == a
  {
    var s := Sweep(rule, a);
    assert next == s.seats;
    SweepSettles(rule, a, s);
  }

  /** A row holding the next state of every cell of row `y` is row `y`
      of the swept grid. */
  lemma SweptRow(rule: Rule, a: WaitingArea, y: nat, row: seq<Cell>)
    requires Valid(a) && y < a.height
    requires |row| == a.width && forall x :: 0 <= x < a.width ==> row[x] == NextCell(rule, a, x, y)
    ensures row == Sweep(rule, a).seats[y]
  {
  }

  /** The grid the sweep builds is its result, and it counts no changes
      exactly when it equals the grid swept. */
  lemma SweepSettles(rule: Rule, a: WaitingArea, b: WaitingArea)
    requires Valid(a) && b == Sweep(rule, a)
    ensures SweepsTo(rule, a, b)
    ensures Changes(a, b, a.height) == 0 <==> b == a
  {
    SweepsToUnique(rule, a, b);
    ChangesZeroIffSame(a, b, a.height);
    assert a.seats[..a.height] == a.seats && b.seats[..a.height] == b.seats;
  }

  /** `iterate`: one sweep under the immediate-neighbour rule (threshold 4). */
  method Iterate(a: WaitingArea) returns (b: WaitingArea, updates: nat)
    requires Valid(a)
    ensures SweepsTo(Adjacent, a, b)
    ensures updates == Changes(a, b, a.height)
    ensures updates == 0 <==> b == a
  {
    b, updates := SweepOnce(Adjacent, a);
  }

  /** `iterate_extended`: one sweep under the line-of-sight rule
      (threshold 5), with a fresh cache for the sweep. */
  method IterateExtended(a: WaitingArea) returns (b: WaitingArea, updates: nat)
    requires Valid(a)
    ensures SweepsTo(Extended, a, b)
    ensures updates == Changes(a, b, a.height)
    ensures updates == 0 <==> b == a
  {
    b, updates := SweepOnce(Extended, a);
  }

  /** The grid after `n` sweeps. */
  function SweepN(rule: Rule, a: WaitingArea, n: nat): (b: WaitingArea)
    requires Valid(a)
    ensures Valid(b) && b.height == a.height && b.width == a.width
  {
    if n == 0 then a else Sweep(rule, SweepN(rule, a, n - 1))
  }

  predicate FixedPoint(rule: Rule, a: WaitingArea)
    requires Valid(a)
  {
    Sweep(rule, a) == a
  }

  /** The number of occupied cells of a grid. */
  ghost function OccupiedCount(a: WaitingArea): nat
  {
    |OccupiedCoords(a.seats, |a.seats|)|
  }

  /** `pt1` / `pt2`: sweep until a sweep reports no change, then count the
      occupied seats. Convergence is not established by the program, so at
      most `fuel` sweeps are made and None means the fuel ran out. A result
      comes from the first sweep that changed nothing: the grid it leaves is
      a fixed point reached after `sweeps` sweeps, and every earlier sweep
      changed something. */
  method Settle(rule: Rule, a: WaitingArea, fuel: nat) returns (r: Option<nat>, sweeps: nat)
    requires Valid(a)
    ensures r.Some? ==> 1 <= sweeps <= fuel
    ensures r.Some? ==> FixedPoint(rule, SweepN(rule, a, sweeps))
    ensures r.Some? ==> SweepN(rule, a, sweeps) == SweepN(rule, a, sweeps - 1)
    ensures r.Some? ==> r.value == OccupiedCount(SweepN(rule, a, sweeps))
    ensures r.Some? ==> forall m :: 0 <= m < sweeps - 1 ==> SweepN(rule, a, m + 1) != SweepN(rule, a, m)
    ensures r.None? ==> forall m :: 0 <= m < fuel ==> SweepN(rule, a, m + 1) != SweepN(rule, a, m)
  {
    if fuel == 0 {
      return None, 0;
    }
    var current: WaitingArea, changes: nat := SweepOnce(rule, a);
    sweeps := 1;
    while changes > 0 && sweeps < fuel
      invariant 1 <= sweeps <= fuel
      invariant current == SweepN(rule, a, sweeps)
      invariant changes == 0 <==> current == SweepN(rule, a, sweeps - 1)
      invariant forall m :: 0 <= m < sweeps - 1 ==> SweepN(rule, a, m + 1) != SweepN(rule, a, m)
      decreases fuel - sweeps
    {
      var previous := current;
      current, changes := SweepOnce(rule, previous);
      sweeps := sweeps + 1;
    }
    if changes > 0 {
      return None, sweeps;
    }
    SettledStaysSettled(rule, a, sweeps);
    var count := OccupiedSeats(current);
    r := Some(count);
  }

  /** A sweep that changes nothing leaves a fixed point. */
  lemma SettledStaysSettled(rule: Rule, a: WaitingArea, n: nat)
    requires Valid(a) && n >= 1
    requires SweepN(rule, a, n) == SweepN(rule, a, n - 1)
    ensures FixedPoint(rule, SweepN(rule, a, n))
  {
  }

  /** `pt1`: the occupied seats once the immediate-neighbour rule settles. */
  method Part1(a: WaitingArea, fuel: nat) returns (r: Option<nat>)
    requires Valid(a)
    ensures r.Some? ==> exists n :: (1 <= n <= fuel && FixedPoint(Adjacent, SweepN(Adjacent, a, n)) &&
                                     r.value == OccupiedCount(SweepN(Adjacent, a, n)))
  {
    var sweeps;
    r, sweeps := Settle(Adjacent, a, fuel);
  }

  /** `pt2`: the occupied seats once the line-of-sight rule settles. */
  method Part2(a: WaitingArea, fuel: nat) returns (r: Option<nat>)
    requires Valid(a)
    ensures r.Some? ==> exists n :: (1 <= n <= fuel && FixedPoint(Extended, SweepN(Extended, a, n)) &&
                                     r.value == OccupiedCount(SweepN(Extended, a, n)))
  {
    var sweeps;
    r, sweeps := Settle(Extended, a, fuel);
  }

  /** A grid with no occupied seat: every empty seat is taken in the next
      sweep, under either rule, and floor stays floor. */
  lemma NoOccupiedFillsEverySeat(rule: Rule, a: WaitingArea)
    requires Valid(a)
    requires forall y, x :: 0 <= y < a.height && 0 <= x < a.width ==> a.seats[y][x] != Occupied
    ensures forall y, x :: 0 <= y < a.height && 0 <= x < a.width ==>
              Sweep(rule, a).seats[y][x] == (if a.seats[y][x] == Empty then Occupied else Floor)
  {
    forall y, x | 0 <= y < a.height && 0 <= x < a.width
      ensures Sweep(rule, a).seats[y][x] == (if a.seats[y][x] == Empty then Occupied else Floor)
    {
      if a.seats[y][x] == Empty {
        match rule {
          case Adjacent =>
            CountIfNone(AllDirections, d => NeighbourIs(a, x, y, Occupied, d));
          case Extended =>
            forall i | 0 <= i < |AllDirections|
              ensures !Sees(a, x, y, Occupied, AllDirections[i])
            {
              var d := AllDirections[i];
              match AdjacentCoords(a, x, y, d) {
                case None =>
                case Some(p) => RayNeverOccupied(a, p.0, p.1, d);
              }
            }
            CountIfNone(AllDirections, d => Sees(a, x, y, Occupied, d));
        }
      }
    }
  }

  /** Without occupied seats no ray finds one. */
  lemma {:induction false} RayNeverOccupied(a: WaitingArea, x: nat, y: nat, d: Direction)
    requires Valid(a) && InBounds(a, x, y)
    requires forall y, x :: 0 <= y < a.height && 0 <= x < a.width ==> a.seats[y][x] != Occupied
    ensures Ray(a, x, y, d) != Occupied
    decreases Reach(a, x, y, d)
  {
    if a.seats[y][x] == Floor {
      match AdjacentCoords(a, x, y, d) {
        case None =>
        case Some(p) => RayNeverOccupied(a, p.0, p.1, d);
      }
    }
  }

  lemma {:induction false} CountIfNone<T>(s: seq<T>, p: T -> bool)
    requires forall i :: 0 <= i < |s| ==> !p(s[i])
    ensures CountIf(s, p) == 0
    decreases |s|
  {
    if |s| > 0 {
      CountIfNone(s[..|s| - 1], p);
    }
  }

  /** A grid that is all floor is already settled, with nobody seated. */
  lemma FloorGridIsSettled(rule: Rule, a: WaitingArea)
    requires Valid(a)
    requires forall y, x :: 0 <= y < a.height && 0 <= x < a.width ==> a.seats[y][x] == Floor
    ensures FixedPoint(rule, a)
    ensures OccupiedCount(a) == 0
  {
    var b := Sweep(rule, a);
    forall y | 0 <= y < a.height
      ensures b.seats[y] == a.seats[y]
    {
    }
    assert b.seats == a.seats;
    assert OccupiedCoords(a.seats, |a.seats|) == {};
  }
}
