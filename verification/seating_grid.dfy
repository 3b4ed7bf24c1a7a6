/** Day 11, the waiting area: cell states, the eight compass directions and
    the rectangular grid of seats parsed from text rows. */
module SeatingGrid {
  import opened Common

  datatype Cell = Floor | Empty | Occupied

  datatype Direction =
    North | NorthEast | East | SouthEast | South | SouthWest | West | NorthWest

  /** The unit step of a direction as (dx, dy); y grows downwards. */
  function ToVec(d: Direction): (v: (int, int))
    ensures -1 <= v.0 <= 1 && -1 <= v.1 <= 1
    ensures v != (0, 0)
  {
    match d
    case North => (0, -1)
    case NorthEast => (1, -1)
    case East => (1, 0)
    case SouthEast => (1, 1)
    case South => (0, 1)
    case SouthWest => (-1, 1)
    case West => (-1, 0)
    case NorthWest => (-1, -1)
  }

  /** The order in which the extended rule visits the directions. */
  const AllDirections: seq<Direction> :=
    [North, NorthEast, East, SouthEast, South, SouthWest, West, NorthWest]

  /** The eight directions are pairwise different steps and together they are
      every non-zero step of the 3x3 neighbourhood. */
  lemma DirectionsAreTheNeighbourhood()
    ensures |AllDirections| == 8
    ensures forall d :: d in AllDirections
    ensures forall i, j :: 0 <= i < j < |AllDirections| ==>
              ToVec(AllDirections[i]) != ToVec(AllDirections[j])
    ensures forall dx, dy :: -1 <= dx <= 1 && -1 <= dy <= 1 && (dx, dy) != (0, 0) ==>
              exists d :: d in AllDirections && ToVec(d) == (dx, dy)
  {
    forall d: Direction
      ensures d in AllDirections
    {
      match d
      case North => assert AllDirections[0] == d;
      case NorthEast => assert AllDirections[1] == d;
      case East => assert AllDirections[2] == d;
      case SouthEast => assert AllDirections[3] == d;
      case South => assert AllDirections[4] == d;
      case SouthWest => assert AllDirections[5] == d;
      case West => assert AllDirections[6] == d;
      case NorthWest => assert AllDirections[7] == d;
    }
    forall dx, dy | -1 <= dx <= 1 && -1 <= dy <= 1 && (dx, dy) != (0, 0)
      ensures exists d :: d in AllDirections && ToVec(d) == (dx, dy)
    {
      var d :=
        if dy == -1 then (if dx == -1 then NorthWest else if dx == 0 then North else NorthEast)
        else if dy == 0 then (if dx == -1 then West else East)
        else (if dx == -1 then SouthWest else if dx == 0 then South else SouthEast);
      assert ToVec(d) == (dx, dy);
    }
  }

  /** `seats[y][x]` is the cell in row y, column x. */
  datatype WaitingArea = WaitingArea(seats: seq<seq<Cell>>, height: nat, width: nat)

  /** The shape every operation relies on: at least one row, every row as wide
      as `width`, and `height` the number of rows. */
  predicate Valid(a: WaitingArea)
  {
    && a.height == |a.seats|
    && a.height > 0
    && forall y :: 0 <= y < |a.seats| ==> |a.seats[y]| == a.width
  }

  predicate InBounds(a: WaitingArea, x: int, y: int)
  {
    0 <= x < a.width && 0 <= y < a.height
  }

  function ParseCell(c: char): (cell: Cell)
    ensures cell == Empty <==> c == 'L'
    ensures cell == Occupied <==> c == '#'
  {
    match c
    case 'L' => Empty
    case '#' => Occupied
    case _ => Floor
  }

  function RenderCell(cell: Cell): char
  {
    match cell
    case Floor => '.'
    case Empty => 'L'
    case Occupied => '#'
  }

  function ParseRow(line: string): (row: seq<Cell>)
    ensures |row| == |line|
    ensures forall x :: 0 <= x < |line| ==> row[x] == ParseCell(line[x])
  {
    seq(|line|, x requires 0 <= x < |line| => ParseCell(line[x]))
  }

  /** The grid read from text rows; the first row fixes the width. */
  function FromLines(lines: seq<string>): (a: WaitingArea)
    requires |lines| > 0
    ensures a.height == |lines| && a.width == |lines[0]|
    ensures |a.seats| == |lines|
    ensures forall y :: 0 <= y < |lines| ==> |a.seats[y]| == |lines[y]|
    ensures forall y, x :: 0 <= y < |lines| && 0 <= x < |lines[y]| ==>
              (a.seats[y][x] == Empty <==> lines[y][x] == 'L') &&
              (a.seats[y][x] == Occupied <==> lines[y][x] == '#')
  {
    var seats := seq(|lines|, y requires 0 <= y < |lines| => ParseRow(lines[y]));
    WaitingArea(seats, |seats|, |seats[0]|)
  }

  /** Rows of equal length give a grid of the shape the sweeps need. */
  lemma FromLinesValid(lines: seq<string>)
    requires |lines| > 0
    requires forall y :: 0 <= y < |lines| ==> |lines[y]| == |lines[0]|
    ensures Valid(FromLines(lines))
  {
  }

  function Render(a: WaitingArea): seq<string>
  {
    seq(|a.seats|, y requires 0 <= y < |a.seats| =>
      seq(|a.seats[y]|, x requires 0 <= x < |a.seats[y]| => RenderCell(a.seats[y][x])))
  }

  predicate InAlphabet(lines: seq<string>)
  {
    forall y, x :: 0 <= y < |lines| && 0 <= x < |lines[y]| ==> lines[y][x] in {'L', '#', '.'}
  }

  /** Parsing loses nothing on rows over the alphabet `L # .`, and rendering a
      grid then parsing it back gives the same grid. */
  lemma ParseRenderRoundTrip(lines: seq<string>, a: WaitingArea)
    requires |lines| > 0 && InAlphabet(lines)
    requires Valid(a)
    ensures Render(FromLines(lines)) == lines
    ensures FromLines(Render(a)) == a
  {
    var r := Render(FromLines(lines));
    assert |r| == |lines|;
    forall y | 0 <= y < |lines|
      ensures r[y] == lines[y]
    {
      assert |r[y]| == |lines[y]|;
      forall x | 0 <= x < |lines[y]|
        ensures r[y][x] == lines[y][x]
      {
      }
    }
    var b := FromLines(Render(a));
    assert |b.seats| == |a.seats|;
    forall y | 0 <= y < |a.seats|
      ensures b.seats[y] == a.seats[y]
    {
      assert |b.seats[y]| == |a.seats[y]|;
      forall x | 0 <= x < |a.seats[y]|
        ensures b.seats[y][x] == a.seats[y][x]
      {
        assert Render(a)[y][x] == RenderCell(a.seats[y][x]);
      }
    }
    assert b.seats == a.seats;
  }

  predicate IsOccupied(c: Cell)
  {
    c == Occupied
  }

  /** The occupied cells of one row. */
  function CountOccupied(row: seq<Cell>): (n: nat)
    ensures n <= |row|
  {
    CountIf(row, IsOccupied)
  }

  /** Occupied cells over the rows `seats[..k]`. */
  function OccupiedInRows(seats: seq<seq<Cell>>, k: nat): nat
    requires k <= |seats|
  {
    if k == 0 then 0 else OccupiedInRows(seats, k - 1) + CountOccupied(seats[k - 1])
  }

  /** The coordinates (x, y) of the occupied cells among the first `k` rows. */
  ghost function OccupiedCoords(seats: seq<seq<Cell>>, k: nat): set<(int, int)>
    requires k <= |seats|
  {
    set y, x | 0 <= y < k && 0 <= x < |seats[y]| && seats[y][x] == Occupied :: (x, y)
  }

  /** `occupied_seats`: the number of occupied cells, row by row. */
  method OccupiedSeats(a: WaitingArea) returns (count: nat)
    requires Valid(a)
    ensures count == |OccupiedCoords(a.seats, |a.seats|)|
    ensures count <= a.width * a.height
  {
    count := 0;
    var y := 0;
    while y < |a.seats|
      invariant 0 <= y <= |a.seats|
      invariant count == OccupiedInRows(a.seats, y)
    {
      var row := a.seats[y];
      var inRow := 0;
      var x := 0;
      while x < |row|
        invariant 0 <= x <= |row|
        invariant inRow == CountOccupied(row[..x])
      {
        assert row[..x + 1][..x] == row[..x];
        if row[x] == Occupied {
          inRow := inRow + 1;
        }
        x := x + 1;
      }
      assert row[..x] == row;
      count := count + inRow;
      y := y + 1;
    }
    OccupiedCoordsCount(a.seats, |a.seats|);
    OccupiedInRowsBound(a, |a.seats|);
  }

  lemma {:induction false} OccupiedInRowsBound(a: WaitingArea, k: nat)
    requires Valid(a) && k <= |a.seats|
    ensures OccupiedInRows(a.seats, k) <= a.width * k
    decreases k
  {
    if k > 0 {
      OccupiedInRowsBound(a, k - 1);
      assert a.width * k == a.width * (k - 1) + a.width;
    }
  }

  /** Occupied coordinates in row `y` up to column `n`. */
  ghost function RowCoords(row: seq<Cell>, y: int, n: nat): set<(int, int)>
    requires n <= |row|
  {
    set x | 0 <= x < n && row[x] == Occupied :: (x, y)
  }

  lemma {:induction false} RowCoordsCount(row: seq<Cell>, y: int, n: nat)
    requires n <= |row|
    ensures |RowCoords(row, y, n)| == CountOccupied(row[..n])
    decreases n
  {
    if n > 0 {
      RowCoordsCount(row, y, n - 1);
      assert row[..n][..n - 1] == row[..n - 1];
      RowCoordsSnoc(row, y, n);
    } else {
      assert RowCoords(row, y, n) == {};
    }
  }

  /** Column `n - 1` adds its coordinate when it is occupied. */
  lemma RowCoordsSnoc(row: seq<Cell>, y: int, n: nat)
    requires 0 < n <= |row|
    ensures |RowCoords(row, y, n)| == |RowCoords(row, y, n - 1)| + (if row[n - 1] == Occupied then 1 else 0)
  {
    var prev := RowCoords(row, y, n - 1);
    if row[n - 1] == Occupied {
      assert RowCoords(row, y, n) == prev + {(n - 1, y)};
      assert (n - 1, y) !in prev;
    } else {
      assert RowCoords(row, y, n) == prev;
    }
  }

  /** The row-by-row count is the number of occupied coordinates. */
  lemma {:induction false} OccupiedCoordsCount(seats: seq<seq<Cell>>, k: nat)
    requires k <= |seats|
    ensures |OccupiedCoords(seats, k)| == OccupiedInRows(seats, k)
    decreases k
  {
    if k == 0 {
      assert OccupiedCoords(seats, k) == {};
    } else {
      OccupiedCoordsCount(seats, k - 1);
      var row := seats[k - 1];
      RowCoordsCount(row, k - 1, |row|);
      assert row[..|row|] == row;
      var prev := OccupiedCoords(seats, k - 1);
      var last := RowCoords(row, k - 1, |row|);
      assert OccupiedCoords(seats, k) == prev + last;
      assert prev * last == {} by {
        forall p | p in last
          ensures p !in prev
        {
        }
      }
    }
  }
}
