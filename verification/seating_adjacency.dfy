/** Day 11, immediate neighbours: the one-step coordinate lookup and the count
    of the up-to-eight surrounding cells in a given state. */
module SeatingAdjacency {
  import opened Common
  import opened SeatingGrid

  /** `get_adjacent_coords`: the cell one step from (x, y) in direction `d`,
      or None when that step leaves the grid. */
  function AdjacentCoords(a: WaitingArea, x: nat, y: nat, d: Direction): (r: Option<(nat, nat)>)
    ensures r.Some? <==> InBounds(a, x + ToVec(d).0, y + ToVec(d).1)
    ensures r.Some? ==> r.value == (x + ToVec(d).0, y + ToVec(d).1)
  {
    var (dx, dy) := ToVec(d);
    var nx := x + dx;
    var ny := y + dy;
    if nx < 0 || nx + 1 > a.width || ny < 0 || ny + 1 > a.height then None
    else Some((nx, ny))
  }

  /** The neighbour of (x, y) in direction `d` exists and is in state `status`. */
  predicate NeighbourIs(a: WaitingArea, x: nat, y: nat, status: Cell, d: Direction)
  {
    Valid(a) &&
    match AdjacentCoords(a, x, y, d)
    case None => false
    case Some(p) => a.seats[p.1][p.0] == status
  }

  /** Indicator used by the branch-by-branch count below. */
  function Hit(c: Cell, status: Cell): nat
  {
    if c == status then 1 else 0
  }

  /** `count_adjacent`: the neighbours of (x, y) in state `status`, checked
      row above, same row, row below, clipping at the edges. Equivalently, the
      number of the eight directions whose neighbour exists and has that
      state. */
  function CountAdjacent(a: WaitingArea, x: nat, y: nat, status: Cell): (n: nat)
    requires Valid(a) && InBounds(a, x, y)
    ensures n <= 8
    ensures n == CountIf(AllDirections, d => NeighbourIs(a, x, y, status, d))
  {
    CountAdjacentByDirection(a, x, y, status, d => NeighbourIs(a, x, y, status, d));
    RowAbove(a, x, y, status) + SameRow(a, x, y, status) + RowBelow(a, x, y, status)
  }

  /** The row-above branch of `count_adjacent`. */
  function RowAbove(a: WaitingArea, x: nat, y: nat, status: Cell): nat
    requires Valid(a) && InBounds(a, x, y)
  {
    if y > 0 then
      (if x > 0 then Hit(a.seats[y - 1][x - 1], status) else 0)
      + Hit(a.seats[y - 1][x], status)
      + (if x < a.width - 1 then Hit(a.seats[y - 1][x + 1], status) else 0)
    else 0
  }

  /** The same-row branch of `count_adjacent`. */
  function SameRow(a: WaitingArea, x: nat, y: nat, status: Cell): nat
    requires Valid(a) && InBounds(a, x, y)
  {
    (if x > 0 then Hit(a.seats[y][x - 1], status) else 0)
    + (if x < a.width - 1 then Hit(a.seats[y][x + 1], status) else 0)
  }

  /** The row-below branch of `count_adjacent`. */
  function RowBelow(a: WaitingArea, x: nat, y: nat, status: Cell): nat
    requires Valid(a) && InBounds(a, x, y)
  {
    if y < a.height - 1 then
      (if x > 0 then Hit(a.seats[y + 1][x - 1], status) else 0)
      + Hit(a.seats[y + 1][x], status)
      + (if x < a.width - 1 then Hit(a.seats[y + 1][x + 1], status) else 0)
    else 0
  }

  /** The branch-by-branch count is the number of directions whose
      neighbour exists and has the state. */
  lemma CountAdjacentByDirection(a: WaitingArea, x: nat, y: nat, status: Cell, p: Direction -> bool)
    requires Valid(a) && InBounds(a, x, y)
    requires forall d :: p(d) == NeighbourIs(a, x, y, status, d)
    ensures CountIf(AllDirections, p) ==
              RowAbove(a, x, y, status) + SameRow(a, x, y, status) + RowBelow(a, x, y, status)
  {
    CountIfDirections(p);
    RowAboveIndicators(a, x, y, status, p);
    SameRowIndicators(a, x, y, status, p);
    RowBelowIndicators(a, x, y, status, p);
  }

  lemma RowAboveIndicators(a: WaitingArea, x: nat, y: nat, status: Cell, p: Direction -> bool)
    requires Valid(a) && InBounds(a, x, y)
    requires forall d :: p(d) == NeighbourIs(a, x, y, status, d)
    ensures Ind(p(NorthWest)) + Ind(p(North)) + Ind(p(NorthEast)) == RowAbove(a, x, y, status)
  {
    NeighbourIsAt(a, x, y, status, NorthWest);
    NeighbourIsAt(a, x, y, status, North);
    NeighbourIsAt(a, x, y, status, NorthEast);
  }

  lemma SameRowIndicators(a: WaitingArea, x: nat, y: nat, status: Cell, p: Direction -> bool)
    requires Valid(a) && InBounds(a, x, y)
    requires forall d :: p(d) == NeighbourIs(a, x, y, status, d)
    ensures Ind(p(West)) + Ind(p(East)) == SameRow(a, x, y, status)
  {
    NeighbourIsAt(a, x, y, status, West);
    NeighbourIsAt(a, x, y, status, East);
  }

  lemma RowBelowIndicators(a: WaitingArea, x: nat, y: nat, status: Cell, p: Direction -> bool)
    requires Valid(a) && InBounds(a, x, y)
    requires forall d :: p(d) == NeighbourIs(a, x, y, status, d)
    ensures Ind(p(SouthWest)) + Ind(p(South)) + Ind(p(SouthEast)) == RowBelow(a, x, y, status)
  {
    NeighbourIsAt(a, x, y, status, SouthWest);
    NeighbourIsAt(a, x, y, status, South);
    NeighbourIsAt(a, x, y, status, SouthEast);
  }

  lemma NeighbourIsAt(a: WaitingArea, x: nat, y: nat, status: Cell, d: Direction)
    requires Valid(a)
    ensures NeighbourIs(a, x, y, status, d) <==>
              InBounds(a, x + ToVec(d).0, y + ToVec(d).1) &&
              a.seats[y + ToVec(d).1][x + ToVec(d).0] == status
  {
  }

  function Ind(b: bool): nat
  {
    if b then 1 else 0
  }

  lemma CountIfSnoc<T>(s: seq<T>, p: T -> bool, i: nat)
    requires i < |s|
    ensures CountIf(s[..i + 1], p) == CountIf(s[..i], p) + Ind(p(s[i]))
  {
    assert s[..i + 1][..i] == s[..i];
  }

  lemma CountIfDirections(p: Direction -> bool)
    ensures CountIf(AllDirections, p) ==
              Ind(p(North)) + Ind(p(NorthEast)) + Ind(p(East)) + Ind(p(SouthEast))
              + Ind(p(South)) + Ind(p(SouthWest)) + Ind(p(West)) + Ind(p(NorthWest))
  {
    CountIfEight(AllDirections, p);
  }

  lemma CountIfEight<T>(s: seq<T>, p: T -> bool)
    requires |s| == 8
    ensures CountIf(s, p) == Ind(p(s[0])) + Ind(p(s[1])) + Ind(p(s[2])) + Ind(p(s[3]))
                           + Ind(p(s[4])) + Ind(p(s[5])) + Ind(p(s[6])) + Ind(p(s[7]))
  {
    assert s[..0] == [];
    CountIfSnoc(s, p, 0);
    CountIfSnoc(s, p, 1);
    CountIfSnoc(s, p, 2);
    CountIfSnoc(s, p, 3);
    CountIfSnoc(s, p, 4);
    CountIfSnoc(s, p, 5);
    CountIfSnoc(s, p, 6);
    CountIfSnoc(s, p, 7);
    assert s[..8] == s;
  }

  /** The count never includes the cell itself: it depends only on the
      surrounding cells. */
  lemma CountAdjacentIgnoresCentre(a: WaitingArea, x: nat, y: nat, status: Cell, c: Cell)
    requires Valid(a) && InBounds(a, x, y)
    ensures
      var b := WaitingArea(a.seats[y := a.seats[y][x := c]], a.height, a.width);
      Valid(b) && CountAdjacent(b, x, y, status) == CountAdjacent(a, x, y, status)
  {
    var b := WaitingArea(a.seats[y := a.seats[y][x := c]], a.height, a.width);
    assert Valid(b);
    forall d | d in AllDirections
      ensures NeighbourIs(b, x, y, status, d) == NeighbourIs(a, x, y, status, d)
    {
    }
    CountIfCongruent(AllDirections, d => NeighbourIs(b, x, y, status, d),
                     d => NeighbourIs(a, x, y, status, d));
  }

  lemma {:induction false} CountIfCongruent<T>(s: seq<T>, p: T -> bool, q: T -> bool)
    requires forall i :: 0 <= i < |s| ==> p(s[i]) == q(s[i])
    ensures CountIf(s, p) == CountIf(s, q)
    decreases |s|
  {
    if |s| > 0 {
      CountIfCongruent(s[..|s| - 1], p, q);
    }
  }
}
