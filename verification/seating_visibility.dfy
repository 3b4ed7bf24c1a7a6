/** Day 11, line of sight: the first seat seen along each of the eight rays,
    as a plain walk and as the sweep-scoped memoised lookup. */
module SeatingVisibility {
  import opened Common
  import opened SeatingGrid
  import opened SeatingAdjacency

  /** Steps left along `d` before the ray from (x, y) leaves the grid; it
      drops by at least one with every step the walk takes. */
  function Reach(a: WaitingArea, x: nat, y: nat, d: Direction): nat
    requires InBounds(a, x, y)
  {
    var (dx, dy) := ToVec(d);
    (if dx == 1 then a.width - x else if dx == -1 then x + 1 else 0)
    + (if dy == 1 then a.height - y else if dy == -1 then y + 1 else 0)
  }

  /** The plain walk: the first non-Floor cell on the ray from (x, y),
      (x, y) itself included, or Floor when the ray leaves the grid first. */
  function Ray(a: WaitingArea, x: nat, y: nat, d: Direction): Cell
    requires Valid(a) && InBounds(a, x, y)
    decreases Reach(a, x, y, d)
  {
    if a.seats[y][x] != Floor then a.seats[y][x]
    else
      match AdjacentCoords(a, x, y, d)
      case None => Floor
      case Some(p) => Ray(a, p.0, p.1, d)
  }

  /** The k-th point of the ray from (x, y) in direction `d`. */
  function RayPoint(x: int, y: int, d: Direction, k: nat): (int, int)
  {
    (x + k * ToVec(d).0, y + k * ToVec(d).1)
  }

  /** Cell `p` exists and holds `c`. */
  predicate CellIs(a: WaitingArea, p: (int, int), c: Cell)
  {
    Valid(a) && InBounds(a, p.0, p.1) && a.seats[p.1][p.0] == c
  }

  lemma RayPointStep(x: int, y: int, d: Direction, k: nat)
    ensures RayPoint(x, y, d, k + 1) == RayPoint(x + ToVec(d).0, y + ToVec(d).1, d, k)
  {
    var (dx, dy) := ToVec(d);
    assert (k + 1) * dx == dx + k * dx;
    assert (k + 1) * dy == dy + k * dy;
  }

  /** A ray that has left the grid does not come back. */
  lemma RayStaysOut(a: WaitingArea, x: nat, y: nat, d: Direction, k: nat)
    requires InBounds(a, x, y)
    requires !InBounds(a, x + ToVec(d).0, y + ToVec(d).1)
    requires k >= 1
    ensures !InBounds(a, RayPoint(x, y, d, k).0, RayPoint(x, y, d, k).1)
  {
    var (dx, dy) := ToVec(d);
    if dx == 1 { assert k * dx == k; }
    if dx == -1 { assert k * dx + k == 0; }
    if dx == 0 { assert k * dx == 0; }
    if dy == 1 { assert k * dy == k; }
    if dy == -1 { assert k * dy + k == 0; }
    if dy == 0 { assert k * dy == 0; }
  }

  /** Point k of the ray holds seat `c` and every point before it is
      Floor. */
  ghost predicate FirstSeatAt(a: WaitingArea, x: int, y: int, d: Direction, c: Cell)
  {
    exists k: nat :: CellIs(a, RayPoint(x, y, d, k), c) &&
      forall j: nat :: j < k ==> CellIs(a, RayPoint(x, y, d, j), Floor)
  }

  /** Every point of the ray inside the grid is Floor. */
  ghost predicate AllFloor(a: WaitingArea, x: int, y: int, d: Direction)
  {
    forall k: nat :: InBounds(a, RayPoint(x, y, d, k).0, RayPoint(x, y, d, k).1) ==>
      CellIs(a, RayPoint(x, y, d, k), Floor)
  }

  /** The walk finds exactly the first seat on the ray: a seat result sits at
      some point k of the ray with only Floor before it, and a Floor result
      means every point of the ray inside the grid is Floor. */
  lemma {:induction false} RayIsFirstSeat(a: WaitingArea, x: nat, y: nat, d: Direction)
    requires Valid(a) && InBounds(a, x, y)
    ensures Ray(a, x, y, d) != Floor ==> FirstSeatAt(a, x, y, d, Ray(a, x, y, d))
    ensures Ray(a, x, y, d) == Floor ==> AllFloor(a, x, y, d)
    decreases Reach(a, x, y, d)
  {
    if a.seats[y][x] != Floor {
      assert RayPoint(x, y, d, 0) == (x, y);
      assert CellIs(a, RayPoint(x, y, d, 0), Ray(a, x, y, d));
    } else {
      match AdjacentCoords(a, x, y, d)
      case None =>
        RayLeaves(a, x, y, d);
      case Some(p) =>
        RayIsFirstSeat(a, p.0, p.1, d);
        if Ray(a, p.0, p.1, d) != Floor {
          PrependSeat(a, x, y, d, Ray(a, p.0, p.1, d));
        } else {
          PrependFloor(a, x, y, d);
        }
    }
  }

  /** A Floor cell whose next cell along `d` lies outside the grid: the
      whole ray inside the grid is that one Floor cell. */
  lemma RayLeaves(a: WaitingArea, x: nat, y: nat, d: Direction)
    requires Valid(a) && InBounds(a, x, y) && a.seats[y][x] == Floor
    requires !InBounds(a, x + ToVec(d).0, y + ToVec(d).1)
    ensures AllFloor(a, x, y, d)
  {
    forall k: nat | InBounds(a, RayPoint(x, y, d, k).0, RayPoint(x, y, d, k).1)
      ensures CellIs(a, RayPoint(x, y, d, k), Floor)
    {
      if k >= 1 {
        RayStaysOut(a, x, y, d, k);
      } else {
        assert RayPoint(x, y, d, k) == (x, y);
      }
    }
  }

  /** A Floor cell in front of a ray whose first seat is `c`: the longer
      ray's first seat is `c` too, one point further on. */
  lemma PrependSeat(a: WaitingArea, x: nat, y: nat, d: Direction, c: Cell)
    requires Valid(a) && InBounds(a, x, y) && a.seats[y][x] == Floor
    requires FirstSeatAt(a, x + ToVec(d).0, y + ToVec(d).1, d, c)
    ensures FirstSeatAt(a, x, y, d, c)
  {
    var (px, py) := (x + ToVec(d).0, y + ToVec(d).1);
    var k: nat :| CellIs(a, RayPoint(px, py, d, k), c) &&
      forall j: nat :: j < k ==> CellIs(a, RayPoint(px, py, d, j), Floor);
    RayPointStep(x, y, d, k);
    FloorPrefix(a, x, y, d, px, py, k);
  }

  /** A Floor cell in front of `k` Floor points of a ray: the longer ray
      starts with `k + 1` Floor points. */
  lemma FloorPrefix(a: WaitingArea, x: nat, y: nat, d: Direction, px: int, py: int, k: nat)
    requires Valid(a) && InBounds(a, x, y) && a.seats[y][x] == Floor
    requires px == x + ToVec(d).0 && py == y + ToVec(d).1
    requires forall j: nat :: j < k ==> CellIs(a, RayPoint(px, py, d, j), Floor)
    ensures forall j: nat :: j < k + 1 ==> CellIs(a, RayPoint(x, y, d, j), Floor)
  {
    forall j: nat | j < k + 1
      ensures CellIs(a, RayPoint(x, y, d, j), Floor)
    {
      if j > 0 {
        RayPointStep(x, y, d, j - 1);
      } else {
        assert RayPoint(x, y, d, j) == (x, y);
      }
    }
  }

  /** A Floor cell in front of an all-Floor ray. */
  lemma PrependFloor(a: WaitingArea, x: nat, y: nat, d: Direction)
    requires Valid(a) && InBounds(a, x, y) && a.seats[y][x] == Floor
    requires AllFloor(a, x + ToVec(d).0, y + ToVec(d).1, d)
    ensures AllFloor(a, x, y, d)
  {
    var (px, py) := (x + ToVec(d).0, y + ToVec(d).1);
    forall k: nat | InBounds(a, RayPoint(x, y, d, k).0, RayPoint(x, y, d, k).1)
      ensures CellIs(a, RayPoint(x, y, d, k), Floor)
    {
      if k > 0 {
        RayPointStep(x, y, d, k - 1);
        assert RayPoint(x, y, d, k) == RayPoint(px, py, d, k - 1);
      } else {
        assert RayPoint(x, y, d, k) == (x, y);
      }
    }
  }

  /** The sweep-scoped memo table, keyed by (x, y, direction). */
  type Cache = map<(nat, nat, Direction), Cell>

  /** Every entry of the cache is the plain walk's answer for its key. */
  predicate CacheAgrees(a: WaitingArea, cache: Cache)
  {
    Valid(a) &&
    forall key :: key in cache ==>
      InBounds(a, key.0, key.1) && cache[key] == Ray(a, key.0, key.1, key.2)
  }

  /** `get_status_extended`: the first seat on the ray from (x, y), looked up
      in the cache or computed by stepping to the next cell and recording the
      answer for every cell passed. Whatever consistent cache it starts from,
      it returns the plain walk's answer, keeps the cache consistent, and
      leaves an entry for (x, y, d). */
  function StatusExtended(a: WaitingArea, cache: Cache, x: nat, y: nat, d: Direction): (res: (Cell, Cache))
    requires Valid(a) && InBounds(a, x, y) && CacheAgrees(a, cache)
    ensures res.0 == Ray(a, x, y, d)
    ensures CacheAgrees(a, res.1)
    ensures cache.Keys <= res.1.Keys && (x, y, d) in res.1
    decreases Reach(a, x, y, d)
  {
    var key := (x, y, d);
    if key !in cache then
      var (result, cache1) :=
        if a.seats[y][x] == Empty then (Empty, cache)
        else if a.seats[y][x] == Occupied then (Occupied, cache)
        else
          match AdjacentCoords(a, x, y, d)
          case Some(p) => StatusExtended(a, cache, p.0, p.1, d)
          case None => (Floor, cache);
      var cache2 := cache1[key := result];
      (cache2[key], cache2)
    else
      (cache[key], cache)
  }

  /** The neighbour one step along `d` exists and the first seat seen from it
      along `d` is in state `status`. */
  predicate Sees(a: WaitingArea, x: nat, y: nat, status: Cell, d: Direction)
  {
    Valid(a) &&
    match AdjacentCoords(a, x, y, d)
    case None => false
    case Some(p) => Ray(a, p.0, p.1, d) == status
  }

  /** The number of directions in which the first visible seat is in state
      `status`, by plain walks. */
  function VisibleCount(a: WaitingArea, x: nat, y: nat, status: Cell): nat
  {
    CountIf(AllDirections, d => Sees(a, x, y, status, d))
  }

  /** `count_adjacent_extended`: the directions, in compass order, whose
      first visible seat (starting one step from (x, y)) is in state `status`,
      filling the cache as it goes. */
  method CountAdjacentExtended(a: WaitingArea, cache: Cache, x: nat, y: nat, status: Cell)
    returns (count: nat, cache': Cache)
    requires Valid(a) && InBounds(a, x, y) && CacheAgrees(a, cache)
    ensures count == VisibleCount(a, x, y, status)
    ensures count <= 8
    ensures CacheAgrees(a, cache') && cache.Keys <= cache'.Keys
  {
    count := 0;
    cache' := cache;
    var i := 0;
    while i < |AllDirections|
      invariant 0 <= i <= |AllDirections|
      invariant count == CountIf(AllDirections[..i], d => Sees(a, x, y, status, d))
      invariant CacheAgrees(a, cache') && cache.Keys <= cache'.Keys
    {
      var hit;
      hit, cache' := LookDirection(a, cache', x, y, status, AllDirections[i]);
      CountIfSnoc(AllDirections, d => Sees(a, x, y, status, d), i);
      if hit {
        count := count + 1;
      }
      i := i + 1;
    }
    assert AllDirections[..i] == AllDirections;
  }

  /** One direction of `count_adjacent_extended`: the neighbour one step
      along `d`, if any, and the first seat seen from it along `d`. */
  method LookDirection(a: WaitingArea, cache: Cache, x: nat, y: nat, status: Cell, d: Direction)
    returns (hit: bool, cache': Cache)
    requires Valid(a) && InBounds(a, x, y) && CacheAgrees(a, cache)
    ensures hit == Sees(a, x, y, status, d)
    ensures CacheAgrees(a, cache') && cache.Keys <= cache'.Keys
  {
    cache' := cache;
    match AdjacentCoords(a, x, y, d) {
      case Some(p) =>
        var seen;
        seen, cache' := LookUp(a, cache, p.0, p.1, d);
        hit := seen == status;
      case None =>
        hit := false;
    }
  }

  /** Method form of the memoised lookup, so the loop above can thread the
      cache through its calls. */
  method LookUp(a: WaitingArea, cache: Cache, x: nat, y: nat, d: Direction)
    returns (status: Cell, cache': Cache)
    requires Valid(a) && InBounds(a, x, y) && CacheAgrees(a, cache)
    ensures status == Ray(a, x, y, d)
    ensures CacheAgrees(a, cache') && cache.Keys <= cache'.Keys
  {
    var res := StatusExtended(a, cache, x, y, d);
    status, cache' := res.0, res.1;
  }

  /** An occupied immediate neighbour is also the first seat seen in its
      direction, so the extended count is never below the immediate one. */
  lemma AdjacentCountAtMostVisible(a: WaitingArea, x: nat, y: nat)
    requires Valid(a) && InBounds(a, x, y)
    ensures CountAdjacent(a, x, y, Occupied) <= VisibleCount(a, x, y, Occupied)
  {
    forall d | d in AllDirections
      ensures NeighbourIs(a, x, y, Occupied, d) ==> Sees(a, x, y, Occupied, d)
    {
    }
    CountIfMonotonic(AllDirections, d => NeighbourIs(a, x, y, Occupied, d),
                     d => Sees(a, x, y, Occupied, d));
  }

  lemma {:induction false} CountIfMonotonic<T>(s: seq<T>, p: T -> bool, q: T -> bool)
    requires forall i :: 0 <= i < |s| ==> p(s[i]) ==> q(s[i])
    ensures CountIf(s, p) <= CountIf(s, q)
    decreases |s|
  {
    if |s| > 0 {
      CountIfMonotonic(s[..|s| - 1], p, q);
    }
  }
}
