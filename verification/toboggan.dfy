/** Day 3, the toboggan map: a grid of open squares and trees repeating to
    the right, and the trees met on a straight slope down it. */
module Toboggan {
  import opened Common

  datatype Square = Open | Tree

  /** `Map::from_strings`: '#' is a tree, every other character open. */
  function ParseSquare(c: char): (q: Square)
    ensures q == Tree <==> c == '#'
  {
    if c == '#' then Tree else Open
  }

  function FromStrings(lines: seq<string>): (grid: seq<seq<Square>>)
    ensures |grid| == |lines|
    ensures forall y :: 0 <= y < |lines| ==> |grid[y]| == |lines[y]|
    ensures forall y, x :: 0 <= y < |lines| && 0 <= x < |lines[y]| ==>
              (grid[y][x] == Tree <==> lines[y][x] == '#')
  {
    seq(|lines|, y requires 0 <= y < |lines| =>
      seq(|lines[y]|, x requires 0 <= x < |lines[y]| => ParseSquare(lines[y][x])))
  }

  /** The row of step `k` of a slope going `down` rows per step. */
  function Row(k: nat, down: nat): nat
  {
    k * down
  }

  /** The column of step `k` of a slope going `right` columns per step,
      wrapped around the width. */
  function Column(k: nat, right: nat, width: nat): nat
    requires width > 0
  {
    (k * right) % width
  }

  /** What one slope of `main` reads: row 0 for the width, a non-zero
      width once the slope takes a step (`x % width`), and the square each
      step lands on. Rows may otherwise have any length. */
  ghost predicate Walkable(grid: seq<seq<Square>>, right: nat, down: nat)
  {
    |grid| > 0 &&
    forall k :: 1 <= k && Row(k, down) < |grid| ==>
      |grid[0]| > 0 && Column(k, right, |grid[0]|) < |grid[Row(k, down)]|
  }

  /** The rows `down`, `2 * down`, ... strictly below the map's height. */
  function Steps(height: nat, down: nat): nat
    requires down > 0
  {
    if height == 0 then 0 else (height - 1) / down
  }

  /** The squares the slope lands on: at step k (from 1) the row is
      `k * down` and the column `k * right` wrapped around the width. */
  function Path(grid: seq<seq<Square>>, right: nat, down: nat): (p: seq<Square>)
    requires down > 0 && Walkable(grid, right, down)
    ensures |p| == Steps(|grid|, down)
  {
    seq(Steps(|grid|, down), i requires 0 <= i < Steps(|grid|, down) =>
      StepInRange(|grid|, down, i + 1);
      grid[Row(i + 1, down)][Column(i + 1, right, |grid[0]|)])
  }

  lemma StepInRange(height: nat, down: nat, k: nat)
    requires down > 0 && 1 <= k <= Steps(height, down)
    ensures k * down < height
  {
    MulLeDiv(k, down, height - 1);
  }

  /** For positive `b`, `a * b <= c` exactly when `a <= c / b`. */
  lemma MulLeDiv(a: nat, b: nat, c: nat)
    requires b > 0
    ensures a * b <= c <==> a <= c / b
  {
    var q, r := c / b, c % b;
    assert c == q * b + r && 0 <= r < b;
    if a <= q {
      assert a * b <= q * b;
    } else {
      assert a >= q + 1;
      assert a * b >= (q + 1) * b;
    }
  }

  /** The trees met on the slope. */
  function TreesOn(grid: seq<seq<Square>>, right: nat, down: nat): nat
    requires down > 0 && Walkable(grid, right, down)
  {
    multiset(Path(grid, right, down))[Tree]
  }

  lemma ModStep(a: nat, b: nat, w: nat)
    requires w > 0
    ensures (a % w + b) % w == (a + b) % w
  {
    var m := a % w + b;
    assert a == (a / w) * w + a % w;
    assert m == (m / w) * w + m % w;
    assert a + b == (a / w + m / w) * w + m % w;
    DivModUnique(a + b, w, a / w + m / w, m % w);
  }

  /** Quotient and remainder are the only such pair. */
  lemma DivModUnique(n: int, w: int, q: int, r: int)
    requires w > 0 && 0 <= r < w && n == q * w + r
    ensures n / w == q && n % w == r
  {
    var q', r' := n / w, n % w;
    assert n == q' * w + r' && 0 <= r' < w;
    var d := q - q';
    assert d * w == q * w - q' * w;
    assert d * w == r' - r;
    MulAwayFromZero(d, w);
  }

  lemma MulAwayFromZero(d: int, w: int)
    requires w > 0
    ensures d >= 1 ==> d * w >= w
    ensures d <= -1 ==> d * w <= -w
  {
    assert d * w == w + (d - 1) * w;
    assert d * w == -w + (d + 1) * w;
  }

  /** The square at step `k + 1` of the slope, reached from the column of
      step `k` by adding the right step modulo the width. */
  lemma PathStep(grid: seq<seq<Square>>, right: nat, down: nat, k: nat)
    requires down > 0 && Walkable(grid, right, down)
    requires Row(k + 1, down) < |grid|
    ensures k < Steps(|grid|, down)
    ensures ((k * right) % |grid[0]| + right) % |grid[0]| == Column(k + 1, right, |grid[0]|)
    ensures Path(grid, right, down)[k] == grid[Row(k + 1, down)][Column(k + 1, right, |grid[0]|)]
  {
    MulLeDiv(k + 1, down, |grid| - 1);
    ModStep(k * right, right, |grid[0]|);
    assert k * right + right == (k + 1) * right;
  }

  /** One step of the loop moves one slope step down and right. */
  lemma StepAdvance(k: nat, right: nat, down: nat, w: nat)
    requires w > 0
    ensures (k + 1) * down + down == (k + 2) * down
    ensures ((k * right) % w + right) % w == ((k + 1) * right) % w
  {
    ModStep(k * right, right, w);
    assert k * right + right == (k + 1) * right;
  }

  /** The per-slope loop of `main`: step right and down, wrapping the column,
      and count the trees landed on. */
  method CountTrees(grid: seq<seq<Square>>, right: nat, down: nat) returns (count: nat)
    requires down > 0 && Walkable(grid, right, down)
    ensures count == TreesOn(grid, right, down)
    ensures count <= Steps(|grid|, down)
  {
    var height, width := |grid|, |grid[0]|;
    var path := Path(grid, right, down);
    var x := 0;
    var y := down;
    count := 0;
    ghost var k := 0;
    while y < height
      invariant 0 <= k <= |path| && y == Row(k + 1, down)
      invariant x == if width == 0 then 0 else Column(k, right, width)
      invariant count == Occurrences(path[..k], Tree)
      decreases height - y
    {
      TreeStep(grid, right, down, k, x, count);
      x := (x + right) % width;
      if grid[y][x] == Tree {
        count := count + 1;
      }
      y := y + down;
      k := k + 1;
    }
    assert k == |path| by {
      MulLeDiv(k + 1, down, height - 1);
    }
    assert path[..k] == path;
  }

  /** One step of the loop of `main`: from the column of step `k`, moving
      right and down lands on the next square of the slope, and the tree
      count grows by whether it is a tree. */
  lemma TreeStep(grid: seq<seq<Square>>, right: nat, down: nat, k: nat, x: nat, count: nat)
    requires down > 0 && Walkable(grid, right, down)
    requires Row(k + 1, down) < |grid|
    requires x == Column(k, right, |grid[0]|)
    requires k <= |Path(grid, right, down)|
    requires count == Occurrences(Path(grid, right, down)[..k], Tree)
    ensures k < |Path(grid, right, down)| && |grid[0]| > 0
    ensures (x + right) % |grid[0]| == Column(k + 1, right, |grid[0]|)
    ensures Row(k + 1, down) + down == Row(k + 2, down)
    ensures grid[Row(k + 1, down)][(x + right) % |grid[0]|] == Path(grid, right, down)[k]
    ensures count + (if Path(grid, right, down)[k] == Tree then 1 else 0) ==
              Occurrences(Path(grid, right, down)[..k + 1], Tree)
  {
    var path := Path(grid, right, down);
    PathStep(grid, right, down, k);
    StepAdvance(k, right, down, |grid[0]|);
    assert path[..k + 1][..k] == path[..k];
  }

  /** The slopes `main` tries, as (right, down). */
  const Slopes: seq<(nat, nat)> := [(1, 1), (3, 1), (5, 1), (7, 1), (1, 2)]

  function Product(s: seq<nat>): nat
  {
    if |s| == 0 then 1 else Product(s[..|s| - 1]) * s[|s| - 1]
  }

  /** `main`: the product of the trees met on every slope. */
  method TreeProduct(grid: seq<seq<Square>>) returns (result: nat)
    requires forall i :: 0 <= i < |Slopes| ==> Walkable(grid, Slopes[i].0, Slopes[i].1)
    ensures result == Product(seq(|Slopes|, i requires 0 <= i < |Slopes| =>
                                  TreesOn(grid, Slopes[i].0, Slopes[i].1)))
  {
    ghost var counts := seq(|Slopes|, i requires 0 <= i < |Slopes| =>
                            TreesOn(grid, Slopes[i].0, Slopes[i].1));
    result := 1;
    var i := 0;
    while i < |Slopes|
      invariant 0 <= i <= |Slopes|
      invariant result == Product(counts[..i])
    {
      var count := CountTrees(grid, Slopes[i].0, Slopes[i].1);
      assert counts[..i + 1][..i] == counts[..i];
      var next := result * count;
      assert next == Product(counts[..i + 1]);
      result := next;
      i := i + 1;
    }
    assert counts[..i] == counts;
  }

  /** A product of tree counts is zero exactly when some slope meets no
      tree. */
  lemma {:induction false} ProductZero(s: seq<nat>)
    ensures Product(s) == 0 <==> exists i :: 0 <= i < |s| && s[i] == 0
    decreases |s|
  {
    if |s| > 0 {
      var init := s[..|s| - 1];
      ProductZero(init);
      if exists i :: 0 <= i < |init| && init[i] == 0 {
        var i :| 0 <= i < |init| && init[i] == 0;
        assert s[i] == 0;
      }
      if exists i :: 0 <= i < |s| && s[i] == 0 {
        var i :| 0 <= i < |s| && s[i] == 0;
        if i < |s| - 1 {
          assert init[i] == 0;
        }
      }
    }
  }
}
