/** The grid maze: cell classification, bounds and walkability queries,
    the in-place mutators and the in-memory builder. */
module MazeGrid {

  /** A coordinate (x, y): x is the column, y the row. */
  type Pos = (int, int)

  /** The value start and goal hold before they are assigned. */
  const Unset: Pos := (-1, -1)

  /** A coordinate with a negative component stands for "not set". */
  predicate IsUnset(p: Pos) {
    p.0 < 0 || p.1 < 0
  }

  datatype CellType = Empty | Wall | Start | Goal

  /** The integer value of each enumerator. */
  function Code(c: CellType): int {
    match c
    case Empty => 0
    case Wall => 1
    case Start => 2
    case Goal => 3
  }

  /** The cast of an integer in 0..3 to the enumerator with that value. */
  function FromCode(v: int): (c: CellType)
    requires 0 <= v <= 3
    ensures Code(c) == v
  {
    if v == 0 then Empty else if v == 1 then Wall else if v == 2 then Start else Goal
  }

  /** The outcome of an operation that throws out_of_range on bad coordinates. */
  datatype Result<T> = Ok(value: T) | OutOfRange

  type Grid = seq<seq<CellType>>

  predicate Rectangular(g: Grid, w: int, h: int) {
    |g| == h && forall y :: 0 <= y < |g| ==> |g[y]| == w
  }

  predicate InGrid(g: Grid, p: Pos) {
    0 <= p.1 < |g| && 0 <= p.0 < |g[p.1]|
  }

  /** g with the single cell at p replaced by c. */
  function Write(g: Grid, p: Pos, c: CellType): (r: Grid)
    requires InGrid(g, p)
    ensures |r| == |g| && forall y :: 0 <= y < |g| ==> |r[y]| == |g[y]|
    ensures r[p.1][p.0] == c
    ensures forall y, x :: 0 <= y < |g| && 0 <= x < |g[y]| && (x, y) != p ==> r[y][x] == g[y][x]
  {
    g[p.1 := g[p.1][p.0 := c]]
  }

  /** Every cell classified c lies at p, so there is at most one such cell. */
  predicate OnlyAt(g: Grid, c: CellType, p: Pos) {
    forall y, x :: 0 <= y < |g| && 0 <= x < |g[y]| && g[y][x] == c ==> (x, y) == p
  }

  /** The grid after moving the marker c from prev (if set) to p, as
      setStart and setGoal do: prev is cleared to Empty, then p becomes c. */
  function Relabel(g: Grid, prev: Pos, p: Pos, c: CellType): Grid
    requires IsUnset(prev) || InGrid(g, prev)
    requires InGrid(g, p)
  {
    var cleared := if IsUnset(prev) then g else Write(g, prev, Empty);
    Write(cleared, p, c)
  }

  /** Moving a marker keeps it unique, puts it at p, and leaves every other
      marker kind as unique as it was. The other marker stays at its cell q
      unless q is the old or the new position of the moved one; there it is
      overwritten, and nothing restores it. */
  lemma RelabelKeepsMarkersUnique(g: Grid, prev: Pos, p: Pos, c: CellType, other: CellType, q: Pos)
    requires IsUnset(prev) || InGrid(g, prev)
    requires InGrid(g, p)
    requires c != Empty && OnlyAt(g, c, prev)
    requires other != c && other != Empty && OnlyAt(g, other, q)
    ensures InGrid(Relabel(g, prev, p, c), p) && Relabel(g, prev, p, c)[p.1][p.0] == c
    ensures OnlyAt(Relabel(g, prev, p, c), c, p)
    ensures OnlyAt(Relabel(g, prev, p, c), other, q)
    ensures prev != q && p != q && InGrid(g, q) && g[q.1][q.0] == other ==>
      Relabel(g, prev, p, c)[q.1][q.0] == other
    ensures (q == p || (!IsUnset(prev) && q == prev)) ==> Relabel(g, prev, p, c)[q.1][q.0] != other
  {
    var cleared := if IsUnset(prev) then g else Write(g, prev, Empty);
    assert OnlyAt(cleared, c, prev);
    assert forall y, x :: 0 <= y < |g| && 0 <= x < |g[y]| && cleared[y][x] == c ==> false;
    assert OnlyAt(cleared, other, q);
  }

  /** setCell does not clear an earlier Start cell: writing Start into any
      other cell of a grid that holds a Start cell at q leaves Start at both. */
  lemma SetCellMayDuplicateStart(g: Grid, q: Pos, p: Pos)
    requires InGrid(g, p) && InGrid(g, q) && p != q && g[q.1][q.0] == Start
    ensures Write(g, p, Start)[q.1][q.0] == Start && Write(g, p, Start)[p.1][p.0] == Start
    ensures !OnlyAt(Write(g, p, Start), Start, p) && !OnlyAt(Write(g, p, Start), Start, q)
  {
  }

  /** The column of the last cell among row[0..n) holding v, paired with the
      row index y; dflt when there is none. */
  function LastInRow(row: seq<int>, n: nat, y: int, v: int, dflt: Pos): Pos
    requires n <= |row|
  {
    if n == 0 then dflt
    else if row[n - 1] == v then (n - 1, y)
    else LastInRow(row, n - 1, y, v, dflt)
  }

  /** The last position holding v when rows[0..n) are scanned in row-major
      order over columns 0..w; dflt when there is none. */
  function LastInRows(rows: seq<seq<int>>, w: nat, n: nat, v: int, dflt: Pos): Pos
    requires n <= |rows|
    requires forall y :: 0 <= y < n ==> w <= |rows[y]|
  {
    if n == 0 then dflt
    else LastInRow(rows[n - 1], w, n - 1, v, LastInRows(rows, w, n - 1, v, dflt))
  }

  lemma {:induction false} LastInRowIsLast(row: seq<int>, n: nat, y: int, v: int, dflt: Pos)
    requires n <= |row|
    ensures (forall x :: 0 <= x < n ==> row[x] != v) ==> LastInRow(row, n, y, v, dflt) == dflt
    ensures (exists x :: 0 <= x < n && row[x] == v) ==>
      var p := LastInRow(row, n, y, v, dflt);
      p.1 == y && 0 <= p.0 < n && row[p.0] == v && forall x :: p.0 < x < n ==> row[x] != v
  {
    if n > 0 && row[n - 1] != v {
      LastInRowIsLast(row, n - 1, y, v, dflt);
      if exists x :: 0 <= x < n && row[x] == v {
        var x :| 0 <= x < n && row[x] == v;
        assert x < n - 1;
      }
    }
  }

  /** LastInRows finds the last row-major position holding v, and gives dflt
      exactly when no scanned cell holds v. */
  lemma {:induction false} LastInRowsIsLast(rows: seq<seq<int>>, w: nat, n: nat, v: int, dflt: Pos)
    requires n <= |rows|
    requires forall y :: 0 <= y < n ==> w <= |rows[y]|
    ensures (forall y, x :: 0 <= y < n && 0 <= x < w ==> rows[y][x] != v) ==>
      LastInRows(rows, w, n, v, dflt) == dflt
    ensures (exists y, x :: 0 <= y < n && 0 <= x < w && rows[y][x] == v) ==>
      var p := LastInRows(rows, w, n, v, dflt);
      0 <= p.1 < n && 0 <= p.0 < w && rows[p.1][p.0] == v &&
      forall y, x :: 0 <= y < n && 0 <= x < w && (y > p.1 || (y == p.1 && x > p.0)) ==> rows[y][x] != v
  {
    if n > 0 {
      var before := LastInRows(rows, w, n - 1, v, dflt);
      LastInRowsIsLast(rows, w, n - 1, v, dflt);
      var row := rows[n - 1];
      LastInRowIsLast(row, w, n - 1, v, before);
      if exists x :: 0 <= x < w && row[x] == v {
      } else if exists y, x :: 0 <= y < n && 0 <= x < w && rows[y][x] == v {
        var y, x :| 0 <= y < n && 0 <= x < w && rows[y][x] == v;
        assert y < n - 1;
      }
    }
  }

  /** The value of a maze's state, as the search reads it. */
  datatype Board = Board(width: nat, height: nat, grid: Grid, start: Pos, goal: Pos) {

    /** The grid is height rows of width cells; start and goal are each
        unset or a cell of the grid. */
    ghost predicate Valid() {
      Rectangular(grid, width, height) &&
      (IsUnset(start) || InBounds(start)) &&
      (IsUnset(goal) || InBounds(goal))
    }

    predicate InBounds(p: Pos) {
      0 <= p.0 < width && 0 <= p.1 < height
    }

    /** p is a cell of the board that is not a wall. */
    predicate Open(p: Pos)
      requires Valid()
    {
      InBounds(p) && grid[p.1][p.0] != Wall
    }
  }

  class Maze {
    var width: nat
    var height: nat
    var grid: Grid
    var start: Pos
    var goal: Pos

    function Snapshot(): Board
      reads this
    {
      Board(width, height, grid, start, goal)
    }

    ghost predicate Valid()
      reads this
    {
      Snapshot().Valid()
    }

    /** Maze(): a 0 x 0 maze with start and goal unset. */
    constructor ()
      ensures Valid()
      ensures width == 0 && height == 0 && grid == []
      ensures start == Unset && goal == Unset
    {
      width, height, grid := 0, 0, [];
      start, goal := Unset, Unset;
    }

    /** Maze(width, height): every cell Empty, start and goal unset. */
    constructor Sized(w: nat, h: nat)
      ensures Valid()
      ensures width == w && height == h
      ensures forall y, x :: 0 <= y < h && 0 <= x < w ==> grid[y][x] == Empty
      ensures start == Unset && goal == Unset
    {
      width, height := w, h;
      grid := seq(h, _ => seq(w, _ => Empty));
      start, goal := Unset, Unset;
    }

    predicate IsValid(x: int, y: int)
      reads this
    {
      0 <= x < width && 0 <= y < height
    }

    function GetCell(x: int, y: int): (r: Result<CellType>)
      requires Valid()
      reads this
      ensures r.Ok? <==> IsValid(x, y)
      ensures r.Ok? ==> r.value == grid[y][x]
    {
      if !IsValid(x, y) then OutOfRange else Ok(grid[y][x])
    }

    function IsWalkable(x: int, y: int): (b: bool)
      requires Valid()
      reads this
      ensures b ==> IsValid(x, y)
      ensures IsValid(x, y) ==> (b <==> grid[y][x] in {Empty, Start, Goal})
      ensures b == Snapshot().Open((x, y))
    {
      if !IsValid(x, y) then false else GetCell(x, y).value != Wall
    }

    method SetCell(x: int, y: int, c: CellType) returns (r: Result<()>)
      requires Valid()
      modifies this
      ensures Valid()
      ensures width == old(width) && height == old(height)
      ensures r.OutOfRange? <==> !IsValid(x, y)
      ensures r.OutOfRange? ==> grid == old(grid) && start == old(start) && goal == old(goal)
      ensures r.Ok? ==> grid == Write(old(grid), (x, y), c)
      ensures r.Ok? ==> start == (if c == Start then (x, y) else old(start))
      ensures r.Ok? ==> goal == (if c == Goal then (x, y) else old(goal))
    {
      if !IsValid(x, y) {
        return OutOfRange;
      }
      grid := grid[y := grid[y][x := c]];
      if c == Start {
        start := (x, y);
      } else if c == Goal {
        goal := (x, y);
      }
      r := Ok(());
    }

    method SetStart(x: int, y: int) returns (r: Result<()>)
      requires Valid()
      modifies this
      ensures Valid()
      ensures width == old(width) && height == old(height) && goal == old(goal)
      ensures r.OutOfRange? <==> !IsValid(x, y)
      ensures r.OutOfRange? ==> grid == old(grid) && start == old(start)
      ensures r.Ok? ==> start == (x, y) && grid == Relabel(old(grid), old(start), (x, y), Start)
    {
      if !IsValid(x, y) {
        return OutOfRange;
      }
      if start.0 >= 0 && start.1 >= 0 {
        grid := grid[start.1 := grid[start.1][start.0 := Empty]];
      }
      start := (x, y);
      grid := grid[y := grid[y][x := Start]];
      r := Ok(());
    }

    method SetGoal(x: int, y: int) returns (r: Result<()>)
      requires Valid()
      modifies this
      ensures Valid()
      ensures width == old(width) && height == old(height) && start == old(start)
      ensures r.OutOfRange? <==> !IsValid(x, y)
      ensures r.OutOfRange? ==> grid == old(grid) && goal == old(goal)
      ensures r.Ok? ==> goal == (x, y) && grid == Relabel(old(grid), old(goal), (x, y), Goal)
    {
      if !IsValid(x, y) {
        return OutOfRange;
      }
      if goal.0 >= 0 && goal.1 >= 0 {
        grid := grid[goal.1 := grid[goal.1][goal.0 := Empty]];
      }
      goal := (x, y);
      grid := grid[y := grid[y][x := Goal]];
      r := Ok(());
    }

    /** createFromGrid on a maze that holds no rows yet: copies every cell of
        the first |rows[0]| columns and records the last 2 and the last 3 seen
        in row-major order as start and goal. */
    method CreateFromGrid(rows: seq<seq<int>>)
      requires Valid() && grid == []
      requires forall y :: 0 <= y < |rows| ==> |rows[0]| <= |rows[y]|
      requires forall y, x :: 0 <= y < |rows| && 0 <= x < |rows[0]| ==> 0 <= rows[y][x] <= 3
      modifies this
      ensures Valid()
      ensures height == |rows| && width == (if rows == [] then 0 else |rows[0]|)
      ensures forall y, x :: 0 <= y < height && 0 <= x < width ==> grid[y][x] == FromCode(rows[y][x])
      ensures start == LastInRows(rows, width, height, 2, old(start))
      ensures goal == LastInRows(rows, width, height, 3, old(goal))
    {
      height := |rows|;
      if height == 0 {
        width := 0;
        return;
      }
      width := |rows[0]|;
      var w, h := width, height;
      var cells: Grid := seq(h, _ => seq(w, _ => Empty));
      var s, g := start, goal;
      ghost var s0, g0 := s, g;
      var y := 0;
      while y < h
        invariant 0 <= y <= h
        invariant Rectangular(cells, w, h)
        invariant forall j, k :: 0 <= j < y && 0 <= k < w ==> cells[j][k] == FromCode(rows[j][k])
        invariant s == LastInRows(rows, w, y, 2, s0)
        invariant g == LastInRows(rows, w, y, 3, g0)
        invariant IsUnset(s) || (0 <= s.0 < w && 0 <= s.1 < h)
        invariant IsUnset(g) || (0 <= g.0 < w && 0 <= g.1 < h)
      {
        var x := 0;
        ghost var before := cells;
        while x < w
          invariant 0 <= x <= w
          invariant Rectangular(cells, w, h)
          invariant forall j :: 0 <= j < h && j != y ==> cells[j] == before[j]
          invariant forall k :: 0 <= k < x ==> cells[y][k] == FromCode(rows[y][k])
          invariant s == LastInRow(rows[y], x, y, 2, LastInRows(rows, w, y, 2, s0))
          invariant g == LastInRow(rows[y], x, y, 3, LastInRows(rows, w, y, 3, g0))
          invariant IsUnset(s) || (0 <= s.0 < w && 0 <= s.1 < h)
          invariant IsUnset(g) || (0 <= g.0 < w && 0 <= g.1 < h)
        {
          cells := cells[y := cells[y][x := FromCode(rows[y][x])]];
          if rows[y][x] == 2 {
            s := (x, y);
          } else if rows[y][x] == 3 {
            g := (x, y);
          }
          x := x + 1;
        }
        y := y + 1;
      }
      grid, start, goal := cells, s, g;
    }
  }
}
