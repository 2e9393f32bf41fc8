/** Iterative deepening search over a maze: depth-limited DFS passes with
    bounds 0, 1, ..., width*height, each with a fresh visited matrix. The
    functions Visit, VisitAll, Deepen and SearchSpec define what each step
    computes; the class IDS carries out those steps in place and is proved
    equal to them. */
module IterativeDeepening {
  import opened MazeGrid

  datatype SearchResult = SearchResult(
    found: bool,
    path: seq<Pos>,
    nodesExpanded: nat,
    maxDepth: nat,
    iterations: nat)

  /** The state one pass threads through its recursion: the path from the
      pass's start to the current cell, the cells marked visited, and the
      running expansion count. */
  datatype Trail = Trail(path: seq<Pos>, marks: set<Pos>, expanded: nat)

  datatype Probe = Probe(found: bool, trail: Trail)

  /** The four cells next to p, in the order up, down, left, right. */
  function Candidates(p: Pos): seq<Pos> {
    [(p.0, p.1 - 1), (p.0, p.1 + 1), (p.0 - 1, p.1), (p.0 + 1, p.1)]
  }

  /** The cells of cs that are in bounds and walkable, in their order in cs. */
  ghost function Passable(m: Board, cs: seq<Pos>): seq<Pos>
    requires m.Valid()
  {
    if cs == [] then []
    else
      var q := cs[|cs| - 1];
      Passable(m, cs[..|cs| - 1]) + if m.InBounds(q) && m.Open(q) then [q] else []
  }

  ghost function Neighbors(m: Board, p: Pos): seq<Pos>
    requires m.Valid()
  {
    Passable(m, Candidates(p))
  }

  /** One call of the depth-limited DFS at cell p and the given depth. A call
      that fails leaves the path as it found it. */
  ghost function Visit(m: Board, p: Pos, depth: nat, limit: nat, t: Trail): (r: Probe)
    requires m.Valid()
    ensures !r.found ==> r.trail.path == t.path
    decreases limit + 1 - depth, 1, 0
  {
    if depth > limit then Probe(false, t)
    else if !m.Open(p) then Probe(false, t)
    else if p in t.marks then Probe(false, t)
    else
      var t1 := Trail(t.path + [p], t.marks + {p}, t.expanded + 1);
      if p == m.goal then Probe(true, t1)
      else
        var r := VisitAll(m, Neighbors(m, p), depth, limit, t1);
        if r.found then r
        else Probe(false, r.trail.(path := r.trail.path[..|r.trail.path| - 1]))
  }

  /** The loop over the neighbours ns of a cell at the given depth: each is
      visited at depth + 1 until one reaches the goal. */
  ghost function VisitAll(m: Board, ns: seq<Pos>, depth: nat, limit: nat, t: Trail): (r: Probe)
    requires m.Valid()
    requires depth <= limit
    ensures !r.found ==> r.trail.path == t.path
    decreases limit + 1 - depth, 0, |ns|
  {
    if ns == [] then Probe(false, t)
    else
      var r := Visit(m, ns[0], depth + 1, limit, t);
      if r.found then r else VisitAll(m, ns[1..], depth, limit, r.trail)
  }

  /** The three early exits of a call: bound exceeded, cell not walkable,
      cell already visited in this pass. Nothing changes. */
  lemma VisitRejects(m: Board, p: Pos, depth: nat, limit: nat, t: Trail)
    requires m.Valid() && (depth > limit || !m.Open(p) || p in t.marks)
    ensures Visit(m, p, depth, limit, t) == Probe(false, t)
  {
  }

  /** A call that reaches the goal pushes it, marks it and counts it. */
  lemma VisitReachesGoal(m: Board, p: Pos, depth: nat, limit: nat, t: Trail)
    requires m.Valid() && depth <= limit && m.Open(p) && p !in t.marks && p == m.goal
    ensures Visit(m, p, depth, limit, t) == Probe(true, Trail(t.path + [p], t.marks + {p}, t.expanded + 1))
  {
  }

  /** A call at a cell that passes the three checks and is not the goal:
      the neighbour loop's outcome, with the cell popped on failure. */
  lemma VisitStep(m: Board, p: Pos, depth: nat, limit: nat, t: Trail)
    requires m.Valid() && depth <= limit && m.Open(p) && p !in t.marks && p != m.goal
    ensures var r := VisitAll(m, Neighbors(m, p), depth, limit, Trail(t.path + [p], t.marks + {p}, t.expanded + 1));
      Visit(m, p, depth, limit, t) ==
        if r.found then r else Probe(false, r.trail.(path := r.trail.path[..|r.trail.path| - 1]))
  {
  }

  /** One turn of the neighbour loop: visit the first neighbour, then stop or go on. */
  lemma VisitAllStep(m: Board, ns: seq<Pos>, depth: nat, limit: nat, t: Trail)
    requires m.Valid() && depth <= limit && ns != []
    ensures var r := Visit(m, ns[0], depth + 1, limit, t);
      VisitAll(m, ns, depth, limit, t) == if r.found then r else VisitAll(m, ns[1..], depth, limit, r.trail)
  {
  }

  /** The outer loop from bound k on: iters passes have run so far and
      total cells have been expanded by them. */
  ghost function Deepen(m: Board, s: Pos, bound: nat, k: nat, total: nat, iters: nat): SearchResult
    requires m.Valid()
    decreases bound + 1 - k
  {
    if k > bound then SearchResult(false, [], total, 0, iters)
    else
      var r := Visit(m, s, 0, k, Trail([], {}, 0));
      if r.found then SearchResult(true, r.trail.path, total + r.trail.expanded, k, iters + 1)
      else Deepen(m, s, bound, k + 1, total + r.trail.expanded, iters + 1)
  }

  /** One step of the outer loop, given the outcome of the pass with bound k:
      stop with that pass's path, or go on with bound k + 1. */
  lemma DeepenStep(m: Board, s: Pos, bound: nat, k: nat, total: nat, pass: Probe)
    requires m.Valid() && k <= bound
    requires pass == Visit(m, s, 0, k, Trail([], {}, 0))
    ensures pass.found ==>
      Deepen(m, s, bound, k, total, k) == SearchResult(true, pass.trail.path, total + pass.trail.expanded, k, k + 1)
    ensures !pass.found ==>
      Deepen(m, s, bound, k, total, k) == Deepen(m, s, bound, k + 1, total + pass.trail.expanded, k + 1)
  {
  }

  /** The outer loop once every bound has been tried: no path, and the
      counts gathered so far. */
  lemma DeepenDone(m: Board, s: Pos, bound: nat, k: nat, total: nat)
    requires m.Valid() && k == bound + 1
    ensures Deepen(m, s, bound, k, total, k) == SearchResult(false, [], total, 0, k)
  {
  }

  /** What search() returns for the maze in its current state. */
  ghost function SearchSpec(m: Board): SearchResult
    requires m.Valid()
  {
    if IsUnset(m.start) || IsUnset(m.goal) then SearchResult(false, [], 0, 0, 0)
    else if m.start == m.goal then SearchResult(true, [m.start], 1, 0, 1)
    else Deepen(m, m.start, m.width * m.height, 0, 0, 0)
  }

  /** The entries of the visited matrix v that are true are exactly the
      cells of v that are in the mark set s. */
  ghost predicate MarksAgree(v: array2<bool>, s: set<Pos>)
    reads v
  {
    forall j, k {:trigger v[j, k]} :: 0 <= j < v.Length0 && 0 <= k < v.Length1 ==> (v[j, k] <==> (k, j) in s)
  }

  /** A fresh height-by-width visited matrix with every entry false. */
  method NewVisited(height: nat, width: nat) returns (v: array2<bool>)
    ensures fresh(v) && v.Length0 == height && v.Length1 == width
    ensures MarksAgree(v, {})
  {
    v := new bool[height, width]((j, k) => false);
  }

  class IDS {
    const maze: Maze
    var lastResult: SearchResult

    constructor (maze: Maze)
      ensures this.maze == maze
      ensures lastResult == SearchResult(false, [], 0, 0, 0)
    {
      this.maze := maze;
      lastResult := SearchResult(false, [], 0, 0, 0);
    }

    method GetLastResult() returns (r: SearchResult)
      ensures r == lastResult
    {
      r := lastResult;
    }

    /** Runs the whole search, records the result and returns it. */
    method Search() returns (r: SearchResult)
      requires maze.Valid()
      modifies this
      ensures r == lastResult && r == SearchSpec(maze.Snapshot())
    {
      ghost var board := maze.Snapshot();
      lastResult := SearchResult(false, [], 0, 0, 0);
      var start := maze.start;
      var goal := maze.goal;
      if start.0 < 0 || start.1 < 0 || goal.0 < 0 || goal.1 < 0 {
        return lastResult;
      }
      if start.0 == goal.0 && start.1 == goal.1 {
        lastResult := lastResult.(found := true, path := lastResult.path + [start]);
        lastResult := lastResult.(nodesExpanded := 1, maxDepth := 0, iterations := 1);
        return lastResult;
      }
      var maxDepthLimit := maze.width * maze.height;
      ghost var spec := Deepen(board, start, maxDepthLimit, 0, 0, 0);
      assert spec == SearchSpec(board);
      var totalNodesExpanded: nat := 0;
      var depthLimit: nat := 0;
      while depthLimit <= maxDepthLimit
        invariant depthLimit <= maxDepthLimit + 1
        invariant lastResult == SearchResult(false, [], 0, 0, depthLimit)
        invariant maze.Snapshot() == board
        invariant spec == Deepen(board, start, maxDepthLimit, depthLimit, totalNodesExpanded, depthLimit)
      {
        lastResult := lastResult.(iterations := lastResult.iterations + 1);
        var visited := NewVisited(maze.height, maze.width);
        var found, currentPath, nodesExpandedThisIteration, marks :=
          DepthLimitedDFS(start.0, start.1, 0, depthLimit, [], visited, 0, {}, board);
        DeepenStep(board, start, maxDepthLimit, depthLimit, totalNodesExpanded,
                   Probe(found, Trail(currentPath, marks, nodesExpandedThisIteration)));
        totalNodesExpanded := totalNodesExpanded + nodesExpandedThisIteration;
        if found {
          lastResult := lastResult.(found := true, path := currentPath);
          lastResult := lastResult.(nodesExpanded := totalNodesExpanded, maxDepth := depthLimit);
          return lastResult;
        }
        depthLimit := depthLimit + 1;
      }
      DeepenDone(board, start, maxDepthLimit, depthLimit, totalNodesExpanded);
      lastResult := lastResult.(found := false, nodesExpanded := totalNodesExpanded);
      r := lastResult;
    }

    /** One depth-limited DFS call at (x, y). The visited matrix is updated in
        place; the path and the expansion counter, which the caller passes by
        reference, come back as results. The ghost set marks mirrors the
        visited matrix, and board is the maze's state, which the call does
        not change. */
    method DepthLimitedDFS(x: int, y: int, depth: nat, maxDepth: nat, path: seq<Pos>,
                           visited: array2<bool>, nodesExpanded: nat, ghost marks: set<Pos>, ghost board: Board)
      returns (found: bool, path': seq<Pos>, nodesExpanded': nat, ghost marks': set<Pos>)
      requires maze.Valid() && board == maze.Snapshot()
      requires visited.Length0 == maze.height && visited.Length1 == maze.width
      requires MarksAgree(visited, marks)
      modifies visited
      ensures MarksAgree(visited, marks')
      ensures Probe(found, Trail(path', marks', nodesExpanded'))
           == Visit(board, (x, y), depth, maxDepth, Trail(path, marks, nodesExpanded))
      decreases maxDepth + 1 - depth
    {
      ghost var t := Trail(path, marks, nodesExpanded);
      if depth > maxDepth {
        VisitRejects(board, (x, y), depth, maxDepth, t);
        return false, path, nodesExpanded, marks;
      }
      if !maze.IsWalkable(x, y) {
        VisitRejects(board, (x, y), depth, maxDepth, t);
        return false, path, nodesExpanded, marks;
      }
      if visited[y, x] {
        VisitRejects(board, (x, y), depth, maxDepth, t);
        return false, path, nodesExpanded, marks;
      }
      visited[y, x] := true;
      path' := path + [(x, y)];
      nodesExpanded' := nodesExpanded + 1;
      marks' := marks + {(x, y)};
      ghost var t1 := Trail(path', marks', nodesExpanded');
      var goal := maze.goal;
      if x == goal.0 && y == goal.1 {
        VisitReachesGoal(board, (x, y), depth, maxDepth, t);
        return true, path', nodesExpanded', marks';
      }
      var neighbors := GetNeighbors(x, y);
      ghost var spec := VisitAll(board, neighbors, depth, maxDepth, t1);
      VisitStep(board, (x, y), depth, maxDepth, t);
      var i := 0;
      while i < |neighbors|
        invariant 0 <= i <= |neighbors|
        invariant MarksAgree(visited, marks')
        invariant spec == VisitAll(board, neighbors[i..], depth, maxDepth, Trail(path', marks', nodesExpanded'))
      {
        var next := neighbors[i];
        ghost var rest := neighbors[i..];
        assert rest[0] == next;
        VisitAllStep(board, rest, depth, maxDepth, Trail(path', marks', nodesExpanded'));
        var f;
        f, path', nodesExpanded', marks' :=
          DepthLimitedDFS(next.0, next.1, depth + 1, maxDepth, path', visited, nodesExpanded', marks', board);
        if f {
          assert spec == Probe(true, Trail(path', marks', nodesExpanded'));
          return true, path', nodesExpanded', marks';
        }
        assert neighbors[i..][1..] == neighbors[i + 1..];
        i := i + 1;
      }
      path' := path'[..|path'| - 1];
      found := false;
    }

    /** The in-bounds walkable cells next to (x, y), in the order up, down,
        left, right. */
    method GetNeighbors(x: int, y: int) returns (neighbors: seq<Pos>)
      requires maze.Valid()
      ensures neighbors == Neighbors(maze.Snapshot(), (x, y))
    {
      var dx := [0, 0, -1, 1];
      var dy := [-1, 1, 0, 0];
      ghost var board := maze.Snapshot();
      ghost var cs := Candidates((x, y));
      neighbors := [];
      for i := 0 to 4
        invariant neighbors == Passable(board, cs[..i])
      {
        var nx := x + dx[i];
        var ny := y + dy[i];
        assert cs[..i + 1][..i] == cs[..i] && (nx, ny) == cs[i];
        if maze.IsValid(nx, ny) && maze.IsWalkable(nx, ny) {
          neighbors := neighbors + [(nx, ny)];
        }
      }
      assert cs[..4] == cs;
    }
  }
}
