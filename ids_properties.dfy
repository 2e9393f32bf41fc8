/** What the iterative deepening search guarantees: the neighbour list, the
    invariants of one depth-limited pass (marks only grow, each cell is
    expanded at most once, a failed call leaves the path as it was, a
    successful one appends a route to the goal), and the outcome of the whole
    search (a route when found, exact iteration and expansion counts). */
module IdsProperties {
  import opened MazeGrid
  import opened IterativeDeepening

  /** p and q are one step up, down, left or right of each other. */
  predicate Adjacent(p: Pos, q: Pos) {
    (p.0 == q.0 && (p.1 - q.1 == 1 || q.1 - p.1 == 1)) ||
    (p.1 == q.1 && (p.0 - q.0 == 1 || q.0 - p.0 == 1))
  }

  /** No cell occurs twice in s. */
  predicate Distinct(s: seq<Pos>) {
    forall i, j :: 0 <= i < j < |s| ==> s[i] != s[j]
  }

  /** Each cell of s is adjacent to the next one. */
  ghost predicate Steps(s: seq<Pos>) {
    forall i, j :: 0 <= i < j < |s| && j == i + 1 ==> Adjacent(s[i], s[j])
  }

  /** s is a walk through open cells of m that never revisits a cell. */
  ghost predicate Walk(m: Board, s: seq<Pos>)
    requires m.Valid()
  {
    (forall i :: 0 <= i < |s| ==> m.Open(s[i])) && Steps(s) && Distinct(s)
  }

  /** path is a walk of m from `from` to `to`. */
  ghost predicate IsRoute(m: Board, path: seq<Pos>, from: Pos, to: Pos)
    requires m.Valid()
  {
    |path| > 0 && path[0] == from && path[|path| - 1] == to && Walk(m, path)
  }

  /** The rank of q among the directions from p: up 0, down 1, left 2, right 3. */
  function Direction(p: Pos, q: Pos): int {
    if q == (p.0, p.1 - 1) then 0
    else if q == (p.0, p.1 + 1) then 1
    else if q == (p.0 - 1, p.1) then 2
    else 3
  }

  /** The cells of s come in strictly increasing direction from p. */
  predicate InDirectionOrder(p: Pos, s: seq<Pos>) {
    forall i, j :: 0 <= i < j < |s| ==> Direction(p, s[i]) < Direction(p, s[j])
  }

  // ---------------------------------------------------------------------
  // getNeighbors
  // ---------------------------------------------------------------------

  /** Passable keeps exactly the open cells of cs, and no more cells than cs has. */
  lemma {:induction false} PassableMembers(m: Board, cs: seq<Pos>)
    requires m.Valid()
    ensures |Passable(m, cs)| <= |cs|
    ensures forall q :: q in Passable(m, cs) <==> q in cs && m.Open(q)
    decreases |cs|
  {
    if cs != [] {
      var init, q := cs[..|cs| - 1], cs[|cs| - 1];
      PassableMembers(m, init);
      assert cs == init + [q];
    }
  }

  /** Passable keeps the cells of cs in their order. */
  lemma {:induction false} PassableInOrder(m: Board, p: Pos, cs: seq<Pos>)
    requires m.Valid() && InDirectionOrder(p, cs)
    ensures InDirectionOrder(p, Passable(m, cs))
    decreases |cs|
  {
    if cs != [] {
      var init, q := cs[..|cs| - 1], cs[|cs| - 1];
      assert InDirectionOrder(p, init) by {
        forall i, j | 0 <= i < j < |init|
          ensures Direction(p, init[i]) < Direction(p, init[j])
        {
          assert init[i] == cs[i] && init[j] == cs[j];
        }
      }
      PassableInOrder(m, p, init);
      PassableMembers(m, init);
      var r0 := Passable(m, init);
      if m.InBounds(q) && m.Open(q) {
        var r := r0 + [q];
        forall i, j | 0 <= i < j < |r| ensures Direction(p, r[i]) < Direction(p, r[j]) {
          if j == |r0| {
            assert r[i] in init;
            var k :| 0 <= k < |init| && init[k] == r[i];
            assert cs[k] == r[i];
          } else {
            assert r[i] == r0[i] && r[j] == r0[j];
          }
        }
      }
    }
  }

  /** getNeighbors returns at most four cells, exactly the walkable cells of
      the grid next to p, in the order up, down, left, right, none twice. */
  lemma NeighborsAreAdjacentOpenCells(m: Board, p: Pos)
    requires m.Valid()
    ensures var ns := Neighbors(m, p);
      |ns| <= 4 &&
      (forall q :: q in ns <==> Adjacent(p, q) && m.Open(q)) &&
      InDirectionOrder(p, ns) && Distinct(ns)
  {
    var cs := Candidates(p);
    assert InDirectionOrder(p, cs) by {
      assert Direction(p, cs[0]) == 0 && Direction(p, cs[1]) == 1;
      assert Direction(p, cs[2]) == 2 && Direction(p, cs[3]) == 3;
    }
    PassableMembers(m, cs);
    PassableInOrder(m, p, cs);
    forall q ensures q in cs <==> Adjacent(p, q) {
      if Adjacent(p, q) {
        assert q == cs[0] || q == cs[1] || q == cs[2] || q == cs[3];
      }
    }
    var ns := Neighbors(m, p);
    forall i, j | 0 <= i < j < |ns| ensures ns[i] != ns[j] {
      assert Direction(p, ns[i]) < Direction(p, ns[j]);
    }
  }

  lemma NeighborAdjacent(m: Board, p: Pos, q: Pos)
    requires m.Valid() && q in Neighbors(m, p)
    ensures Adjacent(p, q)
  {
    NeighborsAreAdjacentOpenCells(m, p);
  }

  // ---------------------------------------------------------------------
  // One depth-limited pass
  // ---------------------------------------------------------------------

  /** The marks of a call only grow; every new mark is an open cell, and the
      expansion count goes up by exactly the number of new marks, so no cell
      is expanded twice. */
  lemma {:induction false} VisitMarksGrow(m: Board, p: Pos, depth: nat, limit: nat, t: Trail)
    requires m.Valid()
    ensures var r := Visit(m, p, depth, limit, t);
      t.marks <= r.trail.marks &&
      (forall q :: q in r.trail.marks && q !in t.marks ==> m.Open(q)) &&
      r.trail.expanded + |t.marks| == t.expanded + |r.trail.marks|
    decreases limit + 1 - depth, 1, 0
  {
    if depth <= limit && m.Open(p) && p !in t.marks && p != m.goal {
      var t1 := Trail(t.path + [p], t.marks + {p}, t.expanded + 1);
      VisitAllMarksGrow(m, Neighbors(m, p), depth, limit, t1);
    }
  }

  lemma {:induction false} VisitAllMarksGrow(m: Board, ns: seq<Pos>, depth: nat, limit: nat, t: Trail)
    requires m.Valid() && depth <= limit
    ensures var r := VisitAll(m, ns, depth, limit, t);
      t.marks <= r.trail.marks &&
      (forall q :: q in r.trail.marks && q !in t.marks ==> m.Open(q)) &&
      r.trail.expanded + |t.marks| == t.expanded + |r.trail.marks|
    decreases limit + 1 - depth, 0, |ns|
  {
    if ns != [] {
      VisitMarksGrow(m, ns[0], depth + 1, limit, t);
      var r := Visit(m, ns[0], depth + 1, limit, t);
      if !r.found {
        VisitAllMarksGrow(m, ns[1..], depth, limit, r.trail);
      }
    }
  }

  /** [p] + rest is a walk when p is open, not in rest, and next to rest's first cell. */
  lemma WalkCons(m: Board, p: Pos, rest: seq<Pos>)
    requires m.Valid() && m.Open(p) && Walk(m, rest) && p !in rest
    requires rest != [] ==> Adjacent(p, rest[0])
    ensures Walk(m, [p] + rest)
  {
    var s := [p] + rest;
    forall i, j | 0 <= i < j < |s| && j == i + 1 ensures Adjacent(s[i], s[j]) {
      if i > 0 {
        assert s[i] == rest[i - 1] && s[j] == rest[j - 1];
      }
    }
    forall i, j | 0 <= i < j < |s| ensures s[i] != s[j] {
      assert s[j] == rest[j - 1];
      if i > 0 {
        assert s[i] == rest[i - 1];
      }
    }
    forall i | 0 <= i < |s| ensures m.Open(s[i]) {
      if i > 0 {
        assert s[i] == rest[i - 1];
      }
    }
  }

  /** A call at depth d that reaches the goal keeps the path it was given and
      appends a walk that starts at p, ends at the goal, uses only cells not
      marked before the call, and has at most limit + 1 - d cells. */
  lemma {:induction false} VisitFindsRoute(m: Board, p: Pos, depth: nat, limit: nat, t: Trail)
    requires m.Valid()
    ensures var r := Visit(m, p, depth, limit, t);
      var n := |t.path|;
      var path := r.trail.path;
      r.found ==>
        n < |path| && path[..n] == t.path && path[n] == p && path[|path| - 1] == m.goal &&
        Walk(m, path[n..]) &&
        (forall i :: n <= i < |path| ==> path[i] !in t.marks) &&
        |path| - n <= limit + 1 - depth
    decreases limit + 1 - depth, 1, 0
  {
    var r := Visit(m, p, depth, limit, t);
    if depth <= limit && m.Open(p) && p !in t.marks {
      var n := |t.path|;
      var t1 := Trail(t.path + [p], t.marks + {p}, t.expanded + 1);
      if p == m.goal {
        VisitReachesGoal(m, p, depth, limit, t);
        assert r.trail.path[n..] == [p];
        WalkCons(m, p, []);
      } else {
        var ns := Neighbors(m, p);
        VisitStep(m, p, depth, limit, t);
        VisitAllFindsRoute(m, ns, depth, limit, t1);
        var ra := VisitAll(m, ns, depth, limit, t1);
        if ra.found {
          assert r == ra;
          NeighborAdjacent(m, p, ra.trail.path[n + 1]);
          PrependStep(m, p, t.path, t.marks, ra.trail.path);
        }
      }
    }
  }

  /** Putting p in front of a walk that was found after p was pushed and
      marked gives a walk from p that avoids the earlier marks. */
  lemma PrependStep(m: Board, p: Pos, prefix: seq<Pos>, marks: set<Pos>, path: seq<Pos>)
    requires m.Valid() && m.Open(p) && p !in marks
    requires var n := |prefix| + 1;
      n < |path| && path[..n] == prefix + [p] && Adjacent(p, path[n]) &&
      Walk(m, path[n..]) && forall i :: n <= i < |path| ==> path[i] !in marks + {p}
    ensures var n := |prefix|;
      path[..n] == prefix && path[n] == p && Walk(m, path[n..]) &&
      forall i :: n <= i < |path| ==> path[i] !in marks
  {
    var n := |prefix|;
    var rest := path[n + 1..];
    assert path[n] == (prefix + [p])[n] == p;
    assert path[n..] == [p] + rest;
    assert p !in rest by {
      forall i | 0 <= i < |rest| ensures rest[i] != p {
        assert rest[i] == path[n + 1 + i];
      }
    }
    WalkCons(m, p, rest);
    assert path[..n] == path[..n + 1][..n];
  }

  /** The neighbour loop at depth d, when it reaches the goal, keeps the path
      and appends a walk that starts at one of ns, ends at the goal, uses only
      cells not marked before the loop, and has at most limit - d cells. */
  lemma {:induction false} VisitAllFindsRoute(m: Board, ns: seq<Pos>, depth: nat, limit: nat, t: Trail)
    requires m.Valid() && depth <= limit
    ensures var r := VisitAll(m, ns, depth, limit, t);
      var n := |t.path|;
      var path := r.trail.path;
      r.found ==>
        n < |path| && path[..n] == t.path && path[n] in ns && path[|path| - 1] == m.goal &&
        Walk(m, path[n..]) &&
        (forall i :: n <= i < |path| ==> path[i] !in t.marks) &&
        |path| - n <= limit - depth
    decreases limit + 1 - depth, 0, |ns|
  {
    if ns != [] {
      VisitAllStep(m, ns, depth, limit, t);
      VisitFindsRoute(m, ns[0], depth + 1, limit, t);
      var r := Visit(m, ns[0], depth + 1, limit, t);
      if !r.found {
        VisitMarksGrow(m, ns[0], depth + 1, limit, t);
        VisitAllFindsRoute(m, ns[1..], depth, limit, r.trail);
        var r2 := VisitAll(m, ns[1..], depth, limit, r.trail);
        if r2.found {
          assert VisitAll(m, ns, depth, limit, t) == r2;
          assert r2.trail.path[|t.path|] in ns[1..];
        }
      }
    }
  }

  /** The pass with bound k from s: one call at depth 0 on an empty path
      with nothing marked. */
  ghost function Pass(m: Board, s: Pos, k: nat): Probe
    requires m.Valid()
  {
    Visit(m, s, 0, k, Trail([], {}, 0))
  }

  /** A pass that succeeds yields a route from s to the goal of at most k + 1 cells. */
  lemma PassFindsRoute(m: Board, s: Pos, k: nat)
    requires m.Valid()
    ensures var r := Pass(m, s, k);
      r.found ==> IsRoute(m, r.trail.path, s, m.goal) && |r.trail.path| <= k + 1
  {
    VisitFindsRoute(m, s, 0, k, Trail([], {}, 0));
    var path := Pass(m, s, k).trail.path;
    assert path[0..] == path;
  }

  /** The cells (x, y) of row y with 0 <= x < w. */
  function RowCells(w: nat, y: int): set<Pos> {
    if w == 0 then {} else RowCells(w - 1, y) + {(w - 1, y)}
  }

  /** The cells of a w x h grid. */
  function Cells(w: nat, h: nat): set<Pos> {
    if h == 0 then {} else Cells(w, h - 1) + RowCells(w, h - 1)
  }

  lemma {:induction false} InRowCells(w: nat, y: int, q: Pos)
    ensures q in RowCells(w, y) <==> 0 <= q.0 < w && q.1 == y
  {
    if w > 0 {
      InRowCells(w - 1, y, q);
    }
  }

  lemma {:induction false} RowCellsCount(w: nat, y: int)
    ensures |RowCells(w, y)| == w
  {
    if w > 0 {
      RowCellsCount(w - 1, y);
      InRowCells(w - 1, y, (w - 1, y));
    }
  }

  lemma {:induction false} InCells(w: nat, h: nat, q: Pos)
    ensures q in Cells(w, h) <==> 0 <= q.0 < w && 0 <= q.1 < h
  {
    if h > 0 {
      InCells(w, h - 1, q);
      InRowCells(w, h - 1, q);
    }
  }

  /** A w x h grid has w * h cells. */
  lemma {:induction false} CellsCount(w: nat, h: nat)
    ensures |Cells(w, h)| == w * h
  {
    if h > 0 {
      CellsCount(w, h - 1);
      RowCellsCount(w, h - 1);
      var above, row := Cells(w, h - 1), RowCells(w, h - 1);
      forall q | q in row ensures q !in above {
        InRowCells(w, h - 1, q);
        InCells(w, h - 1, q);
      }
      assert above * row == {};
      assert w * h == w * (h - 1) + w;
    }
  }

  lemma {:induction false} SubsetCount(a: set<Pos>, b: set<Pos>)
    requires a <= b
    ensures |a| <= |b|
    decreases |a|
  {
    if a != {} {
      var x :| x in a;
      SubsetCount(a - {x}, b - {x});
    }
  }

  /** A pass expands at most width * height cells. */
  lemma PassExpandsAtMostAllCells(m: Board, s: Pos, k: nat)
    requires m.Valid()
    ensures Pass(m, s, k).trail.expanded <= m.width * m.height
  {
    VisitMarksGrow(m, s, 0, k, Trail([], {}, 0));
    CellsCount(m.width, m.height);
    var marks := Pass(m, s, k).trail.marks;
    forall q | q in marks ensures q in Cells(m.width, m.height) {
      InCells(m.width, m.height, q);
    }
    SubsetCount(marks, Cells(m.width, m.height));
  }

  // ---------------------------------------------------------------------
  // The outer loop and the whole search
  // ---------------------------------------------------------------------

  /** The cells expanded by the passes with bounds lo, ..., hi - 1. */
  ghost function SumPasses(m: Board, s: Pos, lo: nat, hi: nat): nat
    requires m.Valid()
    decreases hi - lo
  {
    if lo >= hi then 0 else Pass(m, s, lo).trail.expanded + SumPasses(m, s, lo + 1, hi)
  }

  lemma {:induction false} SumPassesBound(m: Board, s: Pos, lo: nat, hi: nat)
    requires m.Valid() && lo <= hi
    ensures SumPasses(m, s, lo, hi) <= (hi - lo) * (m.width * m.height)
    decreases hi - lo
  {
    if lo < hi {
      PassExpandsAtMostAllCells(m, s, lo);
      SumPassesBound(m, s, lo + 1, hi);
      assert (hi - lo) * (m.width * m.height) == m.width * m.height + (hi - (lo + 1)) * (m.width * m.height);
    }
  }

  /** The outer loop from bound k on stops at the first bound whose pass
      succeeds, counts one iteration per bound tried, and returns that
      pass's path. */
  lemma {:induction false} DeepenFound(m: Board, s: Pos, bound: nat, k: nat, total: nat)
    requires m.Valid() && k <= bound + 1
    ensures var r := Deepen(m, s, bound, k, total, k);
      r.found ==>
        k <= r.maxDepth <= bound && r.iterations == r.maxDepth + 1 &&
        Pass(m, s, r.maxDepth).found && r.path == Pass(m, s, r.maxDepth).trail.path &&
        forall j :: k <= j < r.maxDepth ==> !Pass(m, s, j).found
    decreases bound + 1 - k
  {
    if k <= bound {
      var pass := Pass(m, s, k);
      DeepenStep(m, s, bound, k, total, pass);
      if !pass.found {
        DeepenFound(m, s, bound, k + 1, total + pass.trail.expanded);
      }
    }
  }

  /** When no pass from bound k on succeeds, the outer loop tries every
      bound up to `bound` and returns no path and maxDepth 0. */
  lemma {:induction false} DeepenExhausted(m: Board, s: Pos, bound: nat, k: nat, total: nat)
    requires m.Valid() && k <= bound + 1
    ensures var r := Deepen(m, s, bound, k, total, k);
      !r.found ==>
        r.path == [] && r.maxDepth == 0 && r.iterations == bound + 1 &&
        forall j :: k <= j <= bound ==> !Pass(m, s, j).found
    decreases bound + 1 - k
  {
    if k <= bound {
      var pass := Pass(m, s, k);
      DeepenStep(m, s, bound, k, total, pass);
      if !pass.found {
        DeepenExhausted(m, s, bound, k + 1, total + pass.trail.expanded);
      }
    }
  }

  /** The outer loop adds every pass's expansions to the running total, the
      failed passes' included. */
  lemma {:induction false} DeepenExpansions(m: Board, s: Pos, bound: nat, k: nat, total: nat)
    requires m.Valid() && k <= bound + 1
    ensures var r := Deepen(m, s, bound, k, total, k);
      r.nodesExpanded == total + SumPasses(m, s, k, if r.found then r.maxDepth + 1 else bound + 1) &&
      (r.found ==> k <= r.maxDepth <= bound)
    decreases bound + 1 - k
  {
    if k <= bound {
      var pass := Pass(m, s, k);
      DeepenStep(m, s, bound, k, total, pass);
      if !pass.found {
        var total' := total + pass.trail.expanded;
        DeepenExpansions(m, s, bound, k + 1, total');
        var r := Deepen(m, s, bound, k + 1, total', k + 1);
        var hi := if r.found then r.maxDepth + 1 else bound + 1;
        assert SumPasses(m, s, k, hi) == pass.trail.expanded + SumPasses(m, s, k + 1, hi);
      }
    }
  }

  /** With start and goal set and different, search() is the outer loop
      over bounds 0 .. width * height. */
  lemma SearchRunsPasses(m: Board)
    requires m.Valid() && !IsUnset(m.start) && !IsUnset(m.goal) && m.start != m.goal
    ensures SearchSpec(m) == Deepen(m, m.start, m.width * m.height, 0, 0, 0)
  {
  }

  /** When start and goal are set and different and the search reports
      found, the path is a route from start to goal through open cells with
      no repeated cell, and it has at most maxDepth + 1 cells, where maxDepth
      is at most width * height. */
  lemma SearchFindsRoute(m: Board)
    requires m.Valid()
    ensures var r := SearchSpec(m);
      r.found && m.start != m.goal ==>
        IsRoute(m, r.path, m.start, m.goal) &&
        |r.path| - 1 <= r.maxDepth <= m.width * m.height
  {
    if !IsUnset(m.start) && !IsUnset(m.goal) && m.start != m.goal {
      SearchRunsPasses(m);
      DeepenFound(m, m.start, m.width * m.height, 0, 0);
      var r := SearchSpec(m);
      if r.found {
        PassFindsRoute(m, m.start, r.maxDepth);
      }
    }
  }

  /** When start and goal are set and different and the search reports
      found, maxDepth is the first bound whose pass succeeded, iterations is
      maxDepth + 1, and nodesExpanded adds up the passes with bounds
      0 .. maxDepth. */
  lemma SearchFoundCounts(m: Board)
    requires m.Valid()
    ensures var r := SearchSpec(m);
      r.found && m.start != m.goal ==>
        Pass(m, m.start, r.maxDepth).found &&
        (forall j :: 0 <= j < r.maxDepth ==> !Pass(m, m.start, j).found) &&
        r.iterations == r.maxDepth + 1 &&
        r.nodesExpanded == SumPasses(m, m.start, 0, r.iterations)
  {
    if !IsUnset(m.start) && !IsUnset(m.goal) && m.start != m.goal {
      SearchRunsPasses(m);
      DeepenFound(m, m.start, m.width * m.height, 0, 0);
      DeepenExpansions(m, m.start, m.width * m.height, 0, 0);
    }
  }

  /** When the search reports not found the path is empty and maxDepth is 0.
      With start or goal unset nothing runs; otherwise every bound
      0 .. width * height was tried and failed, iterations is
      width * height + 1, and nodesExpanded adds up every pass. */
  lemma SearchFailure(m: Board)
    requires m.Valid()
    ensures var r := SearchSpec(m);
      !r.found ==>
        r.path == [] && r.maxDepth == 0 &&
        (IsUnset(m.start) || IsUnset(m.goal) ==> r.iterations == 0 && r.nodesExpanded == 0) &&
        (!IsUnset(m.start) && !IsUnset(m.goal) ==>
          r.iterations == m.width * m.height + 1 &&
          (forall j :: 0 <= j <= m.width * m.height ==> !Pass(m, m.start, j).found) &&
          r.nodesExpanded == SumPasses(m, m.start, 0, r.iterations))
  {
    if !IsUnset(m.start) && !IsUnset(m.goal) && m.start != m.goal {
      SearchRunsPasses(m);
      DeepenExhausted(m, m.start, m.width * m.height, 0, 0);
      DeepenExpansions(m, m.start, m.width * m.height, 0, 0);
    }
  }

  /** The two shortcuts: with start or goal unset the result is all zero and
      not found; with start == goal it is found with path [start], one node
      expanded and one iteration, and no pass runs. */
  lemma SearchShortcuts(m: Board)
    requires m.Valid()
    ensures IsUnset(m.start) || IsUnset(m.goal) ==> SearchSpec(m) == SearchResult(false, [], 0, 0, 0)
    ensures !IsUnset(m.start) && m.start == m.goal ==> SearchSpec(m) == SearchResult(true, [m.start], 1, 0, 1)
  {
  }

  /** The search runs at most width * height + 1 passes, and each pass
      expands at most width * height cells. */
  lemma SearchExpansionBound(m: Board)
    requires m.Valid()
    ensures var r := SearchSpec(m);
      r.iterations <= m.width * m.height + 1 &&
      r.nodesExpanded <= r.iterations * (m.width * m.height)
  {
    var r := SearchSpec(m);
    var cells := m.width * m.height;
    if !IsUnset(m.start) && !IsUnset(m.goal) {
      if m.start == m.goal {
        assert m.InBounds(m.start);
        assert cells >= 1 by {
          assert m.width >= 1 && m.height >= 1;
          assert m.width * m.height >= 1 * m.height;
        }
      } else {
        SearchRunsPasses(m);
        DeepenFound(m, m.start, cells, 0, 0);
        DeepenExhausted(m, m.start, cells, 0, 0);
        DeepenExpansions(m, m.start, cells, 0, 0);
        SumPassesBound(m, m.start, 0, r.iterations);
      }
    }
  }
}
