/**
 * The maze generator of the full game (script.js): the grid dimensions forced
 * odd, the Fisher-Yates shuffle, and the recursive backtracker that carves an
 * all-wall grid in place on a step-2 lattice.
 *
 * Cells are (x, y) pairs; the grid is an array2 indexed [y, x] (rows first),
 * 1 for a wall and 0 for a passage, as in the source.
 */
module Maze {

  type Cell = (int, int)

  const Wall := 1
  const Open := 0
  const TileSize := 30

  /** The start cell of every run, (1, 1). */
  const Start: Cell := (1, 1)

  function Min(a: int, b: int): int { if a < b then a else b }
  function Max(a: int, b: int): int { if a < b then b else a }

  // ---------------------------------------------------------------------------
  // Grid dimensions (script.js:44-47)
  // ---------------------------------------------------------------------------

  /** Number of tiles along one canvas side, decremented when even. */
  function GridDimension(pixels: int): (n: int)
    requires pixels >= 0
    ensures n % 2 == 1
    ensures pixels / TileSize - 1 <= n <= pixels / TileSize
    ensures n >= 5 <==> pixels >= 5 * TileSize
  {
    var tiles := pixels / TileSize;
    if tiles % 2 == 0 then tiles - 1 else tiles
  }

  // ---------------------------------------------------------------------------
  // Fisher-Yates shuffle (script.js:94)
  // ---------------------------------------------------------------------------

  /**
   * The Math.random draws of one shuffle of n elements, already turned into
   * swap indices: the t-th step swaps position n-1-t with swaps[t], which lies
   * in [0, n-1-t].
   */
  predicate IsSwapList(swaps: seq<nat>, n: nat)
  {
    |swaps| == (if n == 0 then 0 else n - 1) &&
    forall t :: 0 <= t < |swaps| ==> swaps[t] <= n - 1 - t
  }

  function Swap<T>(s: seq<T>, i: nat, j: nat): (r: seq<T>)
    requires i < |s| && j < |s|
    ensures |r| == |s| && r[i] == s[j] && r[j] == s[i]
    ensures forall k :: 0 <= k < |s| && k != i && k != j ==> r[k] == s[k]
  {
    s[i := s[j]][j := s[i]]
  }

  /** What is left of the shuffle once the positions above i are done. */
  function ShuffledFrom<T>(s: seq<T>, swaps: seq<nat>, i: int): seq<T>
    requires IsSwapList(swaps, |s|) && i < |s|
    decreases i
  {
    if i <= 0 then s
    else ShuffledFrom(Swap(s, i, swaps[|s| - 1 - i]), swaps, i - 1)
  }

  /** The whole shuffle: positions n-1 down to 1, each swapped with its draw. */
  function Shuffled<T>(s: seq<T>, swaps: seq<nat>): seq<T>
    requires IsSwapList(swaps, |s|)
  {
    ShuffledFrom(s, swaps, |s| - 1)
  }

  lemma {:induction false} ShuffledFromPermutes<T>(s: seq<T>, swaps: seq<nat>, i: int)
    requires IsSwapList(swaps, |s|) && i < |s|
    ensures |ShuffledFrom(s, swaps, i)| == |s|
    ensures multiset(ShuffledFrom(s, swaps, i)) == multiset(s)
    decreases i
  {
    if i > 0 {
      var j := swaps[|s| - 1 - i];
      var s' := Swap(s, i, j);
      assert multiset(s') == multiset(s) by {
        assert s' == s[i := s[j]][j := s[i]];
      }
      ShuffledFromPermutes(s', swaps, i - 1);
    }
  }

  /** A shuffle only reorders: the result is a permutation of the input. */
  lemma ShuffledPermutes<T>(s: seq<T>, swaps: seq<nat>)
    requires IsSwapList(swaps, |s|)
    ensures |Shuffled(s, swaps)| == |s|
    ensures multiset(Shuffled(s, swaps)) == multiset(s)
  {
    ShuffledFromPermutes(s, swaps, |s| - 1);
  }

  /** shuffle(a): swaps in place, walking i from the last index down to 1. */
  method Shuffle<T>(a: array<T>, swaps: seq<nat>)
    requires IsSwapList(swaps, a.Length)
    modifies a
    ensures a[..] == Shuffled(old(a[..]), swaps)
  {
    var i := a.Length - 1;
    while i > 0
      invariant -1 <= i < a.Length
      invariant a.Length == 0 ==> i == -1
      invariant ShuffledFrom(a[..], swaps, i) == Shuffled(old(a[..]), swaps)
    {
      var j := swaps[a.Length - 1 - i];
      assert a[..][i := a[j]][j := a[i]] == Swap(a[..], i, j);
      a[i], a[j] := a[j], a[i];
      i := i - 1;
    }
  }

  // ---------------------------------------------------------------------------
  // Cells, walls and the step-2 lattice
  // ---------------------------------------------------------------------------

  /** The four moves of carve, two cells away (script.js:101). */
  const Steps: seq<Cell> := [(2, 0), (-2, 0), (0, 2), (0, -2)]

  /** Strictly inside the border, as carve's bounds test (script.js:104). */
  predicate Interior(c: int, r: int, p: Cell)
  {
    0 < p.0 < c - 1 && 0 < p.1 < r - 1
  }

  predicate IsBorder(c: int, r: int, p: Cell)
  {
    0 <= p.0 < c && 0 <= p.1 < r && !Interior(c, r, p)
  }

  /** A cell the backtracker can visit: interior, both coordinates odd. */
  predicate IsLattice(c: int, r: int, p: Cell)
  {
    Interior(c, r, p) && p.0 % 2 == 1 && p.1 % 2 == 1
  }

  /** A cell the generator may open: interior, not both coordinates even. */
  predicate Carvable(c: int, r: int, p: Cell)
  {
    Interior(c, r, p) && (p.0 % 2 == 1 || p.1 % 2 == 1)
  }

  predicate Adjacent(p: Cell, q: Cell)
  {
    (p.0 == q.0 && (p.1 - q.1 == 1 || q.1 - p.1 == 1)) ||
    (p.1 == q.1 && (p.0 - q.0 == 1 || q.0 - p.0 == 1))
  }

  function Plus(p: Cell, d: Cell): Cell { (p.0 + d.0, p.1 + d.1) }

  /** The open cells of a grid (indexed [y, x]). */
  ghost function OpenCells(g: array2<int>): set<Cell>
    reads g
  {
    set y, x | 0 <= y < g.Length0 && 0 <= x < g.Length1 && g[y, x] == Open :: (x, y)
  }

  /** The grid holds exactly Open on the cells of S and Wall elsewhere. */
  ghost predicate Mirrors(g: array2<int>, S: set<Cell>)
    reads g
  {
    forall y, x :: 0 <= y < g.Length0 && 0 <= x < g.Length1 ==> g[y, x] == if (x, y) in S then Open else Wall
  }

  ghost predicate AllCarvable(c: int, r: int, S: set<Cell>)
  {
    forall p :: p in S ==> Carvable(c, r, p)
  }

  ghost function LatticeCells(c: int, r: int): set<Cell>
  {
    set x, y | 0 < x < c - 1 && 0 < y < r - 1 && x % 2 == 1 && y % 2 == 1 :: (x, y)
  }

  /** Step d from p leaves the interior, or lands on a cell of S. */
  predicate NeighbourDone(c: int, r: int, S: set<Cell>, p: Cell, d: Cell)
  {
    Interior(c, r, Plus(p, d)) ==> Plus(p, d) in S
  }

  /** Every interior lattice neighbour of p is in S. */
  predicate Settled(c: int, r: int, S: set<Cell>, p: Cell)
  {
    NeighbourDone(c, r, S, p, (2, 0)) && NeighbourDone(c, r, S, p, (-2, 0)) &&
    NeighbourDone(c, r, S, p, (0, 2)) && NeighbourDone(c, r, S, p, (0, -2))
  }

  // ---------------------------------------------------------------------------
  // Reachability
  // ---------------------------------------------------------------------------

  /** A walk of orthogonal steps through cells of `open`. */
  ghost predicate IsWalk(open: set<Cell>, w: seq<Cell>)
  {
    |w| > 0 &&
    (forall i :: 0 <= i < |w| ==> w[i] in open) &&
    (forall i :: 0 <= i < |w| - 1 ==> Adjacent(w[i], w[i + 1]))
  }

  ghost predicate Reachable(open: set<Cell>, p: Cell)
  {
    exists w :: IsWalk(open, w) && w[0] == Start && w[|w| - 1] == p
  }

  /**
   * Proof bookkeeping for connectivity: every cell of S other than the start
   * records the cell of S it was carved from, one level shallower.
   */
  ghost predicate Linked(S: set<Cell>, parent: map<Cell, Cell>, depth: map<Cell, nat>)
  {
    Start in depth &&
    (forall p :: p in S && p != Start ==> p in parent) &&
    (forall p {:trigger parent[p]} :: p in S && p != Start ==> LinkOk(S, parent[p], p, depth))
  }

  ghost predicate LinkOk(S: set<Cell>, q: Cell, p: Cell, depth: map<Cell, nat>)
  {
    p in depth && q in depth && q in S && depth[q] < depth[p] && Adjacent(q, p)
  }

  /** Opening p from its open neighbour q keeps every opened cell linked. */
  lemma LinkedExtend(S: set<Cell>, parent: map<Cell, Cell>, depth: map<Cell, nat>, p: Cell, q: Cell)
    requires Linked(S, parent, depth) && p !in S && q in S && q in depth && Adjacent(q, p)
    ensures Linked(S + {p}, parent[p := q], depth[p := depth[q] + 1])
  {
    var S', parent', depth' := S + {p}, parent[p := q], depth[p := depth[q] + 1];
    forall u | u in S' && u != Start ensures LinkOk(S', parent'[u], u, depth') {
      if u != p {
        assert parent'[u] == parent[u] && LinkOk(S, parent[u], u, depth);
      }
    }
  }

  /** Following the recorded parents from a cell of S leads back to the start. */
  lemma {:induction false} LinkedReachable(S: set<Cell>, parent: map<Cell, Cell>, depth: map<Cell, nat>, p: Cell)
    requires Linked(S, parent, depth) && Start in S && p in S
    ensures Reachable(S, p)
    decreases if p in depth then depth[p] else 0
  {
    if p == Start {
      assert IsWalk(S, [Start]);
    } else {
      var q := parent[p];
      assert LinkOk(S, q, p, depth);
      LinkedReachable(S, parent, depth, q);
      var w :| IsWalk(S, w) && w[0] == Start && w[|w| - 1] == q;
      var w' := w + [p];
      forall i | 0 <= i < |w'| - 1 ensures Adjacent(w'[i], w'[i + 1]) {
        if i < |w| - 1 {
          assert w'[i] == w[i] && w'[i + 1] == w[i + 1];
        }
      }
      assert IsWalk(S, w');
    }
  }

  /**
   * If the start is in S and every lattice cell of S has all its lattice
   * neighbours in S, then every lattice cell is in S: walk along the first
   * row, then down the column.
   */
  lemma {:induction false} LatticeClosed(c: int, r: int, S: set<Cell>, p: Cell)
    requires Start in S
    requires forall q {:trigger IsLattice(c, r, q)} :: q in S && IsLattice(c, r, q) ==> Settled(c, r, S, q)
    requires IsLattice(c, r, p)
    ensures p in S
    decreases p.0 + p.1
  {
    if p.1 > 1 {
      var q := (p.0, p.1 - 2);
      LatticeClosed(c, r, S, q);
      assert IsLattice(c, r, q);
      assert NeighbourDone(c, r, S, q, (0, 2));
    } else if p.0 > 1 {
      var q := (p.0 - 2, p.1);
      LatticeClosed(c, r, S, q);
      assert IsLattice(c, r, q);
      assert NeighbourDone(c, r, S, q, (2, 0));
    }
  }

  // ---------------------------------------------------------------------------
  // The generator (script.js:97-114)
  // ---------------------------------------------------------------------------

  /** One list of three swap indices for every shuffle of the four steps. */
  ghost predicate AllSwaps(swaps: nat -> seq<nat>)
  {
    forall k :: IsSwapList(swaps(k), 4)
  }

  predicate IsStep(d: Cell)
  {
    d == (2, 0) || d == (-2, 0) || d == (0, 2) || d == (0, -2)
  }

  /** Four steps, each of them once. */
  ghost predicate IsStepOrder(order: seq<Cell>)
  {
    |order| == 4 &&
    (forall t :: 0 <= t < 4 ==> IsStep(order[t])) &&
    (forall d :: IsStep(d) ==> d in order)
  }

  /** A shuffled order of the four steps holds each step exactly once. */
  lemma StepOrder(order: seq<Cell>)
    requires multiset(order) == multiset(Steps)
    ensures IsStepOrder(order)
  {
    assert |order| == |multiset(order)| == |multiset(Steps)| == 4;
    forall t | 0 <= t < 4 ensures IsStep(order[t]) {
      assert order[t] in multiset(order);
    }
    forall d | IsStep(d) ensures d in order {
      assert d in multiset(Steps);
    }
  }

  /**
   * Arithmetic of one step from a lattice cell: the target is a lattice cell,
   * the cell half-way is carvable but not a lattice cell, and both are
   * adjacent to it.
   */
  lemma StepGeometry(c: int, r: int, p: Cell, d: Cell)
    requires IsLattice(c, r, p) && IsStep(d) && Interior(c, r, Plus(p, d))
    ensures IsLattice(c, r, Plus(p, d))
    ensures var m := (p.0 + d.0 / 2, p.1 + d.1 / 2);
      Carvable(c, r, m) && !IsLattice(c, r, m) && Adjacent(p, m) && Adjacent(m, Plus(p, d))
  {
  }

  lemma SettledGrows(c: int, r: int, S: set<Cell>, T: set<Cell>, p: Cell)
    requires S <= T && Settled(c, r, S, p)
    ensures Settled(c, r, T, p)
  {
  }

  lemma LatticeMember(c: int, r: int, p: Cell)
    requires IsLattice(c, r, p)
    ensures p in LatticeCells(c, r)
  {
    assert p == (p.0, p.1);
  }

  /** A cell whose four neighbours, taken in any step order, are done is Settled. */
  lemma AllStepsDone(c: int, r: int, S: set<Cell>, p: Cell, order: seq<Cell>)
    requires IsStepOrder(order)
    requires forall t :: 0 <= t < 4 ==> NeighbourDone(c, r, S, p, order[t])
    ensures Settled(c, r, S, p)
  {
    forall d | IsStep(d) ensures NeighbourDone(c, r, S, p, d) {
      assert d in order;
      var t :| 0 <= t < 4 && order[t] == d;
    }
  }

  /** The invariant of a partly carved grid: the grid mirrors S, S holds only carvable cells, all linked. */
  ghost predicate Carving(g: array2<int>, S: set<Cell>, parent: map<Cell, Cell>, depth: map<Cell, nat>)
    reads g
  {
    Mirrors(g, S) && AllCarvable(g.Length1, g.Length0, S) && Linked(S, parent, depth)
  }

  /** Every lattice cell of T that is not in S is Settled in T. */
  ghost predicate SettledSince(c: int, r: int, S: set<Cell>, T: set<Cell>)
  {
    forall p {:trigger IsLattice(c, r, p)} :: p in T && p !in S && IsLattice(c, r, p) ==> Settled(c, r, T, p)
  }

  lemma NothingToSettle(c: int, r: int, S: set<Cell>, m: Cell)
    requires !IsLattice(c, r, m)
    ensures SettledSince(c, r, S, S + {m})
  {
  }

  lemma SettledSinceGrows(c: int, r: int, S: set<Cell>, T: set<Cell>, U: set<Cell>)
    requires S <= T <= U && SettledSince(c, r, S, T) && SettledSince(c, r, T, U)
    ensures SettledSince(c, r, S, U)
  {
    forall p | IsLattice(c, r, p) && p in U && p !in S ensures Settled(c, r, U, p) {
      if p in T {
        SettledGrows(c, r, T, U, p);
      }
    }
  }

  /**
   * The write `grid[y][x] = 0` of carve and of generateMaze (script.js:100,
   * 106, 112): opening a carvable cell next to an open one keeps the grid
   * mirroring S and every open cell linked back to the start.
   */
  method OpenCell(g: array2<int>, x: int, y: int,
                  ghost S: set<Cell>, ghost from: Cell, ghost parent: map<Cell, Cell>, ghost depth: map<Cell, nat>)
    returns (ghost S': set<Cell>, ghost parent': map<Cell, Cell>, ghost depth': map<Cell, nat>)
    requires Carvable(g.Length1, g.Length0, (x, y))
    requires Carving(g, S, parent, depth)
    requires (x, y) == Start || (from in S && from in depth && Adjacent(from, (x, y)))
    modifies g
    ensures S' == S + {(x, y)} && (x, y) in depth'
    ensures Carving(g, S', parent', depth')
  {
    g[y, x] := Open;
    S', parent', depth' := S + {(x, y)}, parent, depth;
    if (x, y) != Start && (x, y) !in S {
      LinkedExtend(S, parent, depth, (x, y), from);
      parent' := parent[(x, y) := from];
      depth' := depth[(x, y) := depth[from] + 1];
    }
  }

  /** carve's `shuffle([[2,0],[-2,0],[0,2],[0,-2]])` (script.js:101). */
  method ShuffledSteps(swaps: seq<nat>) returns (order: seq<Cell>)
    requires IsSwapList(swaps, 4)
    ensures order == Shuffled(Steps, swaps)
    ensures IsStepOrder(order)
  {
    var dirs := new Cell[4] [(2, 0), (-2, 0), (0, 2), (0, -2)];
    assert dirs[..] == Steps;
    Shuffle(dirs, swaps);
    order := dirs[..];
    ShuffledPermutes(Steps, swaps);
    StepOrder(order);
  }

  /**
   * carve(x, y): open (x, y), then try the four steps in shuffled order.
   * Draw k of `swaps` shuffles this call's steps; the result is the next
   * unused draw.
   *
   * Ghost bookkeeping: S is the set of open cells (the grid mirrors it), and
   * the parent/depth maps record where each opened cell was carved from;
   * `from` is the parent of (x, y). The contract promises that every lattice
   * cell this call opens ends up Settled.
   */
  method Carve(g: array2<int>, x: int, y: int, swaps: nat -> seq<nat>, k: nat,
               ghost S: set<Cell>, ghost from: Cell, ghost parent: map<Cell, Cell>, ghost depth: map<Cell, nat>)
    returns (k': nat, ghost S': set<Cell>, ghost parent': map<Cell, Cell>, ghost depth': map<Cell, nat>)
    requires AllSwaps(swaps)
    requires IsLattice(g.Length1, g.Length0, (x, y)) && (x, y) !in S
    requires Carving(g, S, parent, depth)
    requires (x, y) == Start || (from in S && from in depth && Adjacent(from, (x, y)))
    modifies g
    ensures Carving(g, S', parent', depth')
    ensures S <= S' && (x, y) in S'
    ensures SettledSince(g.Length1, g.Length0, S, S')
    decreases LatticeCells(g.Length1, g.Length0) - S, 0
  {
    ghost var c, r := g.Length1, g.Length0;
    S', parent', depth' := OpenCell(g, x, y, S, from, parent, depth);
    var order := ShuffledSteps(swaps(k));
    LatticeMember(c, r, (x, y));
    assert (x, y) in LatticeCells(c, r) - S;
    k' := k + 1;
    var i := 0;
    while i < 4
      invariant 0 <= i <= 4
      invariant Carving(g, S', parent', depth')
      invariant S + {(x, y)} <= S'
      invariant SettledSince(c, r, S + {(x, y)}, S')
      invariant forall t :: 0 <= t < i ==> NeighbourDone(c, r, S', (x, y), order[t])
    {
      ghost var before := S';
      k', S', parent', depth' := CarveStep(g, x, y, order[i], swaps, k', S', parent', depth');
      SettledSinceGrows(c, r, S + {(x, y)}, before, S');
      forall t | 0 <= t < i + 1 ensures NeighbourDone(c, r, S', (x, y), order[t]) {
        if t < i {
          assert NeighbourDone(c, r, before, (x, y), order[t]);
        }
      }
      i := i + 1;
    }
    AllStepsDone(c, r, S', (x, y), order);
    assert SettledSince(c, r, S, S') by {
      forall p | p in S' && p !in S && IsLattice(c, r, p) ensures Settled(c, r, S', p) {
        if p != (x, y) {
          assert p !in S + {(x, y)};
        }
      }
    }
  }

  /**
   * One pass of carve's loop (script.js:102-107): if the cell two steps away
   * is an interior wall, open the wall between and carve from there.
   */
  method CarveStep(g: array2<int>, x: int, y: int, d: Cell, swaps: nat -> seq<nat>, k: nat,
                   ghost S: set<Cell>, ghost parent: map<Cell, Cell>, ghost depth: map<Cell, nat>)
    returns (k': nat, ghost S': set<Cell>, ghost parent': map<Cell, Cell>, ghost depth': map<Cell, nat>)
    requires AllSwaps(swaps)
    requires IsLattice(g.Length1, g.Length0, (x, y)) && (x, y) in S && (x, y) in depth && IsStep(d)
    requires Carving(g, S, parent, depth)
    modifies g
    ensures Carving(g, S', parent', depth')
    ensures S <= S' && NeighbourDone(g.Length1, g.Length0, S', (x, y), d)
    ensures SettledSince(g.Length1, g.Length0, S, S')
    decreases LatticeCells(g.Length1, g.Length0) - S, 1
  {
    ghost var c, r := g.Length1, g.Length0;
    k', S', parent', depth' := k, S, parent, depth;
    var nx, ny := x + d.0, y + d.1;
    if 0 < nx && nx < g.Length1 - 1 && 0 < ny && ny < g.Length0 - 1 && g[ny, nx] == Wall {
      assert (nx, ny) !in S;
      var wx, wy := x + d.0 / 2, y + d.1 / 2;
      StepGeometry(c, r, (x, y), d);
      S', parent', depth' := OpenCell(g, wx, wy, S, (x, y), parent, depth);
      ghost var mid := S';
      assert (nx, ny) !in mid;
      NothingToSettle(c, r, S, (wx, wy));
      k', S', parent', depth' := Carve(g, nx, ny, swaps, k', S', (wx, wy), parent', depth');
      SettledSinceGrows(c, r, S, mid, S');
      assert Plus((x, y), d) in S';
    } else if Interior(c, r, Plus((x, y), d)) {
      assert g[ny, nx] != Wall;
    }
  }

  /** What a finished carving says about the grid. */
  lemma CarvedGrid(g: array2<int>, carved: set<Cell>, S: set<Cell>, parent: map<Cell, Cell>, depth: map<Cell, nat>)
    requires Carving(g, S, parent, depth)
    requires SettledSince(g.Length1, g.Length0, {}, carved) && Start in carved && carved <= S
    requires (2, 1) in S && (1, 2) in S
    ensures forall y, x :: 0 <= y < g.Length0 && 0 <= x < g.Length1 ==> g[y, x] == Wall || g[y, x] == Open
    ensures forall y, x :: IsBorder(g.Length1, g.Length0, (x, y)) ==> g[y, x] == Wall
    ensures forall y, x :: 0 <= y < g.Length0 && 0 <= x < g.Length1 && x % 2 == 0 && y % 2 == 0 ==> g[y, x] == Wall
    ensures g.Length0 > 2 && g.Length1 > 2 && g[1, 1] == Open && g[1, 2] == Open && g[2, 1] == Open
    ensures forall y, x :: IsLattice(g.Length1, g.Length0, (x, y)) ==> g[y, x] == Open
    ensures OpenCells(g) == S
    ensures forall p :: p in OpenCells(g) ==> Reachable(OpenCells(g), p)
  {
    ghost var c, r := g.Length1, g.Length0;
    forall y, x | IsLattice(c, r, (x, y)) ensures g[y, x] == Open {
      LatticeClosed(c, r, carved, (x, y));
    }
    assert OpenCells(g) == S;
    forall p | p in S ensures Reachable(S, p) {
      LinkedReachable(S, parent, depth, p);
    }
  }

  /**
   * generateMaze(c, r): an r x c grid of walls, carved from (1, 1), then the
   * cells (1, 1), (2, 1) and (1, 2) forced open as a safe pocket.
   */
  method GenerateMaze(c: int, r: int, swaps: nat -> seq<nat>) returns (grid: array2<int>)
    requires c % 2 == 1 && r % 2 == 1 && c >= 5 && r >= 5
    requires AllSwaps(swaps)
    ensures fresh(grid) && grid.Length0 == r && grid.Length1 == c
    ensures forall y, x :: 0 <= y < r && 0 <= x < c ==> grid[y, x] == Wall || grid[y, x] == Open
    ensures forall y, x :: IsBorder(c, r, (x, y)) ==> grid[y, x] == Wall
    ensures forall y, x :: 0 <= y < r && 0 <= x < c && x % 2 == 0 && y % 2 == 0 ==> grid[y, x] == Wall
    ensures grid[1, 1] == Open && grid[1, 2] == Open && grid[2, 1] == Open
    ensures forall y, x :: IsLattice(c, r, (x, y)) ==> grid[y, x] == Open
    ensures forall p :: p in OpenCells(grid) ==> Reachable(OpenCells(grid), p)
  {
    grid := new int[r, c]((_, _) => Wall);
    ghost var S: set<Cell> := {};
    ghost var parent: map<Cell, Cell> := map[];
    ghost var depth: map<Cell, nat> := map[Start := 0];
    assert Carving(grid, S, parent, depth);
    var k;
    k, S, parent, depth := Carve(grid, 1, 1, swaps, 0, S, Start, parent, depth);
    ghost var carved := S;
    assert (1, 1) in carved;
    S, parent, depth := OpenCell(grid, 1, 1, S, Start, parent, depth);
    S, parent, depth := OpenCell(grid, 2, 1, S, Start, parent, depth);
    S, parent, depth := OpenCell(grid, 1, 2, S, Start, parent, depth);
    CarvedGrid(grid, carved, S, parent, depth);
  }
}
