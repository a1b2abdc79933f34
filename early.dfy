// The earlier version of the game (js/script.js): a fixed 20 x 11 maze with a
// goal cell, clones that replay the whole move log one cell per frame, and a
// frame loop that stops when a clone catches the player or the player reaches
// the goal.

module Early {
  import opened Maze
  import Clones
  import Game

  /** The value of the goal cell (js/script.js:19). */
  const Goal := 2

  /** Frames between two clone spawns (js/script.js:16). */
  const CloneInterval := 300

  /** The fixed layout, row by row (js/script.js:20-32): 1 wall, 0 empty, 2 goal. */
  const Layout: seq<seq<int>> := [
    [1,1,1,1,1,1,1,1,1,1,1,1,1,1,1,1,1,1,1,1],
    [1,0,0,0,0,0,0,1,0,0,0,1,0,0,0,0,0,0,2,1],
    [1,0,1,1,1,0,0,1,0,1,0,1,0,1,1,1,1,0,0,1],
    [1,0,0,0,1,0,0,0,0,1,0,0,0,1,0,0,1,0,0,1],
    [1,1,1,0,1,1,1,1,0,1,1,1,0,1,0,1,1,1,0,1],
    [1,0,0,0,0,0,0,1,0,0,0,1,0,0,0,0,0,1,0,1],
    [1,0,1,1,1,1,0,1,1,1,0,1,1,1,1,1,0,1,0,1],
    [1,0,0,0,0,1,0,0,0,1,0,0,0,0,0,1,0,0,0,1],
    [1,1,1,1,0,1,1,1,0,1,1,1,1,1,0,1,1,1,1,1],
    [1,0,0,0,0,0,0,1,0,0,0,1,0,0,0,0,0,0,0,1],
    [1,1,1,1,1,1,1,1,1,1,1,1,1,1,1,1,1,1,1,1]
  ]

  const Width := 20
  const Height := 11

  predicate InLayout(p: Cell)
  {
    0 <= p.0 < Width && 0 <= p.1 < Height
  }

  /** Every border cell is a wall, within one row. */
  lemma RowBorder(y: int)
    requires 0 <= y < Height
    ensures |Layout[y]| == Width && Layout[y][0] == Wall && Layout[y][Width - 1] == Wall
  {
  }

  /** A cell of the top or bottom row is a wall. */
  lemma EdgeRow(y: int, x: int)
    requires y == 0 || y == Height - 1
    requires 0 <= x < Width
    ensures |Layout[y]| == Width && Layout[y][x] == Wall
  {
    assert Layout[0] == seq(Width, _ => 1);
    assert Layout[Height - 1] == seq(Width, _ => 1);
  }

  /** No cell of row y other than (18, 1) holds the goal. */
  lemma NoGoalInRow(y: int, x: int)
    requires 0 <= y < Height && 0 <= x < Width && (x, y) != (18, 1)
    ensures |Layout[y]| == Width && Layout[y][x] != Goal
  {
    var row := Layout[y];
    assert forall k :: 0 <= k < |row| && k != 18 ==> row[k] == Wall || row[k] == Open;
  }

  /**
   * The layout: 11 rows of 20 cells, walls all around, the goal at (18, 1)
   * and nowhere else, and the start (1, 1) open.
   */
  lemma LayoutShape()
    ensures |Layout| == Height && forall y :: 0 <= y < Height ==> |Layout[y]| == Width
    ensures forall y, x :: 0 <= y < Height && 0 <= x < Width && (x == 0 || x == Width - 1 || y == 0 || y == Height - 1) ==>
      Layout[y][x] == Wall
    ensures forall y, x :: 0 <= y < Height && 0 <= x < Width ==> (Layout[y][x] == Goal <==> (x, y) == (18, 1))
    ensures Layout[1][1] == Open
  {
    forall y, x | 0 <= y < Height && 0 <= x < Width && (x == 0 || x == Width - 1 || y == 0 || y == Height - 1)
      ensures Layout[y][x] == Wall
    {
      if y == 0 || y == Height - 1 {
        EdgeRow(y, x);
      } else {
        RowBorder(y);
      }
    }
    forall y, x | 0 <= y < Height && 0 <= x < Width && (x, y) != (18, 1)
      ensures Layout[y][x] != Goal
    {
      NoGoalInRow(y, x);
    }
  }

  /** How a frame of the loop ended: still running, caught by a clone, or escaped. */
  datatype Status = Playing | Caught | Escaped

  /** A clone of this version: it replays a copy of the whole move log (js/script.js:52-67). */
  class Clone {
    const path: seq<Cell>
    var index: int
    var x: int
    var y: int
    /** Number of updates so far. */
    ghost var ticks: nat

    /**
     * After k updates the cursor is min(k, len) and the clone stands on
     * path[min(k, len) - 1] (path[0] before the first update).
     */
    ghost predicate Valid()
      reads this`index, this`x, this`y, this`ticks
    {
      |path| > 0 &&
      index == Min(ticks, |path|) &&
      (x, y) == Clones.Position(path, index)
    }

    /** new Clone(path) (js/script.js:53-59): path[0] must exist. */
    constructor(path: seq<Cell>)
      requires |path| > 0
      ensures Valid() && this.path == path && ticks == 0
      ensures (x, y) == path[0]
    {
      this.path := path;
      index := 0;
      x, y := path[0].0, path[0].1;
      ticks := 0;
    }

    /** update() (js/script.js:61-67): one step along the path, holding at its end. */
    method Update()
      requires Valid()
      modifies this`index, this`x, this`y, this`ticks
      ensures Valid() && ticks == old(ticks) + 1
      ensures index == Min(old(index) + 1, |path|)
      ensures (x, y) == path[Min(ticks, |path|) - 1]
    {
      if index < |path| {
        x, y := path[index].0, path[index].1;
        index := index + 1;
      }
      ticks := ticks + 1;
    }
  }

  class Run {
    /** The layout of this page; nothing writes to it. */
    const maze: seq<seq<int>>
    var px: int
    var py: int
    var movesHistory: seq<Cell>
    var clones: seq<Clone>
    var frameCount: nat
    /** Whether gameLoop still schedules frames. */
    var status: Status

    /** Height rows of Width cells, walls all around: what LayoutShape proves of the layout. */
    predicate Shaped()
    {
      |maze| == Height && (forall y :: 0 <= y < Height ==> |maze[y]| == Width) &&
      forall y, x :: 0 <= y < Height && 0 <= x < Width && (x == 0 || x == Width - 1 || y == 0 || y == Height - 1) ==>
        maze[y][x] == Wall
    }

    /** A cell the player may stand on: anything but a wall. */
    predicate Walkable(p: Cell)
    {
      InLayout(p) && p.1 < |maze| && p.0 < |maze[p.1]| && maze[p.1][p.0] != Wall
    }

    /**
     * A cell that is not a wall lies strictly inside the border, so its four
     * neighbours are in the layout: the move rule needs no bounds check.
     */
    lemma WalkableInterior(p: Cell)
      requires Shaped() && Walkable(p)
      ensures 1 <= p.0 <= Width - 2 && 1 <= p.1 <= Height - 2
      ensures forall q :: Adjacent(p, q) ==> InLayout(q)
    {
    }

    /** Every tile of the path can be stood on. */
    ghost predicate PathWalkable(path: seq<Cell>)
    {
      forall k :: 0 <= k < |path| ==> Walkable(path[k])
    }

    /** Clones are distinct objects replaying walkable paths. */
    ghost predicate ClonesOk()
      reads this`clones, clones`index, clones`x, clones`y, clones`ticks
    {
      (forall i, j :: 0 <= i < j < |clones| ==> clones[i] != clones[j]) &&
      (forall i :: 0 <= i < |clones| ==> clones[i].Valid() && PathWalkable(clones[i].path))
    }

    /** The layout, the player on a walkable tile, and a log of walkable tiles ending there. */
    ghost predicate BoardOk()
      reads this`px, this`py, this`movesHistory
    {
      Shaped() &&
      Walkable((px, py)) &&
      PathWalkable(movesHistory) &&
      (|movesHistory| > 0 ==> movesHistory[|movesHistory| - 1] == (px, py))
    }

    ghost predicate Valid()
      reads this`px, this`py, this`movesHistory, this`clones, clones`index, clones`x, clones`y, clones`ticks
    {
      BoardOk() && ClonesOk()
    }

    /** The page load (js/script.js:11-32): the fixed layout, the player on (1, 1), nothing logged, no clones. */
    constructor()
      ensures Valid() && maze == Layout
      ensures (px, py) == Start && movesHistory == [] && clones == [] && frameCount == 0 && status == Playing
    {
      maze := Layout;
      px, py := 1, 1;
      movesHistory := [];
      clones := [];
      frameCount := 0;
      status := Playing;
      LayoutShape();
    }

    /**
     * The keydown handler (js/script.js:35-49). The target is taken when it
     * is not a wall, so the goal can be entered; it is then logged. The
     * handler has no bounds check and none is needed: the target is always
     * inside the layout. Keys keep moving the player after the loop stopped.
     */
    method KeyDown(key: string)
      requires Valid()
      modifies this`px, this`py, this`movesHistory
      ensures Valid()
      ensures var t := Game.Target(old(px), old(py), key);
        InLayout(t) &&
        if maze[t.1][t.0] != Wall then
          (px, py) == t && movesHistory == old(movesHistory) + [t]
        else
          px == old(px) && py == old(py) && movesHistory == old(movesHistory)
    {
      var t := Game.Target(px, py, key);
      Game.TargetSpec(px, py, key);
      WalkableInterior((px, py));
      var newX, newY := t.0, t.1;
      if maze[newY][newX] != Wall {
        px, py := newX, newY;
        movesHistory := movesHistory + [(newX, newY)];
      }
    }

    /**
     * Clone c, now at cursor `index` after `ticks` updates, has been updated
     * once since it had cursor index0 after ticks0 updates.
     */
    ghost predicate Stepped(c: Clone, index: int, ticks: int, index0: int, ticks0: int)
    {
      ticks == ticks0 + 1 && index == Min(index0 + 1, |c.path|)
    }

    /** Clone c stands on the player's tile. */
    predicate Hits(c: Clone)
      reads this`px, this`py, c`x, c`y
    {
      c.x == px && c.y == py
    }

    /**
     * The clone pass of gameLoop (js/script.js:97-104): clones are updated
     * in list order, and the pass stops at the first one that then stands
     * on the player's tile; its index is the result (-1 when none does).
     * The clones after it are not updated.
     */
    method UpdateClones() returns (caughtAt: int)
      requires Valid()
      modifies clones`index, clones`x, clones`y, clones`ticks
      ensures Valid()
      ensures -1 <= caughtAt < |clones|
      ensures forall k :: 0 <= k < |clones| && (caughtAt < 0 || k <= caughtAt) ==>
        Stepped(clones[k], clones[k].index, clones[k].ticks, old(clones[k].index), old(clones[k].ticks))
      ensures forall k :: 0 <= caughtAt < k < |clones| ==>
        clones[k].index == old(clones[k].index) && clones[k].ticks == old(clones[k].ticks)
      ensures forall k :: 0 <= k < |clones| && (caughtAt < 0 || k < caughtAt) ==> !Hits(clones[k])
      ensures caughtAt >= 0 ==> Hits(clones[caughtAt])
    {
      var i := 0;
      while i < |clones|
        invariant 0 <= i <= |clones|
        invariant ClonesOk()
        invariant forall k :: 0 <= k < i ==>
          Stepped(clones[k], clones[k].index, clones[k].ticks, old(clones[k].index), old(clones[k].ticks))
        invariant forall k :: i <= k < |clones| ==>
          clones[k].index == old(clones[k].index) && clones[k].ticks == old(clones[k].ticks)
        invariant forall k :: 0 <= k < i ==> !Hits(clones[k])
      {
        var hit := StepClone(i, clones[i]);
        if hit {
          return i;
        }
        i := i + 1;
      }
      return -1;
    }

    /** One pass of the clone loop (js/script.js:98-103): clone i is updated; the result says whether it caught the player. */
    method StepClone(i: int, c: Clone) returns (hit: bool)
      requires ClonesOk() && 0 <= i < |clones| && c == clones[i]
      modifies c`index, c`x, c`y, c`ticks
      ensures ClonesOk()
      ensures Stepped(c, c.index, c.ticks, old(c.index), old(c.ticks))
      ensures hit <==> Hits(c)
    {
      c.Update();
      assert forall k :: 0 <= k < |clones| && k != i ==> clones[k] != c;
      hit := c.x == px && c.y == py;
    }

    /**
     * The end of a frame in which no clone caught the player (js/script.js:110-119):
     * on every 300th frame, when the log is not empty, a clone replaying the
     * whole log is added; then the loop stops as escaped when the player
     * stands on the goal.
     */
    method EndFrame()
      requires Valid() && status == Playing
      modifies this`clones, this`status
      ensures Valid()
      ensures if frameCount % CloneInterval == 0 && |movesHistory| > 0 then
          |clones| == |old(clones)| + 1 && clones == old(clones) + [clones[|old(clones)|]] &&
          fresh(clones[|old(clones)|]) && clones[|old(clones)|].path == movesHistory && clones[|old(clones)|].ticks == 0
        else clones == old(clones)
      ensures status == (if maze[py][px] == Goal then Escaped else Playing)
    {
      if frameCount % CloneInterval == 0 && |movesHistory| > 0 {
        var c := new Clone(movesHistory);
        clones := clones + [c];
      }
      if maze[py][px] == Goal {
        status := Escaped;
      }
    }

    /**
     * A frame of the running loop (js/script.js:77-119): the frame counter
     * advances and the clones are updated in list order; a catch stops the
     * loop before any spawn or goal check. If every clone missed, EndFrame
     * runs. The result is the index of the catching clone, or -1.
     */
    method Frame() returns (caughtAt: int)
      requires Valid() && status == Playing
      modifies this`frameCount, this`clones, this`status, clones`index, clones`x, clones`y, clones`ticks
      ensures Valid()
      ensures frameCount == old(frameCount) + 1 && -1 <= caughtAt < |old(clones)| <= |clones|
      ensures forall k :: 0 <= k < |old(clones)| && (caughtAt < 0 || k <= caughtAt) ==>
        Stepped(old(clones)[k], old(clones)[k].index, old(clones)[k].ticks, old(clones[k].index), old(clones[k].ticks))
      ensures forall k :: 0 <= k < |old(clones)| && (caughtAt < 0 || k < caughtAt) ==> !Hits(old(clones)[k])
      ensures caughtAt >= 0 ==> status == Caught && Hits(clones[caughtAt]) && clones == old(clones)
      ensures caughtAt >= 0 ==> forall k :: caughtAt < k < |old(clones)| ==>
        old(clones)[k].index == old(clones[k].index) && old(clones)[k].ticks == old(clones[k].ticks)
      ensures caughtAt < 0 ==>
        (if frameCount % CloneInterval == 0 && |movesHistory| > 0 then
           |clones| == |old(clones)| + 1 && clones == old(clones) + [clones[|old(clones)|]] &&
           clones[|old(clones)|].path == movesHistory
         else clones == old(clones)) &&
        status == (if maze[py][px] == Goal then Escaped else Playing)
    {
      frameCount := frameCount + 1;
      caughtAt := UpdateClones();
      assert clones == old(clones);
      if caughtAt >= 0 {
        status := Caught;
        return;
      }
      EndFrame();
    }

    /**
     * gameLoop (js/script.js:76-122) as the browser calls it: once the loop
     * has stopped (caught or escaped) no further frame runs; otherwise one
     * Frame runs.
     */
    method Tick() returns (caughtAt: int)
      requires Valid()
      modifies this`frameCount, this`clones, this`status, clones`index, clones`x, clones`y, clones`ticks
      ensures Valid()
      ensures old(status) != Playing ==>
        status == old(status) && frameCount == old(frameCount) && clones == old(clones) && caughtAt == -1
      ensures old(status) != Playing ==> forall k :: 0 <= k < |clones| ==>
        clones[k].index == old(clones[k].index) && clones[k].ticks == old(clones[k].ticks) &&
        clones[k].x == old(clones[k].x) && clones[k].y == old(clones[k].y)
      ensures old(status) == Playing ==>
        frameCount == old(frameCount) + 1 && -1 <= caughtAt < |old(clones)| <= |clones|
      ensures caughtAt >= 0 <==> status == Caught && old(status) == Playing
      ensures old(status) == Playing ==> forall k :: 0 <= k < |old(clones)| && (caughtAt < 0 || k <= caughtAt) ==>
        Stepped(old(clones)[k], old(clones)[k].index, old(clones)[k].ticks, old(clones[k].index), old(clones[k].ticks))
      ensures old(status) == Playing ==> forall k :: 0 <= k < |old(clones)| && (caughtAt < 0 || k < caughtAt) ==>
        !Hits(old(clones)[k])
      ensures caughtAt >= 0 ==> Hits(clones[caughtAt]) && clones == old(clones)
      ensures caughtAt >= 0 ==> forall k :: caughtAt < k < |old(clones)| ==>
        old(clones)[k].index == old(clones[k].index) && old(clones)[k].ticks == old(clones[k].ticks)
      ensures old(status) == Playing && caughtAt < 0 ==>
        (if frameCount % CloneInterval == 0 && |movesHistory| > 0 then
           |clones| == |old(clones)| + 1 && clones == old(clones) + [clones[|old(clones)|]] &&
           clones[|old(clones)|].path == movesHistory
         else clones == old(clones)) &&
        status == (if maze[py][px] == Goal then Escaped else Playing)
    {
      caughtAt := -1;
      if status == Playing {
        caughtAt := Frame();
      }
    }
  }
}
