// Clones of the full game (script.js:165-199): a clone replays a snapshot of
// the player's moves, one cell per update; a wraith sometimes jumps ahead.

module Clones {
  import opened Maze

  datatype CloneKind = Basic | Wraith

  function RMin(a: real, b: real): real { if a < b then a else b }

  /** A draw of Math.random(). */
  predicate IsDraw(d: real) { 0.0 <= d < 1.0 }

  /**
   * Where a clone with cursor `index` stands: the cell it last stepped onto,
   * or, before its first update, path[0] (the start tile for an empty path).
   */
  function Position(path: seq<Cell>, index: int): Cell
    requires 0 <= index <= |path|
  {
    if index == 0 then (if |path| > 0 then path[0] else Start) else path[index - 1]
  }

  /** Chance that a wraith teleports on this frame (script.js:179). */
  function SkipChance(frame: int): (p: real)
    requires frame >= 0
    ensures 0.006 <= p <= 0.046
    ensures frame >= 2000 ==> p == 0.046
  {
    0.006 + RMin(0.04, frame as real / 50000.0)
  }

  lemma FloorBelow(a: real, n: nat)
    requires IsDraw(a)
    ensures 0 <= (a * n as real).Floor
    ensures n > 0 ==> (a * n as real).Floor < n
  {
    if n > 0 {
      assert a * n as real < n as real;
    }
  }

  /** Length of a wraith's teleport (script.js:181). */
  function JumpLength(amount: real, len: nat): (j: nat)
    requires IsDraw(amount)
    ensures j <= 40
    ensures j <= len && (len > 0 ==> j < len)
  {
    FloorBelow(amount, Min(200, len));
    Min(40, (amount * Min(200, len) as real).Floor)
  }

  /**
   * The cursor after one update (script.js:176-190): a wraith that wins the
   * skip roll first jumps ahead, clamped to the last index; then, while the
   * cursor is inside the path, the clone steps onto path[cursor] and the
   * cursor advances.
   */
  function NextCursor(kind: CloneKind, index: int, len: nat, roll: real, amount: real, frame: int): (r: int)
    requires IsDraw(roll) && IsDraw(amount) && frame >= 0
  {
    var j := if kind == Wraith && roll < SkipChance(frame) then Min(len - 1, index + JumpLength(amount, len)) else index;
    if j < len then j + 1 else j
  }

  /** The skip roll of a wraith's update. */
  predicate Teleports(kind: CloneKind, roll: real, frame: int)
    requires frame >= 0
  {
    kind == Wraith && roll < SkipChance(frame)
  }

  /**
   * The cursor, in closed form: one cell further per update (plus the jump
   * when a wraith teleports), never past the end of the path; it never moves
   * back, and a basic clone moves exactly one cell while the path lasts.
   */
  lemma NextCursorSpec(kind: CloneKind, index: int, len: nat, roll: real, amount: real, frame: int)
    requires 0 <= index <= len && IsDraw(roll) && IsDraw(amount) && frame >= 0
    requires kind == Wraith && len == 0 ==> roll >= SkipChance(frame)
    ensures var r := NextCursor(kind, index, len, roll, amount, frame);
      index <= r <= len &&
      (len > 0 ==> 1 <= r) &&
      r >= Min(index + 1, len) &&
      (kind == Basic ==> r == Min(index + 1, len)) &&
      r == Min(len, index + 1 + (if Teleports(kind, roll, frame) then JumpLength(amount, len) else 0))
  {
  }

  /** A basic clone's cursor after k updates from a fresh start. */
  function BasicCursor(len: nat, k: nat): (r: int)
    ensures 0 <= r <= len
  {
    if k == 0 then 0 else NextCursor(Basic, BasicCursor(len, k - 1), len, 0.0, 0.0, 0)
  }

  /** After k updates a basic clone has taken min(k, len) steps of its path. */
  lemma {:induction false} BasicCursorAfter(len: nat, k: nat)
    ensures BasicCursor(len, k) == Min(k, len)
  {
    if k > 0 {
      BasicCursorAfter(len, k - 1);
      NextCursorSpec(Basic, BasicCursor(len, k - 1), len, 0.0, 0.0, 0);
    }
  }

  /** A basic clone that has been updated at least once stands on path[min(k, len) - 1]. */
  lemma BasicReplayPosition(path: seq<Cell>, k: nat)
    requires k >= 1 && |path| > 0
    ensures Position(path, BasicCursor(|path|, k)) == path[Min(k, |path|) - 1]
  {
    BasicCursorAfter(|path|, k);
  }

  /** Chance that a new clone is a wraith (script.js:287). */
  function WraithThreshold(frame: int): (p: real)
    requires frame >= 0
    ensures 0.12 <= p <= 0.32
    ensures frame >= 1000 ==> p == 0.32
  {
    0.12 + RMin(0.2, frame as real / 5000.0)
  }

  /**
   * The type of a clone spawned on frame `frame` with type draw `draw`
   * (script.js:287): a draw below 0.12 always gives a wraith, one of 0.32
   * or more never does, and from frame 1000 on the cut is exactly 0.32.
   */
  function KindFor(draw: real, frame: int): (k: CloneKind)
    requires frame >= 0
    ensures draw < 0.12 ==> k == Wraith
    ensures draw >= 0.32 ==> k == Basic
    ensures frame >= 1000 ==> (k == Wraith <==> draw < 0.32)
  {
    if draw < WraithThreshold(frame) then Wraith else Basic
  }

  /** A draw that gives a wraith on some frame gives one on every later frame. */
  lemma WraithPersists(draw: real, frame: int, later: int)
    requires 0 <= frame <= later
    ensures KindFor(draw, frame) == Wraith ==> KindFor(draw, later) == Wraith
    ensures KindFor(draw, later) == Basic ==> KindFor(draw, frame) == Basic
  {
    assert frame as real / 5000.0 <= later as real / 5000.0;
  }

  class Clone {
    const path: seq<Cell>
    const kind: CloneKind
    const spawnFrame: int
    var index: int
    var x: int
    var y: int
    var frozen: bool
    /** Number of updates so far. */
    ghost var ticks: nat

    /**
     * The cursor stays in [0, len], the clone stands where the cursor says,
     * and it is never behind one cell per update (a basic clone is exactly
     * there).
     */
    ghost predicate Valid()
      reads this`index, this`x, this`y, this`ticks
    {
      0 <= index <= |path| &&
      (x, y) == Position(path, index) &&
      Min(ticks, |path|) <= index &&
      (kind == Basic ==> index == Min(ticks, |path|))
    }

    /** new Clone(path, type) (script.js:166-175); the path is copied. */
    constructor(path: seq<Cell>, kind: CloneKind, frame: int)
      ensures Valid()
      ensures this.path == path && this.kind == kind && spawnFrame == frame
      ensures index == 0 && ticks == 0 && !frozen
      ensures (x, y) == (if |path| > 0 then path[0] else Start)
    {
      this.path := path;
      this.kind := kind;
      spawnFrame := frame;
      index := 0;
      x := if |path| > 0 then path[0].0 else 1;
      y := if |path| > 0 then path[0].1 else 1;
      frozen := false;
      ticks := 0;
    }

    /**
     * update() (script.js:176-190). `roll` and `amount` are the two draws a
     * wraith makes; a wraith with an empty path that wins the roll would read
     * path[-1], which the source does not survive.
     */
    method Update(frame: int, roll: real, amount: real)
      requires Valid() && frame >= 0 && IsDraw(roll) && IsDraw(amount)
      requires kind == Wraith && |path| == 0 ==> roll >= SkipChance(frame)
      modifies this`index, this`x, this`y, this`ticks
      ensures Valid()
      ensures index == NextCursor(kind, old(index), |path|, roll, amount, frame)
      ensures ticks == old(ticks) + 1
    {
      NextCursorSpec(kind, index, |path|, roll, amount, frame);
      if kind == Wraith {
        if roll < SkipChance(frame) {
          var jump := JumpLength(amount, |path|);
          index := Min(|path| - 1, index + jump);
        }
      }
      if index < |path| {
        x, y := path[index].0, path[index].1;
        index := index + 1;
      }
      ticks := ticks + 1;
    }
  }
}
