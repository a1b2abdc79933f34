// The run state of the full game (script.js): the player on the carved maze,
// the move log, clones, power-up pickups and their effects, and the frame
// step that spawns and moves clones and ends the run on a collision.

module Game {
  import opened Maze
  import opened Clones

  datatype Option<T> = None | Some(value: T)

  datatype PowerKind = Speed | Cloak | Freeze

  /** POWER_TYPES (script.js:147). */
  const PowerTypes: seq<PowerKind> := [Speed, Cloak, Freeze]

  /** A pickup lying on tile (x, y), spawned at time `timer`. */
  datatype Pickup = Pickup(x: int, y: int, kind: PowerKind, timer: int)

  /** activePower: the effect of the last pickup and the time it ends. */
  datatype Effect = Effect(kind: PowerKind, until: int)

  // ---------------------------------------------------------------------------
  // Draws
  // ---------------------------------------------------------------------------

  /** randInt(a, b) (script.js:93) for the draw d. */
  function RandInt(a: int, b: int, d: real): (n: int)
    requires a <= b && IsDraw(d)
    ensures a <= n <= b
  {
    FloorBelow(d, b - a + 1);
    (d * (b - a + 1) as real).Floor + a
  }

  /** Every value of [a, b] is drawn by some draw. */
  lemma RandIntOnto(a: int, b: int, n: int)
    requires a <= n <= b
    ensures var d := (n - a) as real / (b - a + 1) as real;
      IsDraw(d) && RandInt(a, b, d) == n
  {
    var d := (n - a) as real / (b - a + 1) as real;
    assert d * (b - a + 1) as real == (n - a) as real;
  }

  /**
   * POWER_TYPES[randInt(0, 2)] (script.js:158): each kind takes a third of
   * the draws, in list order.
   */
  function KindDrawn(d: real): (k: PowerKind)
    requires IsDraw(d)
    ensures k == Speed <==> 3.0 * d < 1.0
    ensures k == Cloak <==> 1.0 <= 3.0 * d < 2.0
    ensures k == Freeze <==> 2.0 <= 3.0 * d
  {
    PowerTypes[RandInt(0, 2, d)]
  }

  // ---------------------------------------------------------------------------
  // Moves
  // ---------------------------------------------------------------------------

  /**
   * The tile a key aims at from (x, y) (script.js:246-250): each direction
   * key moves one tile; any other key aims at the current tile.
   */
  function Target(x: int, y: int, key: string): (t: Cell)
  {
    var ny := if key == "ArrowUp" || key == "w" then y - 1 else y;
    var ny' := if key == "ArrowDown" || key == "s" then ny + 1 else ny;
    var nx := if key == "ArrowLeft" || key == "a" then x - 1 else x;
    var nx' := if key == "ArrowRight" || key == "d" then nx + 1 else nx;
    (nx', ny')
  }

  predicate IsDirectionKey(key: string)
  {
    key in {"ArrowUp", "w", "ArrowDown", "s", "ArrowLeft", "a", "ArrowRight", "d"}
  }

  /** A direction key aims at the neighbouring tile in its direction; any other key at the tile itself. */
  lemma TargetSpec(x: int, y: int, key: string)
    ensures key == "ArrowUp" || key == "w" ==> Target(x, y, key) == (x, y - 1)
    ensures key == "ArrowDown" || key == "s" ==> Target(x, y, key) == (x, y + 1)
    ensures key == "ArrowLeft" || key == "a" ==> Target(x, y, key) == (x - 1, y)
    ensures key == "ArrowRight" || key == "d" ==> Target(x, y, key) == (x + 1, y)
    ensures IsDirectionKey(key) <==> Adjacent((x, y), Target(x, y, key))
    ensures !IsDirectionKey(key) <==> Target(x, y, key) == (x, y)
  {
  }

  // ---------------------------------------------------------------------------
  // Pickups on a tile
  // ---------------------------------------------------------------------------

  predicate At(p: Pickup, cell: Cell) { p.x == cell.0 && p.y == cell.1 }

  predicate SameTile(p: Pickup, q: Pickup) { p.x == q.x && p.y == q.y }

  /** The pickups not on `cell`, in their order. */
  function Remaining(ps: seq<Pickup>, cell: Cell): (r: seq<Pickup>)
    ensures |r| <= |ps|
  {
    if |ps| == 0 then [] else (if At(ps[0], cell) then [] else [ps[0]]) + Remaining(ps[1..], cell)
  }

  /** Removal keeps exactly the pickups not on the cell. */
  lemma {:induction false} RemainingMembers(ps: seq<Pickup>, cell: Cell)
    ensures forall p :: p in Remaining(ps, cell) <==> p in ps && !At(p, cell)
  {
    if |ps| > 0 {
      RemainingMembers(ps[1..], cell);
      assert ps == [ps[0]] + ps[1..];
    }
  }

  /** How many pickups of `ps` on `cell` are of kind `kind`. */
  function CountOn(ps: seq<Pickup>, cell: Cell, kind: PowerKind): nat
  {
    if |ps| == 0 then 0 else (if At(ps[0], cell) && ps[0].kind == kind then 1 else 0) + CountOn(ps[1..], cell, kind)
  }

  predicate AnyOn(ps: seq<Pickup>, cell: Cell)
  {
    exists i :: 0 <= i < |ps| && At(ps[i], cell)
  }

  /** Pickups never share a tile. */
  predicate DistinctTiles(ps: seq<Pickup>)
  {
    forall i, j :: 0 <= i < j < |ps| ==> !SameTile(ps[i], ps[j])
  }

  /** Distinct tiles survive removing every pickup on one tile. */
  lemma {:induction false} RemainingDistinct(ps: seq<Pickup>, cell: Cell)
    requires DistinctTiles(ps)
    ensures DistinctTiles(Remaining(ps, cell))
  {
    if |ps| > 0 {
      RemainingDistinct(ps[1..], cell);
      RemainingMembers(ps[1..], cell);
      var rest := Remaining(ps[1..], cell);
      forall j | 0 <= j < |rest| ensures !SameTile(ps[0], rest[j]) {
        assert rest[j] in ps[1..];
      }
    }
  }

  /** One step of the pickup loop, from the end of the list towards index i. */
  lemma CollectStep(e: Effects, ps: seq<Pickup>, i: int, cell: Cell, now: int)
    requires 0 <= i < |ps|
    ensures Remaining(ps[i..], cell) == (if At(ps[i], cell) then [] else [ps[i]]) + Remaining(ps[i + 1..], cell)
    ensures Collect(e, ps[i..], cell, now) ==
      (if At(ps[i], cell) then Apply(Collect(e, ps[i + 1..], cell, now), ps[i].kind, now) else Collect(e, ps[i + 1..], cell, now))
    ensures CountOn(ps[i..], cell, Freeze) > 0 <==> (At(ps[i], cell) && ps[i].kind == Freeze) || CountOn(ps[i + 1..], cell, Freeze) > 0
  {
    assert ps[i..][1..] == ps[i + 1..];
  }

  // ---------------------------------------------------------------------------
  // Effects (script.js:268-280, 362-366)
  // ---------------------------------------------------------------------------

  /** How long a pickup's effect lasts. */
  function Duration(kind: PowerKind): int
  {
    if kind == Freeze then 4000 else 6000
  }

  /** activePower together with player.speed, the only state an effect changes besides freezing. */
  datatype Effects = Effects(active: Option<Effect>, speed: int)

  /** applyPowerup on the effect state: the new effect replaces the old one; speed adds 4. */
  function Apply(e: Effects, kind: PowerKind, now: int): Effects
  {
    Effects(Some(Effect(kind, now + Duration(kind))), if kind == Speed then e.speed + 4 else e.speed)
  }

  /** The expiry in updateHUD: an effect whose time is up is dropped, a speed effect taking its 4 back. */
  function Expire(e: Effects, now: int): Effects
  {
    if e.active.Some? && now >= e.active.value.until then
      Effects(None, if e.active.value.kind == Speed then e.speed - 4 else e.speed)
    else e
  }

  predicate CloakActive(active: Option<Effect>, now: int)
  {
    active.Some? && active.value.kind == Cloak && now < active.value.until
  }

  /** Collecting the pickups of `qs` lying on `cell`, from the last to the first. */
  function Collect(e: Effects, qs: seq<Pickup>, cell: Cell, now: int): Effects
  {
    if |qs| == 0 then e
    else
      var e' := Collect(e, qs[1..], cell, now);
      if At(qs[0], cell) then Apply(e', qs[0].kind, now) else e'
  }

  /** The index of the first pickup of `qs` on `cell`. */
  function FirstOn(qs: seq<Pickup>, cell: Cell): (i: int)
    requires AnyOn(qs, cell)
    ensures 0 <= i < |qs| && At(qs[i], cell)
    ensures forall j :: 0 <= j < i ==> !At(qs[j], cell)
  {
    if At(qs[0], cell) then 0
    else
      assert AnyOn(qs[1..], cell) by {
        var i :| 0 <= i < |qs| && At(qs[i], cell);
        assert qs[1..][i - 1] == qs[i];
      }
      1 + FirstOn(qs[1..], cell)
  }

  /**
   * Collecting the pickups on a tile leaves the effect of the first of them
   * in the list (the last one applied) and adds 4 to the speed per speed
   * pickup; with none on the tile, nothing changes.
   */
  lemma {:induction false} CollectSpec(e: Effects, qs: seq<Pickup>, cell: Cell, now: int)
    ensures var r := Collect(e, qs, cell, now);
      r.speed == e.speed + 4 * CountOn(qs, cell, Speed) &&
      (AnyOn(qs, cell) ==> r.active == Some(Effect(qs[FirstOn(qs, cell)].kind, now + Duration(qs[FirstOn(qs, cell)].kind)))) &&
      (!AnyOn(qs, cell) ==> r.active == e.active)
  {
    if |qs| > 0 {
      CollectSpec(e, qs[1..], cell, now);
      if !At(qs[0], cell) {
        if AnyOn(qs, cell) {
          assert AnyOn(qs[1..], cell) && FirstOn(qs, cell) == 1 + FirstOn(qs[1..], cell);
        } else {
          assert !AnyOn(qs[1..], cell) by {
            forall i | 0 <= i < |qs[1..]| ensures !At(qs[1..][i], cell) {
              assert qs[1..][i] == qs[i + 1];
            }
          }
        }
      }
    }
  }

  /** With no pickup on the cell, the pickup loop removes nothing and applies nothing. */
  lemma {:induction false} NothingOn(e: Effects, ps: seq<Pickup>, cell: Cell, now: int)
    requires forall i :: 0 <= i < |ps| ==> !At(ps[i], cell)
    ensures Remaining(ps, cell) == ps && Collect(e, ps, cell, now) == e
  {
    if |ps| > 0 {
      NothingOn(e, ps[1..], cell, now);
      assert ps == [ps[0]] + ps[1..];
    }
  }

  /**
   * On distinct tiles a move collects at most one pickup, of any kind: the
   * loop removes at most one, and the effects are those of that single
   * pickup applied once, or unchanged when the tile holds none.
   */
  lemma {:induction false} CollectsAtMostOne(e: Effects, ps: seq<Pickup>, cell: Cell, now: int)
    requires DistinctTiles(ps)
    ensures |ps| - |Remaining(ps, cell)| <= 1
    ensures Collect(e, ps, cell, now) ==
      if AnyOn(ps, cell) then Apply(e, ps[FirstOn(ps, cell)].kind, now) else e
  {
    if |ps| > 0 {
      var rest := ps[1..];
      assert DistinctTiles(rest) by {
        forall i, j | 0 <= i < j < |rest| ensures !SameTile(rest[i], rest[j]) {
          assert rest[i] == ps[i + 1] && rest[j] == ps[j + 1];
        }
      }
      if At(ps[0], cell) {
        forall i | 0 <= i < |rest| ensures !At(rest[i], cell) {
          assert rest[i] == ps[i + 1] && !SameTile(ps[0], ps[i + 1]);
        }
        NothingOn(e, rest, cell, now);
      } else {
        CollectsAtMostOne(e, rest, cell, now);
        if AnyOn(ps, cell) {
          assert AnyOn(rest, cell) && FirstOn(ps, cell) == 1 + FirstOn(rest, cell);
        } else {
          assert !AnyOn(rest, cell) by {
            forall i | 0 <= i < |rest| ensures !At(rest[i], cell) {
              assert rest[i] == ps[i + 1];
            }
          }
        }
      }
    }
  }

  /** A speed effect that runs out gives its 4 back: speed is as before the pickup. */
  lemma ExpireUndoesSpeed(e: Effects, now: int, later: int)
    requires later >= now + Duration(Speed)
    ensures Expire(Apply(e, Speed, now), later) == Effects(None, e.speed)
  {
  }

  /** An effect is dropped exactly when its time is up, and expiring twice is expiring once. */
  lemma ExpireSpec(e: Effects, now: int)
    ensures var r := Expire(e, now);
      (r.active.Some? <==> e.active.Some? && now < e.active.value.until) &&
      (r.active.Some? ==> r == e) &&
      Expire(r, now) == r
  {
  }

  /**
   * A speed pickup overwritten by another pickup never gives its 4 back:
   * speed, cloak, then expiry leaves the player 4 faster than before.
   */
  lemma SpeedBonusOutlivesOverwrite(s: int, t: int)
    ensures Expire(Apply(Apply(Effects(None, s), Speed, t), Cloak, t), t + 6000).speed == s + 4
  {
  }

  // ---------------------------------------------------------------------------
  // Clone schedule (script.js:128-129, 381-387)
  // ---------------------------------------------------------------------------

  /** cloneInterval at the start of a run. */
  function InitialInterval(difficulty: int): int
  {
    if 280 - difficulty * 80 < 80 then 80 else 280 - difficulty * 80
  }

  /** The difficulty ramp after a spawn. */
  function Ramp(ci: int, difficulty: int): int
  {
    if ci > 60 then ci - (1 + difficulty) else ci
  }

  /** The interval after k ramps from the start of a run. */
  function RampN(difficulty: int, k: nat): int
  {
    if k == 0 then InitialInterval(difficulty) else Ramp(RampN(difficulty, k - 1), difficulty)
  }

  /**
   * The interval starts at 280, 200 or 120, never goes up, and never falls
   * below 60 - difficulty.
   */
  lemma {:induction false} RampBounds(difficulty: int, k: nat)
    requires 0 <= difficulty <= 2
    ensures 60 - difficulty <= RampN(difficulty, k) <= InitialInterval(difficulty)
    ensures InitialInterval(difficulty) == 280 - 80 * difficulty
    ensures k > 0 ==> RampN(difficulty, k) <= RampN(difficulty, k - 1)
  {
    if k > 0 {
      RampBounds(difficulty, k - 1);
    }
  }

  /** For q > 0, the floor of p / q over the rationals is Dafny's integer division. */
  lemma FloorOfQuotient(p: int, q: int)
    requires q > 0
    ensures (p as real / q as real).Floor == p / q
  {
    var k, m := p / q, p % q;
    assert p as real / q as real == k as real + m as real / q as real;
    assert 0.0 <= m as real / q as real < 1.0;
  }

  /**
   * The spawn period max(20, floor(cloneInterval / (1 + difficulty * 0.6))),
   * computed on integers as floor(5 * cloneInterval / (5 + 3 * difficulty)).
   */
  function SpawnPeriod(ci: int, difficulty: int): (n: int)
    requires 0 <= difficulty <= 2
    ensures n >= 20
  {
    Max(20, if difficulty == 0 then ci else if difficulty == 1 then 5 * ci / 8 else 5 * ci / 11)
  }

  /** The integer form of the spawn period is the source's formula over exact rationals. */
  lemma SpawnPeriodIsFloor(ci: int, difficulty: int)
    requires 0 <= difficulty <= 2
    ensures SpawnPeriod(ci, difficulty) == Max(20, (ci as real / (1.0 + difficulty as real * 0.6)).Floor)
  {
    assert ci as real / (1.0 + difficulty as real * 0.6) == (5 * ci) as real / (5 + 3 * difficulty) as real;
    FloorOfQuotient(5 * ci, 5 + 3 * difficulty);
    assert 5 * ci / (5 + 3 * difficulty) ==
      if difficulty == 0 then ci else if difficulty == 1 then 5 * ci / 8 else 5 * ci / 11;
  }

  /** Chance of an extra clone after a scheduled spawn. */
  function ExtraChance(difficulty: int): real
  {
    0.02 + difficulty as real * 0.03
  }

  /** The last min(800, n) entries of the move log, in order. */
  function Snapshot(h: seq<Cell>): (s: seq<Cell>)
    ensures |s| == Min(800, |h|)
  {
    h[|h| - Min(800, |h|)..]
  }

  /** The snapshot is the suffix of the log of that length: the log is what came before it, then it. */
  lemma SnapshotIsSuffix(h: seq<Cell>)
    ensures h == h[..|h| - |Snapshot(h)|] + Snapshot(h)
  {
  }

  // ---------------------------------------------------------------------------
  // Game over (script.js:300-303) and the timer
  // ---------------------------------------------------------------------------

  /** Whole seconds since the run started. */
  function Elapsed(now: int, start: int): (s: int)
    ensures s * 1000 <= now - start < (s + 1) * 1000
  {
    (now - start) / 1000
  }

  /** The best time stored after a run of `elapsed` seconds. */
  function StoredBest(prevBest: int, elapsed: int): (b: int)
    ensures b >= prevBest && b >= elapsed
    ensures b == prevBest || b == elapsed
  {
    if elapsed > prevBest then elapsed else prevBest
  }

  predicate NewRecord(prevBest: int, elapsed: int)
  {
    elapsed > prevBest
  }

  /** A new record is announced exactly when the stored best changes. */
  lemma NewRecordSpec(prevBest: int, elapsed: int)
    ensures NewRecord(prevBest, elapsed) <==> StoredBest(prevBest, elapsed) != prevBest
  {
  }

  // ---------------------------------------------------------------------------
  // The run state
  // ---------------------------------------------------------------------------

  /**
   * Clone c, frozen or not, whose cursor and update count went from
   * (index0, ticks0) to (index, ticks) in this frame's pass: a frozen clone
   * is left alone, any other one is updated once with the draws d.
   */
  ghost predicate Advanced(c: Clone, frozen: bool, index: int, ticks: int, index0: int, ticks0: int,
                           d: (real, real), frame: int)
  {
    IsDraw(d.0) && IsDraw(d.1) && frame >= 0 &&
    if frozen then index == index0 && ticks == ticks0
    else index == NextCursor(c.kind, index0, |c.path|, d.0, d.1, frame) && ticks == ticks0 + 1
  }

  /**
   * What a clone spawned on frame `frame` from the move log `log` with the
   * type draw `draw` keeps for good: it replays the last min(800, n) moves,
   * its type follows the wraith threshold, and it records its frame.
   */
  ghost predicate Born(c: Clone, log: seq<Cell>, frame: int, draw: real)
    requires frame >= 0
  {
    c.path == Snapshot(log) && c.kind == KindFor(draw, frame) && c.spawnFrame == frame
  }

  /**
   * Clone c after the clone pass, which reached it when `visited` holds:
   * `Advanced` if reached, otherwise cursor and update count unchanged.
   */
  ghost predicate Passed(c: Clone, frozen: bool, index: int, ticks: int, index0: int, ticks0: int,
                         d: (real, real), frame: int, visited: bool)
  {
    if visited then Advanced(c, frozen, index, ticks, index0, ticks0, d, frame) else index == index0 && ticks == ticks0
  }

  /** The open cells of a grid held as rows (m[y][x]). */
  ghost function OpenSet(m: seq<seq<int>>): set<Cell>
  {
    set y, x | 0 <= y < |m| && 0 <= x < |m[y]| && m[y][x] == Open :: (x, y)
  }

  class RunState {
    /**
     * The maze of this run, row by row (maze[y][x]). Nothing writes to it
     * once generated, so it is held as a value; a reset is a new RunState.
     */
    const maze: seq<seq<int>>
    const cols: int
    const rows: int
    var px: int
    var py: int
    /** player.speed: a counter only; it plays no part in stepping. */
    var speed: int
    var movesHistory: seq<Cell>
    var clones: seq<Clone>
    var powerups: seq<Pickup>
    var activePower: Option<Effect>
    var frameCount: int
    var cloneInterval: int
    var running: bool
    const startTime: int
    /** SETTINGS.difficulty, 0 (easy) to 2 (hard). */
    const difficulty: int

    predicate InGrid(x: int, y: int)
    {
      0 <= x < cols && 0 <= y < rows
    }

    /** The grid has rows rows of cols cells. */
    predicate Shaped()
    {
      |maze| == rows && forall y :: 0 <= y < rows ==> |maze[y]| == cols
    }

    predicate OpenTile(x: int, y: int)
    {
      InGrid(x, y) && y < |maze| && x < |maze[y]| && maze[y][x] == Open
    }

    /** The grid, the player, the move log and the schedule. */
    ghost predicate BoardOk()
      reads this`px, this`py, this`movesHistory, this`frameCount, this`cloneInterval
    {
      Shaped() &&
      cols >= 5 && rows >= 5 &&
      0 <= difficulty <= 2 &&
      OpenTile(px, py) &&
      PathOpen(movesHistory) &&
      (|movesHistory| > 0 ==> movesHistory[|movesHistory| - 1] == (px, py)) &&
      frameCount >= 0 &&
      60 - difficulty <= cloneInterval <= InitialInterval(difficulty)
    }

    /** Every tile of the path is an open tile of the grid. */
    ghost predicate PathOpen(path: seq<Cell>)
    {
      forall k :: 0 <= k < |path| ==> OpenTile(path[k].0, path[k].1)
    }

    /** A snapshot of an open path is open. */
    lemma SnapshotOpen(h: seq<Cell>)
      requires PathOpen(h)
      ensures PathOpen(Snapshot(h))
    {
      var s := Snapshot(h);
      SnapshotIsSuffix(h);
      forall k | 0 <= k < |s| ensures OpenTile(s[k].0, s[k].1) {
        assert s[k] == (h[..|h| - |s|] + s)[|h| - |s| + k];
      }
    }

    /** A clone replaying a path of 4 to 800 open tiles. */
    ghost predicate CloneOk(c: Clone)
      reads c`index, c`x, c`y, c`ticks
    {
      c.Valid() && 4 <= |c.path| <= 800 && PathOpen(c.path)
    }

    /** Clones are distinct objects, each CloneOk. */
    ghost predicate ClonesOk()
      reads this`clones, clones`index, clones`x, clones`y, clones`ticks
    {
      (forall i, j :: 0 <= i < j < |clones| ==> clones[i] != clones[j]) &&
      (forall c :: c in clones ==> CloneOk(c))
    }

    /** Pickups lie on open interior tiles, one per tile. */
    ghost predicate PickupsPlaced()
      reads this`powerups
    {
      DistinctTiles(powerups) &&
      forall p :: p in powerups ==> 1 <= p.x <= cols - 2 && 1 <= p.y <= rows - 2 && OpenTile(p.x, p.y)
    }

    /** ... and never under the player. */
    ghost predicate PickupsOk()
      reads this`powerups, this`px, this`py
    {
      PickupsPlaced() && forall p :: p in powerups ==> !At(p, (px, py))
    }

    ghost predicate Valid()
      reads this`px, this`py, this`movesHistory, this`frameCount, this`cloneInterval, this`clones, this`powerups,
        clones`index, clones`x, clones`y, clones`ticks
    {
      BoardOk() && ClonesOk() && PickupsOk()
    }

    /**
     * resetGame (script.js:117-141) on a canvas of width x height pixels:
     * a fresh maze, the player on (1, 1), empty logs and the difficulty's
     * first interval. `carried` is activePower as the last run left it:
     * resetGame does not clear it. The fallback to (1, 1) when the start
     * tile is a wall (script.js:139-141) never applies: the generator always
     * opens (1, 1), as Valid() records.
     */
    constructor(width: int, height: int, difficulty: int, swaps: nat -> seq<nat>, now: int, carried: Option<Effect>)
      requires width >= 5 * TileSize && height >= 5 * TileSize
      requires 0 <= difficulty <= 2 && AllSwaps(swaps)
      ensures Valid()
      ensures cols == GridDimension(width) && rows == GridDimension(height)
      ensures forall p :: p in OpenSet(maze) ==> Reachable(OpenSet(maze), p)
      ensures (px, py) == Start && speed == 6 + difficulty * 2
      ensures movesHistory == [] && clones == [] && powerups == []
      ensures frameCount == 0 && cloneInterval == InitialInterval(difficulty) && running
      ensures startTime == now && activePower == carried && this.difficulty == difficulty
    {
      var c, r := GridDimension(width), GridDimension(height);
      var grid := GenerateMaze(c, r, swaps);
      cols, rows := c, r;
      var m := seq(r, y requires 0 <= y < r reads grid => seq(c, x requires 0 <= x < c reads grid => grid[y, x]));
      assert OpenSet(m) == OpenCells(grid);
      maze := m;
      px, py := 1, 1;
      speed := 6 + difficulty * 2;
      movesHistory := [];
      clones := [];
      powerups := [];
      frameCount := 0;
      cloneInterval := InitialInterval(difficulty);
      running := true;
      startTime := now;
      activePower := carried;
      this.difficulty := difficulty;
    }

    // -------------------------------------------------------------------------
    // Effects
    // -------------------------------------------------------------------------

    /** clones.forEach(c => c.frozen = true) (script.js:277). */
    method FreezeAll()
      modifies clones`frozen
      ensures forall c :: c in clones ==> c.frozen
    {
      forall i | 0 <= i < |clones| {
        clones[i].frozen := true;
      }
    }

    /** The timer's clones.forEach(c => c.frozen = false) (script.js:278), on the clones of its time. */
    method Unfreeze()
      modifies clones`frozen
      ensures forall c :: c in clones ==> !c.frozen
    {
      forall i | 0 <= i < |clones| {
        clones[i].frozen := false;
      }
    }

    /**
     * applyPowerup(type) (script.js:268-280): the new effect replaces the
     * active one; speed adds 4 to player.speed; freeze freezes every clone
     * present now.
     */
    method ApplyPowerup(kind: PowerKind, now: int)
      modifies this`activePower, this`speed, clones`frozen
      ensures Effects(activePower, speed) == Apply(old(Effects(activePower, speed)), kind, now)
      ensures forall c :: c in clones ==> c.frozen == (old(c.frozen) || kind == Freeze)
    {
      if kind == Speed {
        activePower := Some(Effect(Speed, now + 6000));
        speed := speed + 4;
      } else if kind == Cloak {
        activePower := Some(Effect(Cloak, now + 6000));
      } else {
        activePower := Some(Effect(Freeze, now + 4000));
        FreezeAll();
      }
    }

    /** The expiry in updateHUD (script.js:358-367). */
    method ExpireEffect(now: int)
      requires Valid()
      modifies this`activePower, this`speed
      ensures Valid() && frameCount == old(frameCount)
      ensures Effects(activePower, speed) == Expire(old(Effects(activePower, speed)), now)
    {
      if activePower.Some? && now >= activePower.value.until {
        if activePower.value.kind == Speed {
          speed := speed - 4;
        }
        activePower := None;
      }
    }

    // -------------------------------------------------------------------------
    // Moves
    // -------------------------------------------------------------------------

    /**
     * The keydown handler (script.js:243-264). A move is taken only while
     * running and only onto an open tile of the grid; the tile is logged and
     * every pickup on it is collected, from the last in the list to the
     * first. A refused move changes nothing.
     */
    method KeyDown(key: string, now: int)
      requires Valid()
      modifies this`px, this`py, this`movesHistory, this`powerups, this`activePower, this`speed, clones`frozen
      ensures Valid()
      ensures var t := Target(old(px), old(py), key);
        if old(running) && OpenTile(t.0, t.1) then
          (px, py) == t && movesHistory == old(movesHistory) + [t] &&
          powerups == Remaining(old(powerups), t) && |old(powerups)| - |powerups| <= 1 &&
          Effects(activePower, speed) == Collect(old(Effects(activePower, speed)), old(powerups), t, now) &&
          (forall c :: c in clones ==> c.frozen == (old(c.frozen) || CountOn(old(powerups), t, Freeze) > 0))
        else
          px == old(px) && py == old(py) && movesHistory == old(movesHistory) && powerups == old(powerups) &&
          activePower == old(activePower) && speed == old(speed) &&
          (forall c :: c in clones ==> c.frozen == old(c.frozen))
    {
      if !running {
        return;
      }
      var t := Target(px, py, key);
      var nx, ny := t.0, t.1;
      if 0 <= nx < cols && 0 <= ny < rows && maze[ny][nx] == Open {
        MoveTo(t, now);
      }
    }

    /**
     * An accepted move of the keydown handler (script.js:251-262): the
     * player steps onto the open tile t, which is logged, and the pickups on
     * it (at most one) are applied and removed.
     */
    method MoveTo(t: Cell, now: int)
      requires Valid() && OpenTile(t.0, t.1)
      modifies this`px, this`py, this`movesHistory, this`powerups, this`activePower, this`speed, clones`frozen
      ensures Valid()
      ensures (px, py) == t && movesHistory == old(movesHistory) + [t]
      ensures powerups == Remaining(old(powerups), t) && |old(powerups)| - |powerups| <= 1
      ensures Effects(activePower, speed) == Collect(old(Effects(activePower, speed)), old(powerups), t, now)
      ensures forall c :: c in clones ==> c.frozen == (old(c.frozen) || CountOn(old(powerups), t, Freeze) > 0)
    {
      px, py := t.0, t.1;
      movesHistory := movesHistory + [t];
      CollectPickups(t, now);
    }

    /**
     * The pickup loop of the keydown handler (script.js:255-262): walking the
     * list from the end, every pickup on `t` is applied and spliced out.
     */
    method CollectPickups(t: Cell, now: int)
      requires PickupsPlaced()
      modifies this`powerups, this`activePower, this`speed, clones`frozen
      ensures powerups == Remaining(old(powerups), t)
      ensures PickupsPlaced() && forall p :: p in powerups ==> !At(p, t)
      ensures Effects(activePower, speed) == Collect(old(Effects(activePower, speed)), old(powerups), t, now)
      ensures forall c :: c in clones ==> c.frozen == (old(c.frozen) || CountOn(old(powerups), t, Freeze) > 0)
      ensures |old(powerups)| - |powerups| <= 1
      ensures Effects(activePower, speed) ==
        if AnyOn(old(powerups), t) then Apply(old(Effects(activePower, speed)), old(powerups)[FirstOn(old(powerups), t)].kind, now)
        else old(Effects(activePower, speed))
    {
      ghost var ps := powerups;
      ghost var e0 := Effects(activePower, speed);
      var i := |powerups| - 1;
      while i >= 0
        invariant -1 <= i < |ps|
        invariant i + 1 <= |powerups| && powerups[..i + 1] == ps[..i + 1]
        invariant powerups[i + 1..] == Remaining(ps[i + 1..], t)
        invariant Effects(activePower, speed) == Collect(e0, ps[i + 1..], t, now)
        invariant forall c :: c in clones ==> c.frozen == (old(c.frozen) || CountOn(ps[i + 1..], t, Freeze) > 0)
      {
        CollectStep(e0, ps, i, t, now);
        assert powerups[i] == ps[i];
        if powerups[i].x == t.0 && powerups[i].y == t.1 {
          ApplyPowerup(powerups[i].kind, now);
          assert (powerups[..i] + powerups[i + 1..])[..i] == powerups[..i] == ps[..i];
          powerups := powerups[..i] + powerups[i + 1..];
        } else {
          assert powerups[i..] == [powerups[i]] + powerups[i + 1..];
        }
        i := i - 1;
      }
      assert ps[0..] == ps && powerups[0..] == powerups;
      RemainingDistinct(ps, t);
      RemainingMembers(ps, t);
      CollectsAtMostOne(e0, ps, t, now);
    }

    // -------------------------------------------------------------------------
    // Pickups
    // -------------------------------------------------------------------------

    /** The tile aimed at by one attempt's pair of draws (script.js:152-153). */
    function Candidate(d: (real, real)): (t: Cell)
      requires cols >= 3 && rows >= 3 && IsDraw(d.0) && IsDraw(d.1)
      ensures 1 <= t.0 <= cols - 2 && 1 <= t.1 <= rows - 2
    {
      (RandInt(1, cols - 2, d.0), RandInt(1, rows - 2, d.1))
    }

    /** A tile a pickup may take, the player being on `player`: open, not the player's, holding none of `ps`. */
    predicate Free(t: Cell, player: Cell, ps: seq<Pickup>)
    {
      OpenTile(t.0, t.1) && t != player && !AnyOn(ps, t)
    }

    /** The first of the attempts tries[k..] that aims at a free tile, or |tries| when none does. */
    function FirstFree(tries: seq<(real, real)>, k: nat, player: Cell, ps: seq<Pickup>): (r: int)
      requires k <= |tries| && cols >= 3 && rows >= 3
      requires forall u :: 0 <= u < |tries| ==> IsDraw(tries[u].0) && IsDraw(tries[u].1)
      ensures k <= r <= |tries|
      ensures r < |tries| ==> Free(Candidate(tries[r]), player, ps)
      ensures forall u :: k <= u < r ==> !Free(Candidate(tries[u]), player, ps)
      decreases |tries| - k
    {
      if k == |tries| then k
      else if Free(Candidate(tries[k]), player, ps) then k
      else FirstFree(tries, k + 1, player, ps)
    }

    /**
     * The pickups after a spawn attempt with the draws `tries` and `typeDraw`
     * at time `now`, the player being on `player`: the first attempt that
     * aims at a free tile adds a pickup there; when none does, nothing is
     * added.
     */
    function WithPickup(ps: seq<Pickup>, player: Cell, tries: seq<(real, real)>, typeDraw: real, now: int): seq<Pickup>
      requires cols >= 3 && rows >= 3 && IsDraw(typeDraw)
      requires forall u :: 0 <= u < |tries| ==> IsDraw(tries[u].0) && IsDraw(tries[u].1)
    {
      var r := FirstFree(tries, 0, player, ps);
      if r == |tries| then ps
      else ps + [Pickup(Candidate(tries[r]).0, Candidate(tries[r]).1, KindDrawn(typeDraw), now)]
    }

    /**
     * A spawn adds at most one pickup, at the end; the new one lies on an
     * open interior tile, not the player's and not another pickup's; and
     * nothing is added only when every attempt missed.
     */
    lemma WithPickupSpec(ps: seq<Pickup>, player: Cell, tries: seq<(real, real)>, typeDraw: real, now: int)
      requires cols >= 3 && rows >= 3 && IsDraw(typeDraw)
      requires forall u :: 0 <= u < |tries| ==> IsDraw(tries[u].0) && IsDraw(tries[u].1)
      ensures var qs := WithPickup(ps, player, tries, typeDraw, now);
        |ps| <= |qs| <= |ps| + 1 && qs[..|ps|] == ps &&
        (|qs| == |ps| <==> forall u :: 0 <= u < |tries| ==> !Free(Candidate(tries[u]), player, ps)) &&
        (|qs| == |ps| + 1 ==>
          var p := qs[|ps|];
          1 <= p.x <= cols - 2 && 1 <= p.y <= rows - 2 && OpenTile(p.x, p.y) &&
          (p.x, p.y) != player && !AnyOn(ps, (p.x, p.y)) && p.kind == KindDrawn(typeDraw) && p.timer == now)
    {
      var r := FirstFree(tries, 0, player, ps);
      if r < |tries| {
        var t := Candidate(tries[r]);
        assert Free(t, player, ps);
      }
    }

    /**
     * spawnPowerup (script.js:148-162): up to 200 attempts, each on a random
     * interior tile; the first attempt that hits a free tile adds a pickup of
     * a random kind there, stamped with the time `now`; when none does,
     * nothing changes. `tries[k]` are the draws of attempt k.
     */
    method SpawnPowerup(now: int, tries: seq<(real, real)>, typeDraw: real)
      requires Valid() && |tries| == 200 && IsDraw(typeDraw)
      requires forall k :: 0 <= k < |tries| ==> IsDraw(tries[k].0) && IsDraw(tries[k].1)
      modifies this`powerups
      ensures Valid()
      ensures powerups == WithPickup(old(powerups), (px, py), tries, typeDraw, now)
    {
      var attempts := 0;
      while attempts < 200
        invariant 0 <= attempts <= 200
        invariant powerups == old(powerups)
        invariant FirstFree(tries, 0, (px, py), powerups) == FirstFree(tries, attempts, (px, py), powerups)
      {
        var x := RandInt(1, cols - 2, tries[attempts].0);
        var y := RandInt(1, rows - 2, tries[attempts].1);
        attempts := attempts + 1;
        if maze[y][x] == Open && !(x == px && y == py) {
          if AnyOn(powerups, (x, y)) {
            continue;
          }
          powerups := powerups + [Pickup(x, y, KindDrawn(typeDraw), now)];
          break;
        }
      }
    }

    // -------------------------------------------------------------------------
    // Clones
    // -------------------------------------------------------------------------

    /**
     * spawnClone (script.js:283-293): with at least 4 moves logged, a new
     * clone replays the last min(800, n) of them; it is a wraith when the
     * draw is below the wraith threshold.
     */
    method SpawnClone(draw: real)
      requires ClonesOk() && PathOpen(movesHistory) && frameCount >= 0
      modifies this`clones
      ensures ClonesOk()
      ensures |movesHistory| < 4 ==> clones == old(clones)
      ensures |movesHistory| >= 4 ==>
        |clones| == |old(clones)| + 1 && clones[..|old(clones)|] == old(clones) &&
        fresh(clones[|old(clones)|]) && Spawned(clones[|old(clones)|], draw)
    {
      if |movesHistory| < 4 {
        return;
      }
      var snap := Snapshot(movesHistory);
      var kind := KindFor(draw, frameCount);
      var c := new Clone(snap, kind, frameCount);
      SnapshotOpen(movesHistory);
      clones := clones + [c];
    }

    /**
     * A clone just made by spawnClone with the type draw `draw`: it replays
     * the last min(800, n) moves, its type follows the wraith threshold, it
     * has not been updated yet and stands on the first tile of its path.
     */
    ghost predicate Spawned(c: Clone, draw: real)
      reads this`movesHistory, this`frameCount, c`index, c`ticks, c`frozen, c`x, c`y
      requires frameCount >= 0
    {
      Born(c, movesHistory, frameCount, draw) && c.index == 0 && c.ticks == 0 && !c.frozen &&
      |c.path| > 0 && (c.x, c.y) == c.path[0]
    }

    /** The clone stands on the player's tile. */
    predicate Hits(c: Clone)
      reads this`px, this`py, c`x, c`y
    {
      c.x == px && c.y == py
    }

    /**
     * The clone pass of gameLoop (script.js:390-402): from the last clone to
     * the first, each clone that is not frozen is updated; the first one to
     * land on the player's tile while no cloak is active ends the run, and
     * the clones before it in the list are not updated this frame.
     * `draws[k]` are clone k's two draws. The result is the index of the
     * clone that caught the player, or -1.
     */
    method UpdateClones(now: int, draws: seq<(real, real)>) returns (caughtAt: int)
      requires Valid() && running && |draws| >= |clones|
      requires forall k :: 0 <= k < |draws| ==> IsDraw(draws[k].0) && IsDraw(draws[k].1)
      modifies this`running, clones`index, clones`x, clones`y, clones`ticks
      ensures Valid() && frameCount == old(frameCount)
      ensures -1 <= caughtAt < |clones| && running == (caughtAt < 0)
      ensures forall k :: 0 <= k < |clones| ==>
        Passed(clones[k], clones[k].frozen, clones[k].index, clones[k].ticks, old(clones[k].index), old(clones[k].ticks), draws[k], frameCount, caughtAt <= k)
      ensures caughtAt >= 0 ==> !clones[caughtAt].frozen && Hits(clones[caughtAt]) && !CloakActive(activePower, now)
      ensures forall k :: caughtAt < k < |clones| && !clones[k].frozen && Hits(clones[k]) ==> CloakActive(activePower, now)
    {
      caughtAt := -1;
      var i := |clones| - 1;
      while i >= 0
        invariant -1 <= i < |clones|
        invariant running && caughtAt == -1
        invariant ClonesOk()
        invariant forall k :: 0 <= k < |clones| ==>
          Passed(clones[k], clones[k].frozen, clones[k].index, clones[k].ticks, old(clones[k].index), old(clones[k].ticks), draws[k], frameCount, i < k)
        invariant forall k :: i < k < |clones| && !clones[k].frozen && Hits(clones[k]) ==> CloakActive(activePower, now)
      {
        var caught := StepClone(i, clones[i], now, draws[i]);
        if caught {
          running := false;
          caughtAt := i;
          return;
        }
        i := i - 1;
      }
    }

    /**
     * One pass of the clone loop (script.js:391-401): clone i, unless frozen,
     * is updated; the result says whether it caught the player (on the
     * player's tile, no cloak active).
     */
    method StepClone(i: int, c: Clone, now: int, d: (real, real)) returns (caught: bool)
      requires ClonesOk() && 0 <= i < |clones| && c == clones[i]
      requires IsDraw(d.0) && IsDraw(d.1) && frameCount >= 0
      modifies c`index, c`x, c`y, c`ticks
      ensures ClonesOk()
      ensures Advanced(c, c.frozen, c.index, c.ticks, old(c.index), old(c.ticks), d, frameCount)
      ensures caught <==> !c.frozen && Hits(c) && !CloakActive(activePower, now)
    {
      caught := false;
      if !c.frozen {
        assert CloneOk(c);
        c.Update(frameCount, d.0, d.1);
        caught := c.x == px && c.y == py && !CloakActive(activePower, now);
        assert forall k :: 0 <= k < |clones| && k != i ==> clones[k] != c;
      }
    }

    // -------------------------------------------------------------------------
    // The frame
    // -------------------------------------------------------------------------

    /**
     * The clone schedule fires on frame `frame` with interval `ci` and
     * `moves` moves logged: the spawn period divides the frame number and
     * more than 8 moves are logged.
     */
    predicate SpawnDue(frame: int, ci: int, moves: int)
      requires 0 <= difficulty <= 2
    {
      frame % SpawnPeriod(ci, difficulty) == 0 && moves > 8
    }

    /**
     * The spawn part of gameLoop (script.js:384-387) when the schedule fires:
     * one clone, the difficulty ramp, and an extra clone when the gate draw
     * is below the extra chance.
     */
    method ScheduledSpawn(spawnDraw: real, extraGate: real, extraDraw: real)
      requires BoardOk() && ClonesOk() && |movesHistory| > 8
      modifies this`clones, this`cloneInterval
      ensures BoardOk() && ClonesOk()
      ensures cloneInterval == Ramp(old(cloneInterval), difficulty)
      ensures |clones| == |old(clones)| + (if extraGate < ExtraChance(difficulty) then 2 else 1)
      ensures clones[..|old(clones)|] == old(clones)
      ensures fresh(clones[|old(clones)|]) && Spawned(clones[|old(clones)|], spawnDraw)
      ensures |clones| == |old(clones)| + 2 ==>
        fresh(clones[|old(clones)| + 1]) && Spawned(clones[|old(clones)| + 1], extraDraw)
    {
      SpawnClone(spawnDraw);
      if cloneInterval > 60 {
        cloneInterval := cloneInterval - (1 + difficulty);
      }
      if extraGate < ExtraChance(difficulty) {
        SpawnClone(extraDraw);
      }
    }

    /**
     * The start of a frame of gameLoop (script.js:376-379): frameCount
     * advances, and on every 600th frame a pickup spawn is tried when the
     * gate draw is below 0.9.
     */
    method StartFrame(now: int, puGate: real, puTries: seq<(real, real)>, puType: real)
      requires Valid() && IsDraw(puGate) && IsDraw(puType)
      requires |puTries| == 200 && forall k :: 0 <= k < 200 ==> IsDraw(puTries[k].0) && IsDraw(puTries[k].1)
      modifies this`frameCount, this`powerups
      ensures Valid()
      ensures frameCount == old(frameCount) + 1
      ensures powerups == if frameCount % 600 == 0 && puGate < 0.9
        then WithPickup(old(powerups), (px, py), puTries, puType, now) else old(powerups)
    {
      frameCount := frameCount + 1;
      if frameCount % 600 == 0 && puGate < 0.9 {
        SpawnPowerup(now, puTries, puType);
      }
    }

    /** The clone step of gameLoop (script.js:380-387): ScheduledSpawn runs when the schedule fires. */
    method ClonePhase(spawnDraw: real, extraGate: real, extraDraw: real)
      requires Valid()
      modifies this`clones, this`cloneInterval
      ensures Valid() && frameCount == old(frameCount)
      ensures |old(clones)| <= |clones| && clones[..|old(clones)|] == old(clones)
      ensures if SpawnDue(frameCount, old(cloneInterval), |movesHistory|) then
          cloneInterval == Ramp(old(cloneInterval), difficulty) &&
          |clones| == |old(clones)| + (if extraGate < ExtraChance(difficulty) then 2 else 1)
        else
          cloneInterval == old(cloneInterval) && clones == old(clones)
      ensures forall k :: 0 <= k < |old(clones)| ==>
        clones[k].index == old(clones[k].index) && clones[k].ticks == old(clones[k].ticks)
      ensures forall k :: |old(clones)| <= k < |clones| ==>
        fresh(clones[k]) && clones[k].index == 0 && clones[k].ticks == 0 && !clones[k].frozen
      ensures forall c :: c in clones ==> c in old(clones) || fresh(c)
      ensures SpawnDue(frameCount, old(cloneInterval), |movesHistory|) ==>
        Born(clones[|old(clones)|], movesHistory, frameCount, spawnDraw) &&
        (|clones| == |old(clones)| + 2 ==> Born(clones[|old(clones)| + 1], movesHistory, frameCount, extraDraw))
    {
      if SpawnDue(frameCount, cloneInterval, |movesHistory|) {
        ScheduledSpawn(spawnDraw, extraGate, extraDraw);
      }
    }

    /**
     * The end of a running frame (script.js:390-402, 442): the clone pass,
     * then, when no clone caught the player, the updateHUD expiry.
     */
    method Resolve(now: int, draws: seq<(real, real)>) returns (caughtAt: int)
      requires Valid() && running && |draws| >= |clones|
      requires forall k :: 0 <= k < |draws| ==> IsDraw(draws[k].0) && IsDraw(draws[k].1)
      modifies this`running, this`activePower, this`speed, clones`index, clones`x, clones`y, clones`ticks
      ensures Valid()
      ensures -1 <= caughtAt < |clones| && running == (caughtAt < 0)
      ensures forall k :: 0 <= k < |clones| ==>
        Passed(clones[k], clones[k].frozen, clones[k].index, clones[k].ticks, old(clones[k].index), old(clones[k].ticks), draws[k], frameCount, caughtAt <= k)
      ensures caughtAt >= 0 ==> !clones[caughtAt].frozen && Hits(clones[caughtAt]) && !CloakActive(activePower, now)
      ensures forall k :: caughtAt < k < |clones| && !clones[k].frozen && Hits(clones[k]) ==> CloakActive(activePower, now)
      ensures Effects(activePower, speed) ==
        if running then Expire(old(Effects(activePower, speed)), now) else old(Effects(activePower, speed))
    {
      caughtAt := UpdateClones(now, draws);
      if caughtAt < 0 {
        ExpireEffect(now);
      }
    }

    /**
     * The rest of a running frame of gameLoop (script.js:380-402) and the
     * updateHUD expiry it ends with (script.js:442): ClonePhase, then the
     * clone pass, clone k using the draws draws[k]; if no clone caught the
     * player, an expired effect is cleared. The result is the catching
     * clone's index, or -1.
     */
    method Advance(now: int, spawnDraw: real, extraGate: real, extraDraw: real, draws: seq<(real, real)>)
      returns (caughtAt: int)
      requires Valid() && running
      requires IsDraw(spawnDraw) && IsDraw(extraGate) && IsDraw(extraDraw)
      requires |draws| >= |clones| + 2 && forall k :: 0 <= k < |draws| ==> IsDraw(draws[k].0) && IsDraw(draws[k].1)
      modifies this`cloneInterval, this`clones, this`running, this`activePower, this`speed,
        clones`index, clones`x, clones`y, clones`ticks
      ensures Valid()
      ensures -1 <= caughtAt < |clones| && running == (caughtAt < 0)
      ensures if SpawnDue(frameCount, old(cloneInterval), |movesHistory|) then
          cloneInterval == Ramp(old(cloneInterval), difficulty) &&
          |clones| == |old(clones)| + (if extraGate < ExtraChance(difficulty) then 2 else 1)
        else
          cloneInterval == old(cloneInterval) && |clones| == |old(clones)|
      ensures |old(clones)| <= |clones| && clones[..|old(clones)|] == old(clones)
      ensures SpawnDue(frameCount, old(cloneInterval), |movesHistory|) ==>
        Born(clones[|old(clones)|], movesHistory, frameCount, spawnDraw) &&
        (|clones| == |old(clones)| + 2 ==> Born(clones[|old(clones)| + 1], movesHistory, frameCount, extraDraw))
      ensures forall k :: 0 <= k < |old(clones)| ==>
        Passed(clones[k], clones[k].frozen, clones[k].index, clones[k].ticks, old(clones[k].index), old(clones[k].ticks), draws[k], frameCount, caughtAt <= k)
      ensures forall k :: |old(clones)| <= k < |clones| ==> Passed(clones[k], clones[k].frozen, clones[k].index, clones[k].ticks, 0, 0, draws[k], frameCount, caughtAt <= k)
      ensures forall k :: |old(clones)| <= k < |clones| ==> fresh(clones[k]) && !clones[k].frozen
      ensures caughtAt >= 0 ==> !clones[caughtAt].frozen && Hits(clones[caughtAt]) && !CloakActive(activePower, now)
      ensures forall k :: caughtAt < k < |clones| && !clones[k].frozen && Hits(clones[k]) ==> CloakActive(activePower, now)
      ensures Effects(activePower, speed) ==
        if running then Expire(old(Effects(activePower, speed)), now) else old(Effects(activePower, speed))
    {
      ClonePhase(spawnDraw, extraGate, extraDraw);
      caughtAt := Resolve(now, draws);
    }

    /**
     * A frame of gameLoop while the run is on (script.js:373-402) with the
     * updateHUD expiry it ends with (script.js:442): StartFrame, then
     * Advance. The result is the index of the clone that caught the player,
     * or -1.
     */
    method RunFrame(now: int, puGate: real, puTries: seq<(real, real)>, puType: real,
                    spawnDraw: real, extraGate: real, extraDraw: real, draws: seq<(real, real)>) returns (caughtAt: int)
      requires Valid() && running
      requires IsDraw(puGate) && IsDraw(puType) && IsDraw(spawnDraw) && IsDraw(extraGate) && IsDraw(extraDraw)
      requires |puTries| == 200 && forall k :: 0 <= k < 200 ==> IsDraw(puTries[k].0) && IsDraw(puTries[k].1)
      requires |draws| >= |clones| + 2 && forall k :: 0 <= k < |draws| ==> IsDraw(draws[k].0) && IsDraw(draws[k].1)
      modifies this`frameCount, this`cloneInterval, this`powerups, this`clones, this`running,
        this`activePower, this`speed, clones`index, clones`x, clones`y, clones`ticks
      ensures Valid()
      ensures -1 <= caughtAt < |clones| && running == (caughtAt < 0)
      ensures frameCount == old(frameCount) + 1
      ensures powerups == if frameCount % 600 == 0 && puGate < 0.9
        then WithPickup(old(powerups), (px, py), puTries, puType, now) else old(powerups)
      ensures if SpawnDue(frameCount, old(cloneInterval), |movesHistory|) then
          cloneInterval == Ramp(old(cloneInterval), difficulty) &&
          |clones| == |old(clones)| + (if extraGate < ExtraChance(difficulty) then 2 else 1)
        else
          cloneInterval == old(cloneInterval) && |clones| == |old(clones)|
      ensures |old(clones)| <= |clones| && clones[..|old(clones)|] == old(clones)
      ensures SpawnDue(frameCount, old(cloneInterval), |movesHistory|) ==>
        Born(clones[|old(clones)|], movesHistory, frameCount, spawnDraw) &&
        (|clones| == |old(clones)| + 2 ==> Born(clones[|old(clones)| + 1], movesHistory, frameCount, extraDraw))
      ensures forall k :: 0 <= k < |old(clones)| ==>
        Passed(clones[k], clones[k].frozen, clones[k].index, clones[k].ticks, old(clones[k].index), old(clones[k].ticks), draws[k], frameCount, caughtAt <= k)
      ensures forall k :: |old(clones)| <= k < |clones| ==> Passed(clones[k], clones[k].frozen, clones[k].index, clones[k].ticks, 0, 0, draws[k], frameCount, caughtAt <= k)
      ensures forall k :: |old(clones)| <= k < |clones| ==> fresh(clones[k]) && !clones[k].frozen
      ensures caughtAt >= 0 ==> !clones[caughtAt].frozen && Hits(clones[caughtAt]) && !CloakActive(activePower, now)
      ensures forall k :: caughtAt < k < |clones| && !clones[k].frozen && Hits(clones[k]) ==> CloakActive(activePower, now)
      ensures Effects(activePower, speed) ==
        if running then Expire(old(Effects(activePower, speed)), now) else old(Effects(activePower, speed))
    {
      StartFrame(now, puGate, puTries, puType);
      ghost var mid := clones;
      caughtAt := Advance(now, spawnDraw, extraGate, extraDraw, draws);
      assert forall k :: |mid| <= k < |clones| ==> fresh(clones[k]) && !clones[k].frozen;
    }

    /**
     * One frame of gameLoop (script.js:371-402) with the updateHUD expiry it
     * ends with (script.js:442). Nothing happens once the run is over;
     * otherwise RunFrame runs. The result is the index of the clone that
     * caught the player, or -1.
     */
    method Tick(now: int, puGate: real, puTries: seq<(real, real)>, puType: real,
                spawnDraw: real, extraGate: real, extraDraw: real, draws: seq<(real, real)>) returns (caughtAt: int)
      requires Valid()
      requires IsDraw(puGate) && IsDraw(puType) && IsDraw(spawnDraw) && IsDraw(extraGate) && IsDraw(extraDraw)
      requires |puTries| == 200 && forall k :: 0 <= k < 200 ==> IsDraw(puTries[k].0) && IsDraw(puTries[k].1)
      requires |draws| >= |clones| + 2 && forall k :: 0 <= k < |draws| ==> IsDraw(draws[k].0) && IsDraw(draws[k].1)
      modifies this`frameCount, this`cloneInterval, this`powerups, this`clones, this`running,
        this`activePower, this`speed, clones`index, clones`x, clones`y, clones`ticks
      ensures Valid()
      ensures -1 <= caughtAt < |clones| && running == (old(running) && caughtAt < 0)
      ensures !old(running) ==>
        frameCount == old(frameCount) && cloneInterval == old(cloneInterval) && clones == old(clones) &&
        powerups == old(powerups) && activePower == old(activePower) && speed == old(speed)
      ensures !old(running) ==> forall k :: 0 <= k < |clones| ==>
        clones[k].index == old(clones[k].index) && clones[k].ticks == old(clones[k].ticks) &&
        clones[k].x == old(clones[k].x) && clones[k].y == old(clones[k].y)
      ensures old(running) ==> frameCount == old(frameCount) + 1
      ensures old(running) ==>
        powerups == if frameCount % 600 == 0 && puGate < 0.9
          then WithPickup(old(powerups), (px, py), puTries, puType, now) else old(powerups)
      ensures old(running) ==>
        if SpawnDue(frameCount, old(cloneInterval), |movesHistory|) then
          cloneInterval == Ramp(old(cloneInterval), difficulty) &&
          |clones| == |old(clones)| + (if extraGate < ExtraChance(difficulty) then 2 else 1)
        else
          cloneInterval == old(cloneInterval) && |clones| == |old(clones)|
      ensures |old(clones)| <= |clones| && clones[..|old(clones)|] == old(clones)
      ensures old(running) && SpawnDue(frameCount, old(cloneInterval), |movesHistory|) ==>
        Born(clones[|old(clones)|], movesHistory, frameCount, spawnDraw) &&
        (|clones| == |old(clones)| + 2 ==> Born(clones[|old(clones)| + 1], movesHistory, frameCount, extraDraw))
      ensures old(running) ==> forall k :: 0 <= k < |old(clones)| ==>
        Passed(clones[k], clones[k].frozen, clones[k].index, clones[k].ticks, old(clones[k].index), old(clones[k].ticks), draws[k], frameCount, caughtAt <= k)
      ensures old(running) ==> forall k :: |old(clones)| <= k < |clones| ==>
        Passed(clones[k], clones[k].frozen, clones[k].index, clones[k].ticks, 0, 0, draws[k], frameCount, caughtAt <= k)
      ensures old(running) ==> forall k :: |old(clones)| <= k < |clones| ==> fresh(clones[k]) && !clones[k].frozen
      ensures caughtAt >= 0 ==> !clones[caughtAt].frozen && Hits(clones[caughtAt]) && !CloakActive(activePower, now)
      ensures old(running) ==>
        forall k :: caughtAt < k < |clones| && !clones[k].frozen && Hits(clones[k]) ==> CloakActive(activePower, now)
      ensures Effects(activePower, speed) ==
        if running then Expire(old(Effects(activePower, speed)), now) else old(Effects(activePower, speed))
    {
      caughtAt := -1;
      if running {
        caughtAt := RunFrame(now, puGate, puTries, puType, spawnDraw, extraGate, extraDraw, draws);
      }
    }
  }
}
