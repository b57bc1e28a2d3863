/** The artificial ant on its toroidal trail: scoring by simulation. */
module AntTrail {
  import opened Trees

  const Width := 32
  const Height := 32

  datatype Vertex = NullVertex | ActionSuccess | SequentialAnd | ActionIf | MoveForward | TurnLeft | TurnRight

  datatype Direction = North | East | South | West

  /** A branch on food has its condition and two alternatives. */
  predicate WellFormed(t: Tree<Vertex>) {
    (t.op.ActionIf? ==> |t.kids| >= 3) && forall i | 0 <= i < |t.kids| :: WellFormed(t.kids[i])
  }

  // ---------------------------------------------------------------- the ant as a value

  /** Cells are numbered row by row; a cell that is not blank holds a pellet. */
  datatype World = World(x: int, y: int, facing: Direction, time: int, cells: seq<char>, eaten: int)

  predicate OnTrail(w: World) {
    0 <= w.x < Width && 0 <= w.y < Height && |w.cells| == Width * Height
  }

  function Number(d: Direction): int { match d case North => 0 case East => 1 case South => 2 case West => 3 }

  /** The direction with a number, counted clockwise from north. */
  function Numbered(n: int): Direction {
    var m := n % 4;
    if m == 0 then North else if m == 1 then East else if m == 2 then South else West
  }

  function AheadX(x: int, d: Direction): int {
    if d.East? then (x + 1) % Width else if d.West? then (x - 1 + Width) % Width else x
  }

  function AheadY(y: int, d: Direction): int {
    if d.South? then (y + 1) % Height else if d.North? then (y - 1 + Height) % Height else y
  }

  function Cell(x: int, y: int): int { Width * y + x }

  /** One step ahead; a pellet found there is eaten. */
  function Moved(w: World): World
    requires OnTrail(w)
  {
    var x, y := AheadX(w.x, w.facing), AheadY(w.y, w.facing);
    var i := Cell(x, y);
    if w.cells[i] != ' ' then World(x, y, w.facing, w.time + 1, w.cells[i := ' '], w.eaten + 1)
    else World(x, y, w.facing, w.time + 1, w.cells, w.eaten)
  }

  /** The ant after the program t, which does nothing once the time is up. */
  function After(t: Tree<Vertex>, w: World, steps: int): (v: World)
    requires WellFormed(t) && OnTrail(w)
    ensures OnTrail(v)
    decreases t
  {
    if w.time >= steps then w
    else
      match t.op
      case NullVertex => w
      case ActionSuccess => w
      case SequentialAnd => AfterAll(t.kids, w, steps)
      case ActionIf =>
        if w.cells[Cell(AheadX(w.x, w.facing), AheadY(w.y, w.facing))] != ' ' then After(t.kids[1], w, steps)
        else After(t.kids[2], w, steps)
      case MoveForward => Moved(w)
      case TurnLeft => w.(facing := Numbered(Number(w.facing) + 3), time := w.time + 1)
      case TurnRight => w.(facing := Numbered(Number(w.facing) + 1), time := w.time + 1)
  }

  function AfterAll(ts: seq<Tree<Vertex>>, w: World, steps: int): (v: World)
    requires (forall i | 0 <= i < |ts| :: WellFormed(ts[i])) && OnTrail(w)
    ensures OnTrail(v)
    decreases ts
  {
    if ts == [] then w else AfterAll(ts[1..], After(ts[0], w, steps), steps)
  }

  /** Number of pellets. */
  function Pellets(cells: seq<char>): nat {
    if cells == [] then 0 else (if cells[0] != ' ' then 1 else 0) + Pellets(cells[1..])
  }

  lemma {:induction false} PelletEaten(cells: seq<char>, i: nat)
    requires i < |cells| && cells[i] != ' '
    ensures Pellets(cells[i := ' ']) == Pellets(cells) - 1
  {
    var after := cells[i := ' '];
    if i == 0 {
      assert after[1..] == cells[1..];
    } else {
      assert after[1..] == cells[1..][i - 1 := ' '];
      PelletEaten(cells[1..], i - 1);
    }
  }

  /** From w to v, what has been eaten is gone from the trail, each pellet has cost a
      step, and no more time has passed than there was. */
  predicate Conserved(w: World, v: World, steps: int) {
    && v.eaten + Pellets(v.cells) == w.eaten + Pellets(w.cells)
    && 0 <= v.eaten - w.eaten <= v.time - w.time
    && (v.time == w.time ==> v == w)
    && (w.time <= steps ==> v.time <= steps)
  }

  lemma {:induction false} RunConserves(t: Tree<Vertex>, w: World, steps: int)
    requires WellFormed(t) && OnTrail(w)
    ensures Conserved(w, After(t, w, steps), steps)
    decreases t
  {
    if w.time < steps {
      match t.op
      case SequentialAnd => RunAllConserves(t.kids, w, steps);
      case ActionIf =>
        RunConserves(t.kids[1], w, steps);
        RunConserves(t.kids[2], w, steps);
      case MoveForward =>
        var i := Cell(AheadX(w.x, w.facing), AheadY(w.y, w.facing));
        if w.cells[i] != ' ' { PelletEaten(w.cells, i); }
      case _ =>
    }
  }

  lemma {:induction false} RunAllConserves(ts: seq<Tree<Vertex>>, w: World, steps: int)
    requires (forall i | 0 <= i < |ts| :: WellFormed(ts[i])) && OnTrail(w)
    ensures Conserved(w, AfterAll(ts, w, steps), steps)
    decreases ts
  {
    if ts != [] {
      RunConserves(ts[0], w, steps);
      RunAllConserves(ts[1..], After(ts[0], w, steps), steps);
    }
  }

  /** Columns passed by one step in a direction, rows below. */
  function StepX(d: Direction): int { if d.East? then 1 else if d.West? then -1 else 0 }

  function StepY(d: Direction): int { if d.South? then 1 else if d.North? then -1 else 0 }

  function Times(k: nat, t: Tree<Vertex>): seq<Tree<Vertex>> { seq(k, _ => t) }

  function Straight(k: nat): (ts: seq<Tree<Vertex>>)
    ensures forall i | 0 <= i < |ts| :: WellFormed(ts[i])
  {
    Times(k, Node(MoveForward, []))
  }

  /** From w to v, k cells ahead around the torus. */
  predicate Ahead(w: World, v: World, k: nat) {
    && v.facing == w.facing && v.time == w.time + k
    && v.x == (w.x + k * StepX(w.facing)) % Width && v.y == (w.y + k * StepY(w.facing)) % Height
  }

  /** With time enough, k moves lead k cells ahead. */
  lemma {:induction false} MovesAhead(w: World, k: nat, steps: int)
    requires OnTrail(w) && w.time + k <= steps
    ensures Ahead(w, AfterAll(Straight(k), w, steps), k)
    decreases k
  {
    if k > 0 {
      var ts, next := Straight(k), Moved(w);
      assert ts[0] == Node(MoveForward, []) && ts[1..] == Straight(k - 1);
      assert AfterAll(ts, w, steps) == AfterAll(ts[1..], next, steps);
      MovesAhead(next, k - 1, steps);
      OneAhead(w);
      OneMoreAhead(w, next, AfterAll(ts[1..], next, steps), k - 1);
    }
  }

  lemma {:induction false} OneAhead(w: World)
    requires OnTrail(w)
    ensures Ahead(w, Moved(w), 1)
  {
    assert AheadX(w.x, w.facing) == (w.x + StepX(w.facing)) % Width;
    assert AheadY(w.y, w.facing) == (w.y + StepY(w.facing)) % Height;
  }

  lemma {:induction false} OneMoreAhead(w: World, next: World, v: World, k: nat)
    requires Ahead(w, next, 1) && Ahead(next, v, k)
    ensures Ahead(w, v, k + 1)
  {
    Around(w.x, k, StepX(w.facing));
    Around(w.y, k, StepY(w.facing));
  }

  lemma {:induction false} Around(x: int, k: nat, step: int)
    requires step in {-1, 0, 1}
    ensures ((x + step) % 32 + k * step) % 32 == (x + (k + 1) * step) % 32
  {
    var n: int := k;
    if step == 1 {
      assert (k + 1) * step == n + 1 && k * step == n;
    } else if step == -1 {
      assert (k + 1) * step == -n - 1 && k * step == -n;
    }
  }

  lemma {:induction false} RoundAgain(x: int, j: nat, step: int)
    requires step in {-1, 0, 1}
    ensures (x + (j + 32) * step) % 32 == (x + j * step) % 32
    ensures 1 <= j < 32 && step != 0 ==> (x + (j + 1) * step) % 32 != (x + step) % 32
  {
    var n: int := j;
    if step == 1 {
      assert (j + 32) * step == n + 32 && j * step == n && (j + 1) * step == n + 1;
    } else if step == -1 {
      assert (j + 32) * step == -n - 32 && j * step == -n && (j + 1) * step == -n - 1;
    }
  }

  /** Going straight any number of times around the torus leads back, whatever is eaten on
      the way. */
  lemma {:induction false} AllAround(w: World, n: nat, steps: int)
    requires OnTrail(w) && w.time + n * Width <= steps
    ensures var v := AfterAll(Straight(n * Width), w, steps);
      v.x == w.x && v.y == w.y && v.facing == w.facing && v.time == w.time + n * Width
  {
    MovesAhead(w, n * Width, steps);
    RoundsVanish(w.x, n, StepX(w.facing));
    RoundsVanish(w.y, n, StepY(w.facing));
  }

  lemma {:induction false} RoundsVanish(x: int, n: nat, step: int)
    requires 0 <= x < 32 && step in {-1, 0, 1}
    ensures (x + n * 32 * step) % 32 == x
  {
    var m: int := n;
    if step == 1 {
      assert n * 32 * step == 32 * m;
    } else if step == -1 {
      assert n * 32 * step == 32 * -m;
    }
  }

  // ---------------------------------------------------------------- turning and branching

  const Left: Tree<Vertex> := Node(TurnLeft, [])
  const Right: Tree<Vertex> := Node(TurnRight, [])

  /** Turning takes one step and moves nothing.  Rows are counted downwards, so that a step
      of (dx, dy) becomes (-dy, dx) by turning right and (dy, -dx) by turning left. */
  lemma {:induction false} TurnsOnTheSpot(w: World, steps: int)
    requires OnTrail(w) && w.time < steps
    ensures var r := After(Right, w, steps);
            r == w.(facing := r.facing, time := w.time + 1)
            && StepX(r.facing) == -StepY(w.facing) && StepY(r.facing) == StepX(w.facing)
    ensures var l := After(Left, w, steps);
            l == w.(facing := l.facing, time := w.time + 1)
            && StepX(l.facing) == StepY(w.facing) && StepY(l.facing) == -StepX(w.facing)
  {
  }

  function CellAhead(w: World, j: nat): int {
    Cell((w.x + j * StepX(w.facing)) % Width, (w.y + j * StepY(w.facing)) % Height)
  }

  /** The next k cells ahead hold pellets, the one behind them does not. */
  predicate RowAhead(w: World, k: nat)
    requires OnTrail(w)
  {
    (forall j | 1 <= j <= k :: w.cells[CellAhead(w, j)] != ' ') && w.cells[CellAhead(w, k + 1)] == ' '
  }

  predicate Beside(w: World, k: nat, i: int) { forall j | 1 <= j <= k :: CellAhead(w, j) != i }

  /** From w to v, the k cells ahead have been emptied and all others are as they were. */
  predicate RowEaten(w: World, v: World, k: nat)
    requires OnTrail(w) && OnTrail(v)
  {
    && v.eaten == w.eaten + k
    && (forall j | 1 <= j <= k :: v.cells[CellAhead(w, j)] == ' ')
    && forall i | 0 <= i < |w.cells| && Beside(w, k, i) :: v.cells[i] == w.cells[i]
  }

  lemma {:induction false} NextCellAhead(w: World, next: World, j: nat)
    requires Ahead(w, next, 1)
    ensures CellAhead(next, j) == CellAhead(w, j + 1)
  {
    Around(w.x, j, StepX(w.facing));
    Around(w.y, j, StepY(w.facing));
  }

  /** The cells ahead come round after the whole width and not before. */
  lemma {:induction false} CellsComeRound(w: World, j: nat)
    requires OnTrail(w)
    ensures CellAhead(w, j + 32) == CellAhead(w, j)
    ensures 1 <= j < 32 ==> CellAhead(w, j + 1) != CellAhead(w, 1)
  {
    RoundAgain(w.x, j, StepX(w.facing));
    RoundAgain(w.y, j, StepY(w.facing));
    if 1 <= j < 32 && CellAhead(w, j + 1) == CellAhead(w, 1) {
      CellTells((w.x + (j + 1) * StepX(w.facing)) % 32, (w.y + (j + 1) * StepY(w.facing)) % 32,
                (w.x + StepX(w.facing)) % 32, (w.y + StepY(w.facing)) % 32);
    }
  }

  lemma {:induction false} CellTells(x: int, y: int, u: int, v: int)
    requires 0 <= x < 32 && 0 <= u < 32 && Cell(x, y) == Cell(u, v)
    ensures x == u && y == v
  {
  }

  lemma {:induction false} RowEnds(w: World, k: nat)
    requires OnTrail(w) && RowAhead(w, k)
    ensures k < 32
  {
    if k >= 32 { CellsComeRound(w, k + 1 - 32); }
  }

  /** Behind the first pellet of a row, which has just been eaten, the row goes on. */
  lemma {:induction false} RowGoesOn(w: World, k: nat)
    requires OnTrail(w) && k > 0 && RowAhead(w, k)
    ensures RowAhead(Moved(w), k - 1)
  {
    var next := Moved(w);
    OneAhead(w);
    RowEnds(w, k);
    forall j | 1 <= j <= k - 1 ensures next.cells[CellAhead(next, j)] != ' ' {
      NextCellAhead(w, next, j);
      CellsComeRound(w, j);
    }
    NextCellAhead(w, next, k);
  }

  lemma {:induction false} OneMoreEaten(w: World, v: World, k: nat)
    requires OnTrail(w) && OnTrail(v) && k > 0 && RowAhead(w, k) && RowEaten(Moved(w), v, k - 1)
    ensures RowEaten(w, v, k)
  {
    var next := Moved(w);
    OneAhead(w);
    forall j | 1 <= j <= k ensures v.cells[CellAhead(w, j)] == ' ' {
      if j > 1 {
        NextCellAhead(w, next, j - 1);
      } else {
        FirstIsBeside(w, k);
      }
    }
    forall i | 0 <= i < |w.cells| && Beside(w, k, i) ensures v.cells[i] == w.cells[i] {
      assert CellAhead(w, 1) != i;
      BesideNext(w, k, i);
    }
  }

  lemma {:induction false} BesideNext(w: World, k: nat, i: int)
    requires OnTrail(w) && k > 0 && forall j | 2 <= j <= k :: CellAhead(w, j) != i
    ensures Beside(Moved(w), k - 1, i)
  {
    OneAhead(w);
    forall j | 1 <= j <= k - 1 ensures CellAhead(Moved(w), j) != i { NextCellAhead(w, Moved(w), j); }
  }

  lemma {:induction false} FirstIsBeside(w: World, k: nat)
    requires OnTrail(w) && k > 0 && RowAhead(w, k)
    ensures Beside(Moved(w), k - 1, CellAhead(w, 1))
  {
    RowEnds(w, k);
    forall j | 2 <= j <= k ensures CellAhead(w, j) != CellAhead(w, 1) { CellsComeRound(w, j - 1); }
    BesideNext(w, k, CellAhead(w, 1));
  }

  /** The program that moves on where there is food ahead and turns where there is none. */
  function Follow(cond: Tree<Vertex>, turn: Tree<Vertex>): Tree<Vertex> {
    Node(ActionIf, [cond, Node(MoveForward, []), turn])
  }

  lemma {:induction false} FollowActs(w: World, steps: int, cond: Tree<Vertex>, turn: Tree<Vertex>)
    requires OnTrail(w) && w.time < steps && WellFormed(cond) && WellFormed(turn)
    ensures WellFormed(Follow(cond, turn)) && CellAhead(w, 1) == Cell(AheadX(w.x, w.facing), AheadY(w.y, w.facing))
    ensures After(Follow(cond, turn), w, steps) == if w.cells[CellAhead(w, 1)] != ' ' then Moved(w) else After(turn, w, steps)
  {
    OneAhead(w);
    assert After(Node(MoveForward, []), w, steps) == Moved(w);
  }

  /** Run k + 1 times, it eats up the row of k pellets ahead and turns at its end. */
  lemma {:induction false} EatsRowThenTurns(w: World, k: nat, steps: int, cond: Tree<Vertex>, turn: Tree<Vertex>)
    requires OnTrail(w) && RowAhead(w, k) && w.time + k < steps && WellFormed(cond) && WellFormed(turn)
    ensures WellFormed(Follow(cond, turn))
    ensures exists v :: OnTrail(v) && Ahead(w, v, k) && RowEaten(w, v, k)
                        && AfterAll(Times(k + 1, Follow(cond, turn)), w, steps) == After(turn, v, steps)
    decreases k
  {
    FollowActs(w, steps, cond, turn);
    var ts, rest := Times(k + 1, Follow(cond, turn)), Times(k, Follow(cond, turn));
    assert ts[1..] == rest;
    if k > 0 {
      var next := Moved(w);
      OneAhead(w);
      RowGoesOn(w, k);
      EatsRowThenTurns(next, k - 1, steps, cond, turn);
      var v :| OnTrail(v) && Ahead(next, v, k - 1) && RowEaten(next, v, k - 1)
               && AfterAll(rest, next, steps) == After(turn, v, steps);
      OneMoreAhead(w, next, v, k - 1);
      OneMoreEaten(w, v, k);
    } else {
      assert AfterAll(ts, w, steps) == AfterAll(rest, After(turn, w, steps), steps);
    }
  }

  /** What was eaten before does not change what is done. */
  lemma {:induction false} EatenShifts(t: Tree<Vertex>, w: World, steps: int, e: int)
    requires WellFormed(t) && OnTrail(w)
    ensures After(t, w.(eaten := w.eaten + e), steps) == After(t, w, steps).(eaten := After(t, w, steps).eaten + e)
    decreases t
  {
    if w.time < steps {
      if t.op.SequentialAnd? { EatenShiftsAll(t.kids, w, steps, e); }
      if t.op.ActionIf? {
        EatenShifts(t.kids[1], w, steps, e);
        EatenShifts(t.kids[2], w, steps, e);
      }
    }
  }

  lemma {:induction false} EatenShiftsAll(ts: seq<Tree<Vertex>>, w: World, steps: int, e: int)
    requires (forall i | 0 <= i < |ts| :: WellFormed(ts[i])) && OnTrail(w)
    ensures AfterAll(ts, w.(eaten := w.eaten + e), steps) == AfterAll(ts, w, steps).(eaten := AfterAll(ts, w, steps).eaten + e)
    decreases ts
  {
    if ts != [] {
      EatenShifts(ts[0], w, steps, e);
      EatenShiftsAll(ts[1..], After(ts[0], w, steps), steps, e);
    }
  }

  // ---------------------------------------------------------------- the simulation

  class Ant {
    var x: int
    var y: int
    var facing: Direction
    var atTime: int
    const trail: array2<char>
    const steps: int

    ghost predicate Valid()
      reads this
    {
      trail.Length0 == Height && trail.Length1 == Width && 0 <= x < Width && 0 <= y < Height
    }

    /** The ant as a value, with nothing eaten yet. */
    ghost function Here(): World
      requires Valid()
      reads this, trail
    {
      World(x, y, facing, atTime, seq(Width * Height, i requires 0 <= i < Width * Height reads this, trail => trail[i / Width, i % Width]), 0)
    }

    constructor (initial: array2<char>, steps: int)
      requires initial.Length0 == Height && initial.Length1 == Width
      ensures Valid() && fresh(trail) && this.steps == steps
      ensures x == 0 && y == 0 && facing == East && atTime == 0
      ensures forall r, c | 0 <= r < Height && 0 <= c < Width :: trail[r, c] == initial[r, c]
    {
      x, y, facing, atTime := 0, 0, East, 0;
      this.steps := steps;
      trail := new char[Height, Width]((r, c) requires 0 <= r < Height && 0 <= c < Width reads initial => initial[r, c]);
    }

    method Move() returns (eaten: int)
      requires Valid()
      modifies this, trail
      ensures Valid() && Here().(eaten := eaten) == Moved(old(Here()))
    {
      ghost var before := Here();
      atTime := atTime + 1;
      x, y := AheadX(x, facing), AheadY(y, facing);
      eaten := 0;
      if trail[y, x] != ' ' {
        trail[y, x] := ' ';
        eaten := 1;
        assert Here().cells == before.cells[Cell(x, y) := ' '];
      } else {
        assert Here().cells == before.cells;
      }
    }

    /** Runs a program; returns the number of pellets eaten. */
    method Eval(t: Tree<Vertex>) returns (eaten: int)
      requires Valid() && WellFormed(t)
      modifies this, trail
      ensures Valid() && Here().(eaten := eaten) == After(t, old(Here()), steps)
      decreases t, 0
    {
      if atTime >= steps || t.op == NullVertex || t.op == ActionSuccess { return 0; }
      if t.op == SequentialAnd {
        eaten := EvalAll(t.kids);
      } else if t.op == ActionIf {
        var xn, yn := AheadX(x, facing), AheadY(y, facing);
        assert Here().cells[Cell(xn, yn)] == trail[yn, xn];
        eaten := Eval(if trail[yn, xn] != ' ' then t.kids[1] else t.kids[2]);
      } else {
        eaten := 0;
        if t.op == MoveForward {
          eaten := Move();
        } else {
          atTime := atTime + 1;
          facing := Numbered(Number(facing) + if t.op == TurnLeft then 3 else 1);
        }
      }
    }

    method EvalAll(ts: seq<Tree<Vertex>>) returns (eaten: int)
      requires Valid() && forall i | 0 <= i < |ts| :: WellFormed(ts[i])
      modifies this, trail
      ensures Valid() && Here().(eaten := eaten) == AfterAll(ts, old(Here()), steps)
      decreases ts, 1
    {
      eaten := 0;
      ghost var start := Here();
      for i := 0 to |ts|
        invariant Valid() && AfterAll(ts[i..], Here().(eaten := eaten), steps) == AfterAll(ts, start, steps)
      {
        assert ts[i..][0] == ts[i] && ts[i..][1..] == ts[i + 1..];
        EatenShifts(ts[i], Here(), steps, eaten);
        var more := Eval(ts[i]);
        eaten := eaten + more;
      }
    }

    /** Runs the program over and over until the time is up or none passes. */
    method Score(t: Tree<Vertex>) returns (sc: int)
      requires Valid() && WellFormed(t)
      modifies this, trail
      ensures Valid() && sc == old(Pellets(Here().cells)) - Pellets(Here().cells)
      ensures 0 <= sc <= atTime - old(atTime) && (old(atTime) <= steps ==> atTime <= steps)
      ensures atTime >= steps || After(t, Here(), steps) == Here()
    {
      sc := 0;
      ghost var start := Here();
      while true
        invariant Valid() && Conserved(start, Here().(eaten := sc), steps)
        invariant atTime == start.time ==> sc == 0
        decreases steps - atTime
      {
        var tmp := atTime;
        RunConserves(t, Here(), steps);
        var more := Eval(t);
        sc := sc + more;
        if atTime == tmp || atTime >= steps { break; }
      }
    }
  }
}
