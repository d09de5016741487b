/**
 * Day 6: a guard walks a 130 by 130 map, moving straight ahead while the
 * next cell is walkable and turning right where it is not, until the next
 * step would leave the map. Part 1 counts the distinct cells visited.
 */
module Day6 {
  import opened Wrappers
  import opened Text

  /** The side of the map (`[[bool; 130]; 130]`). */
  const N: nat := 130

  /** The placeholder position for a step off the map. */
  const Sentinel: nat := 9999

  // ---------------------------------------------------------------------
  // Facing

  datatype Direction = Up | Left | Right | Down

  /** `Direction::turn`: a quarter turn clockwise. */
  function Turn(d: Direction): (r: Direction)
    ensures DRow(r) == DCol(d) && DCol(r) == -DRow(d)
  {
    match d
    case Up => Right
    case Left => Up
    case Right => Down
    case Down => Left
  }

  /** The change of row and of column of one step in direction `d`. */
  function DRow(d: Direction): int
  {
    match d
    case Up => -1
    case Down => 1
    case _ => 0
  }

  function DCol(d: Direction): int
  {
    match d
    case Left => -1
    case Right => 1
    case _ => 0
  }

  /** A turn rotates the step a quarter clockwise, is never the identity, and four turns restore the facing. */
  lemma TurnIsClockwise(d: Direction)
    ensures DRow(Turn(d)) == DCol(d) && DCol(Turn(d)) == -DRow(d)
    ensures Turn(d) != d && Turn(Turn(d)) != d
    ensures Turn(Turn(Turn(Turn(d)))) == d
  {
  }

  /** Every facing is reached from `Up` by some number of turns. */
  lemma TurnsVisitAll(d: Direction)
    ensures d in {Up, Turn(Up), Turn(Turn(Up)), Turn(Turn(Turn(Up)))}
  {
  }

  // ---------------------------------------------------------------------
  // The guard's state as a value

  datatype GuardState = GuardState(x: nat, y: nat, facing: Direction, trail: set<(nat, nat)>, oob: bool)

  /** The state of `Guard::new`: facing up, on the map, having visited only its start. */
  function Start(x: nat, y: nat): GuardState
  {
    GuardState(x, y, Up, {(x, y)}, false)
  }

  /** An N by N map of walkable cells, as a value. */
  predicate IsMap(W: seq<seq<bool>>)
  {
    |W| == N && forall i :: 0 <= i < N ==> |W[i]| == N
  }

  /** The position `check_and_move` looks at: one step ahead, or the sentinel where that would go below zero or past 129. */
  function Ahead(x: nat, y: nat, d: Direction): (r: (nat, nat))
    ensures OnMap(x + DRow(d), y + DCol(d)) ==> r == (x + DRow(d), y + DCol(d))
    ensures OnMap(x, y) && !OnMap(x + DRow(d), y + DCol(d)) ==> r.0 >= N || r.1 >= N
  {
    match d
    case Up => if x >= 1 then (x - 1, y) else (Sentinel, Sentinel)
    case Left => if y >= 1 then (x, y - 1) else (Sentinel, Sentinel)
    case Right => if y + 1 >= N then (Sentinel, Sentinel) else (x, y + 1)
    case Down => if x + 1 >= N then (Sentinel, Sentinel) else (x + 1, y)
  }

  /** One call of `check_and_move`, on values. */
  function Step(W: seq<seq<bool>>, s: GuardState): (r: GuardState)
    requires IsMap(W)
    ensures s.oob ==> r == s
    ensures r.trail == s.trail || r.trail == s.trail + {(r.x, r.y)}
    ensures (r.x, r.y) != (s.x, s.y) ==> r.x < N && r.y < N && W[r.x][r.y]
  {
    if s.oob then s
    else
      var (x, y) := Ahead(s.x, s.y, s.facing);
      if x >= N || y >= N then s.(oob := true)
      else if W[x][y] then s.(x := x, y := y, trail := s.trail + {(x, y)})
      else s.(facing := Turn(s.facing))
  }

  predicate OnMap(x: int, y: int)
  {
    0 <= x < N && 0 <= y < N
  }

  /** A guard that has left the map stays where it is. */
  lemma StepOutside(W: seq<seq<bool>>, s: GuardState)
    requires IsMap(W) && s.oob
    ensures Step(W, s) == s
  {
  }

  /**
   * From a cell of the map, a step either leaves the map (exactly when
   * the cell ahead is off it, and then nothing else changes), moves onto
   * a walkable cell ahead and records it, or turns clockwise in place.
   */
  lemma StepByOffsets(W: seq<seq<bool>>, s: GuardState)
    requires IsMap(W) && !s.oob && OnMap(s.x, s.y)
    ensures var x, y := s.x + DRow(s.facing), s.y + DCol(s.facing);
      && (!OnMap(x, y) ==> Step(W, s) == s.(oob := true))
      && (OnMap(x, y) && W[x][y] ==> Step(W, s) == s.(x := x, y := y, trail := s.trail + {(x, y)}))
      && (OnMap(x, y) && !W[x][y] ==> Step(W, s) == s.(facing := Turn(s.facing)))
  {
  }

  /** The walk never forgets a cell and records at most one new cell per step. */
  lemma TrailGrows(W: seq<seq<bool>>, s: GuardState)
    requires IsMap(W)
    ensures s.trail <= Step(W, s).trail
    ensures |Step(W, s).trail| <= |s.trail| + 1
  {
  }

  /**
   * What holds at every step of the walk from `start`: the guard stands on
   * the map, on a recorded cell; the start is recorded; and every recorded
   * cell is on the map and, apart from the start, walkable.
   */
  predicate Invariant(W: seq<seq<bool>>, start: (nat, nat), s: GuardState)
    requires IsMap(W)
  {
    && OnMap(s.x, s.y)
    && (s.x, s.y) in s.trail
    && start in s.trail
    && forall c :: c in s.trail ==> OnMap(c.0, c.1) && (c == start || W[c.0][c.1])
  }

  lemma StartInvariant(W: seq<seq<bool>>, x: nat, y: nat)
    requires IsMap(W) && OnMap(x, y)
    ensures Invariant(W, (x, y), Start(x, y))
  {
  }

  lemma StepKeepsInvariant(W: seq<seq<bool>>, start: (nat, nat), s: GuardState)
    requires IsMap(W) && Invariant(W, start, s)
    ensures Invariant(W, start, Step(W, s))
  {
  }

  // ---------------------------------------------------------------------
  // The guard

  /** The state of `k` calls of `check_and_move`. */
  function Iterate(W: seq<seq<bool>>, s: GuardState, k: nat): GuardState
    requires IsMap(W)
  {
    if k == 0 then s else Step(W, Iterate(W, s, k - 1))
  }

  /** The invariant holds however many steps are taken. */
  lemma {:induction false} IterateKeepsInvariant(W: seq<seq<bool>>, x: nat, y: nat, k: nat)
    requires IsMap(W) && OnMap(x, y)
    ensures Invariant(W, (x, y), Iterate(W, Start(x, y), k))
  {
    if k == 0 {
      StartInvariant(W, x, y);
    } else {
      IterateKeepsInvariant(W, x, y, k - 1);
      StepKeepsInvariant(W, (x, y), Iterate(W, Start(x, y), k - 1));
    }
  }

  /** Once off the map, further steps change nothing: the answer does not depend on how long the walk runs after it. */
  lemma {:induction false} IterateStaysOutside(W: seq<seq<bool>>, s: GuardState, k: nat, n: nat)
    requires IsMap(W) && k <= n && Iterate(W, s, k).oob
    ensures Iterate(W, s, n) == Iterate(W, s, k)
    decreases n - k
  {
    if k < n {
      IterateStaysOutside(W, s, k, n - 1);
      StepOutside(W, Iterate(W, s, n - 1));
    }
  }

  /** The cells of a map array, as a value. */
  function Snapshot(g: array2<bool>): (W: seq<seq<bool>>)
    reads g
    requires g.Length0 == N && g.Length1 == N
    ensures IsMap(W) && forall i, j :: 0 <= i < N && 0 <= j < N ==> W[i][j] == g[i, j]
  {
    seq(N, i requires 0 <= i < N reads g => seq(N, j requires 0 <= j < N reads g => g[i, j]))
  }

  /** The array holds the map `W`, cell by cell. */
  predicate Holds(g: array2<bool>, W: seq<seq<bool>>)
    reads g
    requires g.Length0 == N && g.Length1 == N
  {
    IsMap(W) && forall i, j :: 0 <= i < N && 0 <= j < N ==> W[i][j] == g[i, j]
  }

  /** `Guard`: position, facing, visited cells and whether it has left the map. */
  class Guard {
    var x: nat
    var y: nat
    var direction: Direction
    var trail: set<(nat, nat)>
    var oob: bool

    function State(): GuardState
      reads this
    {
      GuardState(x, y, direction, trail, oob)
    }

    /** `Guard::new`. */
    constructor (x0: nat, y0: nat)
      ensures State() == Start(x0, y0)
    {
      x, y := x0, y0;
      direction := Up;
      trail := {(x0, y0)};
      oob := false;
    }

    /** `check_and_move`: one step of the walk, in place. */
    method CheckAndMove(walkable: array2<bool>, ghost W: seq<seq<bool>>)
      requires walkable.Length0 == N && walkable.Length1 == N && Holds(walkable, W)
      modifies this
      ensures State() == Step(W, old(State()))
    {
      if oob {
        return;
      }
      var nextPos: (nat, nat);
      match direction {
        case Up =>
          if x >= 1 { nextPos := ((x - 1) as nat, y); } else { nextPos := (Sentinel, Sentinel); }
        case Left =>
          if y >= 1 { nextPos := (x, (y - 1) as nat); } else { nextPos := (Sentinel, Sentinel); }
        case Right =>
          if y + 1 >= N { nextPos := (Sentinel, Sentinel); } else { nextPos := (x, y + 1); }
        case Down =>
          if x + 1 >= N { nextPos := (Sentinel, Sentinel); } else { nextPos := (x + 1, y); }
      }
      var (nx, ny) := nextPos;
      if nx >= N || ny >= N {
        oob := true;
        return;
      }
      if walkable[nx, ny] {
        x, y := nx, ny;
        trail := trail + {(nx, ny)};
      } else {
        direction := Turn(direction);
      }
    }
  }

  // ---------------------------------------------------------------------
  // Reading the map

  /** The lines `load_map` can index: at most N characters each, and none past row N - 1. */
  predicate Fits(lines: seq<string>)
  {
    forall i :: 0 <= i < |lines| ==> |lines[i]| <= (if i < N then N else 0)
  }

  /** Cell (i, j) is walkable unless the text has a '#' there. */
  predicate WalkableAt(lines: seq<string>, i: nat, j: nat)
  {
    !(i < |lines| && j < |lines[i]| && lines[i][j] == '#')
  }

  /** The map `load_map` builds from the lines. */
  function MapOf(lines: seq<string>): (W: seq<seq<bool>>)
    ensures IsMap(W)
    ensures forall i, j :: 0 <= i < N && 0 <= j < N ==> W[i][j] == WalkableAt(lines, i, j)
  {
    seq(N, i requires 0 <= i < N => seq(N, j requires 0 <= j < N => WalkableAt(lines, i, j)))
  }

  /** The column of the last '^' of a line. */
  function LastCaret(line: string): (r: Option<nat>)
    ensures r.Some? ==> r.value < |line| && line[r.value] == '^' && forall k :: r.value < k < |line| ==> line[k] != '^'
    ensures r.None? ==> forall k :: 0 <= k < |line| ==> line[k] != '^'
  {
    if |line| == 0 then None
    else if line[|line| - 1] == '^' then Some(|line| - 1)
    else LastCaret(line[..|line| - 1])
  }

  /** The guard's start: the last '^' in reading order, or (0, 0) without one. */
  function StartOf(lines: seq<string>): (r: (nat, nat))
    ensures r == (0, 0) || (r.0 < |lines| && r.1 < |lines[r.0]| && lines[r.0][r.1] == '^')
  {
    if |lines| == 0 then (0, 0)
    else
      match LastCaret(lines[|lines| - 1])
      case Some(j) => (|lines| - 1, j)
      case None => StartOf(lines[..|lines| - 1])
  }

  /** Some line holds a '^'. */
  predicate HasCaret(lines: seq<string>)
  {
    exists i, j :: 0 <= i < |lines| && 0 <= j < |lines[i]| && lines[i][j] == '^'
  }

  /**
   * The start is a '^' with no '^' after it in reading order; without any
   * '^' it is (0, 0).
   */
  lemma {:induction false} StartIsLastCaret(lines: seq<string>)
    ensures var (x, y) := StartOf(lines);
      && (HasCaret(lines) ==>
            && x < |lines| && y < |lines[x]| && lines[x][y] == '^'
            && forall i, j :: 0 <= i < |lines| && 0 <= j < |lines[i]| && (i > x || (i == x && j > y)) ==> lines[i][j] != '^')
      && (!HasCaret(lines) ==> StartOf(lines) == (0, 0))
  {
    if |lines| > 0 {
      var front, last := lines[..|lines| - 1], lines[|lines| - 1];
      assert forall i :: 0 <= i < |front| ==> front[i] == lines[i];
      StartIsLastCaret(front);
      if LastCaret(last).None? {
        if HasCaret(lines) {
          var i, j :| 0 <= i < |lines| && 0 <= j < |lines[i]| && lines[i][j] == '^';
          assert i < |front|;
          assert HasCaret(front);
        }
      } else {
        assert HasCaret(lines) by {
          var j := LastCaret(last).value;
          assert lines[|lines| - 1][j] == '^';
        }
      }
    }
  }

  /** On lines that fit, the start is a cell of the map. */
  lemma StartOnMap(lines: seq<string>)
    requires Fits(lines)
    ensures OnMap(StartOf(lines).0, StartOf(lines).1)
  {
    StartIsLastCaret(lines);
  }

  lemma StartOfPrefix(lines: seq<string>, i: nat)
    requires i < |lines|
    ensures StartOf(lines[..i + 1]) ==
      match LastCaret(lines[i]) case Some(j) => (i, j) case None => StartOf(lines[..i])
  {
    assert lines[..i + 1][..i] == lines[..i];
  }

  lemma LastCaretPrefix(line: string, j: nat)
    requires j < |line|
    ensures LastCaret(line[..j + 1]) == if line[j] == '^' then Some(j) else LastCaret(line[..j])
  {
    assert line[..j + 1][..j] == line[..j];
  }

  /** The start found in line `i` after `j` of its characters. */
  function StartSoFar(lines: seq<string>, i: nat, j: nat): (nat, nat)
    requires i < |lines| && j <= |lines[i]|
  {
    match LastCaret(lines[i][..j])
    case Some(k) => (i, k)
    case None => StartOf(lines[..i])
  }

  /**
   * `load_map` on the lines of the input: every cell walkable, then each
   * character of each line marks its cell, '#' as not walkable, and a '^'
   * moves the start there.
   */
  method LoadMap(lines: seq<string>) returns (walkable: array2<bool>, start: (nat, nat))
    requires Fits(lines)
    ensures fresh(walkable) && walkable.Length0 == N && walkable.Length1 == N
    ensures Snapshot(walkable) == MapOf(lines)
    ensures start == StartOf(lines)
  {
    walkable := new bool[N, N]((_, _) => true);
    var x, y := 0, 0;
    for i := 0 to |lines|
      invariant forall r, c :: 0 <= r < N && 0 <= c < N ==> walkable[r, c] == (r >= i || WalkableAt(lines, r, c))
      invariant (x, y) == StartOf(lines[..i])
    {
      var line := lines[i];
      for j := 0 to |line|
        invariant forall r, c :: 0 <= r < N && 0 <= c < N ==>
          walkable[r, c] == ((r > i || (r == i && c >= j)) || WalkableAt(lines, r, c))
        invariant (x, y) == StartSoFar(lines, i, j)
      {
        LastCaretPrefix(line, j);
        var ch := line[j];
        walkable[i, j] := ch != '#';
        if ch == '^' {
          x, y := i, j;
        }
      }
      assert line[..|line|] == line;
      StartOfPrefix(lines, i);
    }
    assert lines[..|lines|] == lines;
    start := (x, y);
    MapsEqual(Snapshot(walkable), MapOf(lines));
  }

  lemma MapsEqual(V: seq<seq<bool>>, W: seq<seq<bool>>)
    requires IsMap(V) && IsMap(W)
    requires forall i, j :: 0 <= i < N && 0 <= j < N ==> V[i][j] == W[i][j]
    ensures V == W
  {
    forall i | 0 <= i < N ensures V[i] == W[i] {
    }
  }

  // ---------------------------------------------------------------------
  // Part 1

  /** The guard's state after `k` steps on the map of the input. */
  function WalkOf(lines: seq<string>, k: nat): GuardState
  {
    var start := StartOf(lines);
    Iterate(MapOf(lines), Start(start.0, start.1), k)
  }

  /**
   * The loop of `d6_part1_solution`, stopped after `fuel` steps: a guard
   * starting at `(x, y)` facing up checks and moves until it leaves the
   * map, and then the number of distinct cells it visited is the answer;
   * `None` if it is still on the map after `fuel` steps.
   */
  method Patrol(walkable: array2<bool>, ghost W: seq<seq<bool>>, x: nat, y: nat, fuel: nat) returns (r: Option<nat>)
    requires walkable.Length0 == N && walkable.Length1 == N && Holds(walkable, W)
    ensures r.Some? <==> Iterate(W, Start(x, y), fuel).oob
    ensures r.Some? ==> r.value == |Iterate(W, Start(x, y), fuel).trail|
  {
    var guard := new Guard(x, y);
    var k := 0;
    while k < fuel && !guard.oob
      invariant 0 <= k <= fuel
      invariant guard.State() == Iterate(W, Start(x, y), k)
    {
      guard.CheckAndMove(walkable, W);
      k := k + 1;
    }
    if guard.oob {
      IterateStaysOutside(W, Start(x, y), k, fuel);
      r := Some(|guard.trail|);
    } else {
      r := None;
    }
  }

  /**
   * `d6_part1_solution` on the text of the input: the map is loaded and the
   * guard patrols from the start, for at most `fuel` steps.
   */
  method Part1(text: string, fuel: nat) returns (r: Option<nat>)
    requires Fits(Lines(text))
    ensures r.Some? <==> WalkOf(Lines(text), fuel).oob
    ensures r.Some? ==> r.value == |WalkOf(Lines(text), fuel).trail|
  {
    var walkable, startingPos := LoadMap(Lines(text));
    r := Patrol(walkable, MapOf(Lines(text)), startingPos.0, startingPos.1, fuel);
  }

  /** A finished walk has visited at least its start, and only cells of the map. */
  lemma {:induction false} Part1Bounds(lines: seq<string>, k: nat)
    requires Fits(lines)
    ensures |WalkOf(lines, k).trail| >= 1
    ensures forall c :: c in WalkOf(lines, k).trail ==> OnMap(c.0, c.1)
  {
    var start := StartOf(lines);
    StartOnMap(lines);
    IterateKeepsInvariant(MapOf(lines), start.0, start.1, k);
  }
}
