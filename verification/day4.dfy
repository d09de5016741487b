/**
 * Day 4: a word search on a fixed 140 by 140 letter grid. Part 1 counts
 * the occurrences of "XMAS" in any of the eight directions; part 2 counts
 * the 'A's at the centre of two crossing "MAS" diagonals.
 */
module Day4 {
  import opened Wrappers
  import opened Text

  /** The side of the grid (`Direction<140>`, `[[XMAS; 140]; 140]`). */
  const N: nat := 140

  // ---------------------------------------------------------------------
  // Directions

  datatype Direction = TopLeft | Top | TopRight | Left | Right | BottomLeft | Bottom | BottomRight

  /** The row offset of a direction: up is -1. */
  function DRow(d: Direction): int
  {
    match d
    case TopLeft | Top | TopRight => -1
    case Left | Right => 0
    case BottomLeft | Bottom | BottomRight => 1
  }

  /** The column offset of a direction: left is -1. */
  function DCol(d: Direction): int
  {
    match d
    case TopLeft | Left | BottomLeft => -1
    case Top | Bottom => 0
    case TopRight | Right | BottomRight => 1
  }

  predicate InGrid(x: int, y: int)
  {
    0 <= x < N && 0 <= y < N
  }

  /**
   * `Direction::step`: the neighbour of (i, j) in direction `d`, or `None`
   * where it would leave the grid; coordinates never wrap around.
   */
  function Step(d: Direction, i: nat, j: nat): (r: Option<(nat, nat)>)
    ensures r.Some? ==> r.value.0 == i + DRow(d) && r.value.1 == j + DCol(d)
    ensures i < N && j < N ==> (r.Some? <==> InGrid(i + DRow(d), j + DCol(d)))
  {
    match d
    case TopLeft => if i >= 1 && j >= 1 then Some((i - 1, j - 1)) else None
    case Top => if i >= 1 then Some((i - 1, j)) else None
    case TopRight => if i >= 1 && j + 1 < N then Some((i - 1, j + 1)) else None
    case Left => if j >= 1 then Some((i, j - 1)) else None
    case Right => if j + 1 < N then Some((i, j + 1)) else None
    case BottomLeft => if i + 1 < N && j >= 1 then Some((i + 1, j - 1)) else None
    case Bottom => if i + 1 < N then Some((i + 1, j)) else None
    case BottomRight => if i + 1 < N && j + 1 < N then Some((i + 1, j + 1)) else None
  }

  /** `k` steps of size `delta` from `x`. */
  function Walk(x: int, delta: int, k: nat): int
  {
    if k == 0 then x else Walk(x, delta, k - 1) + delta
  }

  // ---------------------------------------------------------------------
  // Letters

  /** A grid cell: one of the letters of "XMAS", or `Blank` for any other character (`XMAS::None`). */
  datatype Cell = X | M | A | S | Blank

  /** The word searched for, letter by letter. */
  const Word: seq<Cell> := [X, M, A, S]

  /** The character a letter stands for. */
  function Letter(c: Cell): char
    requires c != Blank
  {
    match c
    case X => 'X'
    case M => 'M'
    case A => 'A'
    case S => 'S'
  }

  /** `From<char> for XMAS`. */
  function FromChar(ch: char): (c: Cell)
    ensures c != Blank ==> Letter(c) == ch
    ensures c == Blank <==> ch != 'X' && ch != 'M' && ch != 'A' && ch != 'S'
  {
    match ch
    case 'X' => X
    case 'M' => M
    case 'A' => A
    case 'S' => S
    case _ => Blank
  }

  /** `XMAS::next`: the following letter of the word. */
  function Next(c: Cell): (r: Cell)
    ensures r != Blank <==> c in {X, M, A}
    ensures r != Blank ==> Prev(r) == c
  {
    match c
    case X => M
    case M => A
    case A => S
    case _ => Blank
  }

  /** `XMAS::prev`: the preceding letter of the word. */
  function Prev(c: Cell): (r: Cell)
    ensures r != Blank <==> c in {M, A, S}
  {
    match c
    case M => X
    case A => M
    case S => A
    case _ => Blank
  }

  /** `XMAS::is_final`. */
  predicate IsFinal(c: Cell)
    ensures IsFinal(c) <==> c != Blank && Next(c) == Blank
  {
    c == S
  }

  /** `prev` undoes `next` on the letters that have a successor, and the other way round. */
  lemma NextPrev(c: Cell)
    ensures c in {X, M, A} ==> Prev(Next(c)) == c
    ensures c in {M, A, S} ==> Next(Prev(c)) == c
    ensures Next(c) != Blank <==> c in {X, M, A}
    ensures IsFinal(c) <==> c == S
  {
  }

  /** `k` applications of `Next`. */
  function NextN(c: Cell, k: nat): Cell
  {
    if k == 0 then c else Next(NextN(c, k - 1))
  }

  /** Starting from X, the successors spell the word; three steps end on the final letter only from X. */
  lemma {:induction false} NextSpellsWord(c: Cell)
    ensures c == X ==> forall m :: 0 <= m < 4 ==> NextN(c, m) == Word[m]
    ensures IsFinal(NextN(c, 3)) <==> c == X
  {
    assert NextN(c, 1) == Next(c);
    assert NextN(c, 2) == Next(Next(c));
    assert NextN(c, 3) == Next(Next(Next(c)));
  }

  // ---------------------------------------------------------------------
  // The grid

  /** An N by N grid of cells, as a value. */
  predicate IsGrid(G: seq<seq<Cell>>)
  {
    |G| == N && forall i :: 0 <= i < N ==> |G[i]| == N
  }

  /** The cells of a grid array, as a value. */
  function Snapshot(g: array2<Cell>): (G: seq<seq<Cell>>)
    reads g
    requires g.Length0 == N && g.Length1 == N
    ensures IsGrid(G) && forall i, j :: 0 <= i < N && 0 <= j < N ==> G[i][j] == g[i, j]
  {
    seq(N, i requires 0 <= i < N reads g => seq(N, j requires 0 <= j < N reads g => g[i, j]))
  }

  /** Cell (i, j) of the text: the j-th character of line i, or `Blank` where the text has none. */
  function CellOf(lines: seq<string>, i: nat, j: nat): Cell
  {
    if i < |lines| && j < |lines[i]| then FromChar(lines[i][j]) else Blank
  }

  /** The grid `load_map` builds from the text. */
  function MapOf(text: string): (G: seq<seq<Cell>>)
    ensures IsGrid(G)
    ensures forall i, j :: 0 <= i < N && 0 <= j < N ==> G[i][j] == CellOf(Lines(text), i, j)
  {
    var lines := Lines(text);
    seq(N, i requires 0 <= i < N => seq(N, j requires 0 <= j < N => CellOf(lines, i, j)))
  }

  /**
   * `load_map`: a grid of `Blank`s, overwritten with the characters of at
   * most the first 140 lines, at most 140 characters each.
   */
  method LoadMap(text: string) returns (g: array2<Cell>)
    ensures fresh(g) && g.Length0 == N && g.Length1 == N
    ensures Snapshot(g) == MapOf(text)
  {
    g := new Cell[N, N]((_, _) => Blank);
    var lines := Lines(text);
    var i := 0;
    while i < |lines| && i < N
      invariant 0 <= i <= N && i <= |lines|
      invariant forall r, c :: 0 <= r < N && 0 <= c < N ==> g[r, c] == if r < i then CellOf(lines, r, c) else Blank
    {
      var line := lines[i];
      var j := 0;
      while j < |line| && j < N
        invariant 0 <= j <= N && j <= |line|
        invariant forall r, c :: 0 <= r < N && 0 <= c < N ==>
          g[r, c] == if r < i || (r == i && c < j) then CellOf(lines, r, c) else Blank
      {
        g[i, j] := FromChar(line[j]);
        j := j + 1;
      }
      i := i + 1;
    }
    GridsEqual(Snapshot(g), MapOf(text));
  }

  lemma GridsEqual(G: seq<seq<Cell>>, H: seq<seq<Cell>>)
    requires IsGrid(G) && IsGrid(H)
    requires forall i, j :: 0 <= i < N && 0 <= j < N ==> G[i][j] == H[i][j]
    ensures G == H
  {
    forall i | 0 <= i < N ensures G[i] == H[i] {
    }
  }

  // ---------------------------------------------------------------------
  // Target cells

  /** The cells before row `i`, column `j` in row-major order; (N, 0) is past the last cell. */
  predicate Bound(i: nat, j: nat)
  {
    i <= N && j <= N && (i == N ==> j == 0)
  }

  /** Cell (i', j') comes before (i, j) in row-major order. */
  predicate Before(i': nat, j': nat, i: nat, j: nat)
  {
    i' < i || (i' == i && j' < j)
  }

  /** The cells holding `target` before (i, j) in row-major order, in that order. */
  function TargetsBefore(G: seq<seq<Cell>>, target: Cell, i: nat, j: nat): (r: seq<(nat, nat, Cell)>)
    requires IsGrid(G) && Bound(i, j)
    ensures InGridAll(r)
    decreases i, j
  {
    if j == 0 then
      if i == 0 then [] else TargetsBefore(G, target, i - 1, N)
    else
      var prev := TargetsBefore(G, target, i, j - 1);
      if G[i][j - 1] == target then prev + [(i, j - 1, target)] else prev
  }

  /** Every entry is a cell before (i, j) holding `target`. */
  predicate OnlyTargetsBefore(G: seq<seq<Cell>>, target: Cell, r: seq<(nat, nat, Cell)>, i: nat, j: nat)
    requires IsGrid(G) && InGridAll(r)
  {
    forall k :: 0 <= k < |r| ==> Before(r[k].0, r[k].1, i, j) && G[r[k].0][r[k].1] == target && r[k].2 == target
  }

  /** The entries are in strictly increasing row-major order, so none is repeated. */
  predicate RowMajorOrdered(r: seq<(nat, nat, Cell)>)
  {
    forall k, l :: 0 <= k < l < |r| ==> Before(r[k].0, r[k].1, r[l].0, r[l].1)
  }

  /** Every cell before (i, j) holding `target` is an entry. */
  predicate AllTargetsBefore(G: seq<seq<Cell>>, target: Cell, r: seq<(nat, nat, Cell)>, i: nat, j: nat)
    requires IsGrid(G)
  {
    forall i', j' :: 0 <= i' < N && 0 <= j' < N && Before(i', j', i, j) && G[i'][j'] == target ==> (i', j', target) in r
  }

  /** The three properties together: exactly the target cells before (i, j), in order. */
  predicate ScanOf(G: seq<seq<Cell>>, target: Cell, r: seq<(nat, nat, Cell)>, i: nat, j: nat)
    requires IsGrid(G) && InGridAll(r)
  {
    OnlyTargetsBefore(G, target, r, i, j) && RowMajorOrdered(r) && AllTargetsBefore(G, target, r, i, j)
  }

  /** Passing over a cell that does not hold the target. */
  lemma ScanSkip(G: seq<seq<Cell>>, target: Cell, r: seq<(nat, nat, Cell)>, i: nat, j: nat)
    requires IsGrid(G) && InGridAll(r) && i < N && j < N
    requires ScanOf(G, target, r, i, j) && G[i][j] != target
    ensures ScanOf(G, target, r, i, j + 1)
  {
  }

  /** Collecting a cell that holds the target. */
  lemma ScanTake(G: seq<seq<Cell>>, target: Cell, prev: seq<(nat, nat, Cell)>, i: nat, j: nat)
    requires IsGrid(G) && InGridAll(prev) && i < N && j < N
    requires ScanOf(G, target, prev, i, j) && G[i][j] == target
    ensures InGridAll(prev + [(i, j, target)])
    ensures ScanOf(G, target, prev + [(i, j, target)], i, j + 1)
  {
    var r := prev + [(i, j, target)];
    assert forall k :: 0 <= k < |prev| ==> r[k] == prev[k];
    assert r[|prev|] == (i, j, target);
  }

  /** Moving from the end of one row to the start of the next. */
  lemma ScanNextRow(G: seq<seq<Cell>>, target: Cell, r: seq<(nat, nat, Cell)>, i: nat)
    requires IsGrid(G) && InGridAll(r) && i < N
    requires ScanOf(G, target, r, i, N)
    ensures ScanOf(G, target, r, i + 1, 0)
  {
  }

  /**
   * The scan finds each cell holding the target exactly once, in
   * row-major order, and nothing else.
   */
  lemma {:induction false} TargetsBeforeSpec(G: seq<seq<Cell>>, target: Cell, i: nat, j: nat)
    requires IsGrid(G) && Bound(i, j)
    ensures ScanOf(G, target, TargetsBefore(G, target, i, j), i, j)
    decreases i, j
  {
    if j == 0 {
      if i > 0 {
        TargetsBeforeSpec(G, target, i - 1, N);
        ScanNextRow(G, target, TargetsBefore(G, target, i - 1, N), i - 1);
      }
    } else {
      TargetsBeforeSpec(G, target, i, j - 1);
      var prev := TargetsBefore(G, target, i, j - 1);
      if G[i][j - 1] == target {
        ScanTake(G, target, prev, i, j - 1);
      } else {
        ScanSkip(G, target, prev, i, j - 1);
      }
    }
  }

  /** The cells of the grid holding `target`, in row-major order. */
  function Targets(G: seq<seq<Cell>>, target: Cell): (r: seq<(nat, nat, Cell)>)
    requires IsGrid(G)
    ensures InGridAll(r)
  {
    TargetsBefore(G, target, N, 0)
  }

  /** `get_target_coords`: a row-major scan collecting the cells equal to `target`. */
  method GetTargetCoords(g: array2<Cell>, target: Cell) returns (matches: seq<(nat, nat, Cell)>)
    requires g.Length0 == N && g.Length1 == N
    ensures matches == Targets(Snapshot(g), target)
  {
    ghost var G := Snapshot(g);
    matches := [];
    for i := 0 to N
      invariant matches == TargetsBefore(G, target, i, 0)
    {
      for j := 0 to N
        invariant matches == TargetsBefore(G, target, i, j)
      {
        if g[i, j] == target {
          matches := matches + [(i, j, target)];
        }
      }
    }
  }

  // ---------------------------------------------------------------------
  // Part 1: XMAS in a direction

  /** "XMAS" reads from (i, j) in direction `d`, all four letters inside the grid. */
  predicate XmasAt(G: seq<seq<Cell>>, i: nat, j: nat, d: Direction)
    requires IsGrid(G)
  {
    forall m :: 0 <= m < 4 ==>
      InGrid(Walk(i, DRow(d), m), Walk(j, DCol(d), m)) && G[Walk(i, DRow(d), m)][Walk(j, DCol(d), m)] == Word[m]
  }

  /** Only an X can start the word. */
  lemma XmasStartsWithX(G: seq<seq<Cell>>, i: nat, j: nat)
    requires IsGrid(G) && i < N && j < N
    ensures forall d :: XmasAt(G, i, j, d) ==> G[i][j] == X
  {
    forall d | XmasAt(G, i, j, d) ensures G[i][j] == X {
      assert Walk(i, DRow(d), 0) == i && Walk(j, DCol(d), 0) == j;
    }
  }

  /** The cells of the first `k + 1` steps from (i, j) hold the successors of the first one. */
  predicate Follows(G: seq<seq<Cell>>, i: nat, j: nat, d: Direction, k: nat)
    requires IsGrid(G) && InGrid(i, j)
  {
    forall m :: 0 <= m <= k ==>
      InGrid(Walk(i, DRow(d), m), Walk(j, DCol(d), m))
      && G[Walk(i, DRow(d), m)][Walk(j, DCol(d), m)] == NextN(G[i][j], m)
  }

  /** One more step onto the successor letter extends the walk. */
  lemma FollowsStep(G: seq<seq<Cell>>, i: nat, j: nat, d: Direction, k: nat)
    requires IsGrid(G) && InGrid(i, j) && Follows(G, i, j, d, k)
    requires InGrid(Walk(i, DRow(d), k + 1), Walk(j, DCol(d), k + 1))
    requires G[Walk(i, DRow(d), k + 1)][Walk(j, DCol(d), k + 1)] == NextN(G[i][j], k + 1)
    ensures Follows(G, i, j, d, k + 1)
  {
  }

  /** The outcome of step `k + 1` of the walk: off the grid, a wrong letter, or one more successor. */
  lemma WalkOn(G: seq<seq<Cell>>, i: nat, j: nat, d: Direction, k: nat)
    requires IsGrid(G) && InGrid(i, j) && k < 3 && Follows(G, i, j, d, k)
    ensures var x, y := Walk(i, DRow(d), k), Walk(j, DCol(d), k);
      var st := Step(d, x, y);
      && (st.None? ==> !XmasAt(G, i, j, d))
      && (st.Some? ==>
            && st.value.0 == Walk(i, DRow(d), k + 1) && st.value.1 == Walk(j, DCol(d), k + 1)
            && InGrid(st.value.0, st.value.1)
            && (G[st.value.0][st.value.1] != NextN(G[i][j], k + 1) ==> !XmasAt(G, i, j, d))
            && (G[st.value.0][st.value.1] == NextN(G[i][j], k + 1) ==> Follows(G, i, j, d, k + 1)))
  {
    var x, y := Walk(i, DRow(d), k), Walk(j, DCol(d), k);
    if Step(d, x, y).None? {
      BrokenWalk(G, i, j, d, k);
    } else if G[Walk(i, DRow(d), k + 1)][Walk(j, DCol(d), k + 1)] != NextN(G[i][j], k + 1) {
      BrokenWalk(G, i, j, d, k);
    } else {
      FollowsStep(G, i, j, d, k);
    }
  }

  /** A walk that leaves the grid or misses a successor within three steps does not read "XMAS". */
  lemma BrokenWalk(G: seq<seq<Cell>>, i: nat, j: nat, d: Direction, k: nat)
    requires IsGrid(G) && InGrid(i, j) && k < 3
    requires !InGrid(Walk(i, DRow(d), k + 1), Walk(j, DCol(d), k + 1))
      || G[Walk(i, DRow(d), k + 1)][Walk(j, DCol(d), k + 1)] != NextN(G[i][j], k + 1)
    ensures !XmasAt(G, i, j, d)
  {
    XmasStartsWithX(G, i, j);
    NextSpellsWord(G[i][j]);
  }

  /** A walk of three successors reads "XMAS" exactly when it starts on an X. */
  lemma WholeWalk(G: seq<seq<Cell>>, i: nat, j: nat, d: Direction)
    requires IsGrid(G) && InGrid(i, j) && Follows(G, i, j, d, 3)
    ensures XmasAt(G, i, j, d) <==> IsFinal(NextN(G[i][j], 3))
  {
    NextSpellsWord(G[i][j]);
    XmasStartsWithX(G, i, j);
    if IsFinal(NextN(G[i][j], 3)) {
      assert forall m :: 0 <= m < 4 ==> NextN(G[i][j], m) == Word[m];
    }
  }

  /**
   * `check_xmas_in_direction`: three steps from (i, j), each of which must
   * stay in the grid and land on the successor of the letter before.
   */
  method CheckXmasInDirection(g: array2<Cell>, i: nat, j: nat, d: Direction) returns (found: bool)
    requires g.Length0 == N && g.Length1 == N && i < N && j < N
    ensures found == XmasAt(Snapshot(g), i, j, d)
  {
    ghost var G := Snapshot(g);
    var start := g[i, j];
    var x, y := i, j;
    for k := 0 to 3
      invariant x == Walk(i, DRow(d), k) && y == Walk(j, DCol(d), k) && InGrid(x, y)
      invariant start == NextN(G[i][j], k)
      invariant Follows(G, i, j, d, k)
    {
      var next := Next(start);
      var st := Step(d, x, y);
      WalkOn(G, i, j, d, k);
      if st.None? {
        return false;
      }
      var (u, v) := st.value;
      if g[u, v] != next {
        return false;
      }
      start, x, y := next, u, v;
    }
    WholeWalk(G, i, j, d);
    found := IsFinal(start);
  }

  function B2N(b: bool): nat
  {
    if b then 1 else 0
  }

  /** How many of the eight directions read "XMAS" from (i, j). */
  function Hits(G: seq<seq<Cell>>, i: nat, j: nat): (h: nat)
    requires IsGrid(G) && i < N && j < N
    ensures h <= 8
    ensures h > 0 ==> G[i][j] == X
  {
    XmasStartsWithX(G, i, j);
    B2N(XmasAt(G, i, j, Bottom)) + B2N(XmasAt(G, i, j, BottomLeft)) + B2N(XmasAt(G, i, j, BottomRight))
    + B2N(XmasAt(G, i, j, Left)) + B2N(XmasAt(G, i, j, Right))
    + B2N(XmasAt(G, i, j, TopLeft)) + B2N(XmasAt(G, i, j, Top)) + B2N(XmasAt(G, i, j, TopRight))
  }

  predicate InGridAll(coords: seq<(nat, nat, Cell)>)
  {
    forall k :: 0 <= k < |coords| ==> coords[k].0 < N && coords[k].1 < N
  }

  /** The sum of the hits of the given origins. */
  function HitSum(G: seq<seq<Cell>>, coords: seq<(nat, nat, Cell)>): (total: nat)
    requires IsGrid(G) && InGridAll(coords)
    ensures total <= 8 * |coords|
  {
    if |coords| == 0 then 0
    else
      var c := coords[|coords| - 1];
      HitSum(G, coords[..|coords| - 1]) + Hits(G, c.0, c.1)
  }

  /** The fold of `d4_part1_solution`: eight directional checks per origin. */
  method CountXmas(g: array2<Cell>, coords: seq<(nat, nat, Cell)>) returns (result: nat)
    requires g.Length0 == N && g.Length1 == N && InGridAll(coords)
    ensures result == HitSum(Snapshot(g), coords)
  {
    ghost var G := Snapshot(g);
    result := 0;
    for k := 0 to |coords|
      invariant result == HitSum(G, coords[..k])
    {
      assert coords[..k + 1][..k] == coords[..k];
      var (i, j, _) := coords[k];
      var b1 := CheckXmasInDirection(g, i, j, Bottom);
      var b2 := CheckXmasInDirection(g, i, j, BottomLeft);
      var b3 := CheckXmasInDirection(g, i, j, BottomRight);
      var b4 := CheckXmasInDirection(g, i, j, Left);
      var b5 := CheckXmasInDirection(g, i, j, Right);
      var b6 := CheckXmasInDirection(g, i, j, TopLeft);
      var b7 := CheckXmasInDirection(g, i, j, Top);
      var b8 := CheckXmasInDirection(g, i, j, TopRight);
      result := result + (B2N(b1) + B2N(b2) + B2N(b3) + B2N(b4) + B2N(b5) + B2N(b6) + B2N(b7) + B2N(b8));
    }
    assert coords[..|coords|] == coords;
  }

  /** The part 1 answer of a grid: hits summed over its X cells. */
  function XmasCount(G: seq<seq<Cell>>): nat
    requires IsGrid(G)
  {
    HitSum(G, Targets(G, X))
  }

  /** `d4_part1_solution` on the text of the input file. */
  method Part1(text: string) returns (result: nat)
    ensures result == XmasCount(MapOf(text))
  {
    var grid := LoadMap(text);
    var searchCoords := GetTargetCoords(grid, X);
    result := CountXmas(grid, searchCoords);
  }

  /** The hits of all cells before (i, j) in row-major order. */
  function AllHitsBefore(G: seq<seq<Cell>>, i: nat, j: nat): nat
    requires IsGrid(G) && Bound(i, j)
    decreases i, j
  {
    if j == 0 then
      if i == 0 then 0 else AllHitsBefore(G, i - 1, N)
    else AllHitsBefore(G, i, j - 1) + Hits(G, i, j - 1)
  }

  /** Summing over the X cells alone loses nothing: only an X can start "XMAS". */
  lemma {:induction false} HitSumIsAllHits(G: seq<seq<Cell>>, i: nat, j: nat)
    requires IsGrid(G) && Bound(i, j)
    ensures HitSum(G, TargetsBefore(G, X, i, j)) == AllHitsBefore(G, i, j)
    decreases i, j
  {
    if j == 0 {
      if i > 0 {
        HitSumIsAllHits(G, i - 1, N);
      }
    } else {
      HitSumIsAllHits(G, i, j - 1);
      var prev := TargetsBefore(G, X, i, j - 1);
      if G[i][j - 1] == X {
        var r := prev + [(i, j - 1, X)];
        assert r[..|r| - 1] == prev;
      }
    }
  }

  /** The part 1 answer counts every (cell, direction) pair that reads "XMAS". */
  lemma XmasCountIsAllHits(G: seq<seq<Cell>>)
    requires IsGrid(G)
    ensures XmasCount(G) == AllHitsBefore(G, N, 0)
  {
    HitSumIsAllHits(G, N, 0);
  }

  // ---------------------------------------------------------------------
  // Part 2: crossing MAS

  /** One diagonal of the square reads "MAS" one way or the other. */
  predicate IsMS(a: Cell, b: Cell)
  {
    (a == M && b == S) || (a == S && b == M)
  }

  /** (i, j) is off the border and both diagonals through it pair an M with an S. */
  predicate MasAt(G: seq<seq<Cell>>, i: nat, j: nat)
    requires IsGrid(G)
  {
    1 <= i < N - 1 && 1 <= j < N - 1
    && IsMS(G[i - 1][j - 1], G[i + 1][j + 1]) && IsMS(G[i + 1][j - 1], G[i - 1][j + 1])
  }

  /** `check_mas_in_square`: count the diagonals (top-left/bottom-right, bottom-left/top-right) that qualify. */
  method CheckMasInSquare(g: array2<Cell>, i: nat, j: nat) returns (found: bool)
    requires g.Length0 == N && g.Length1 == N && i < N && j < N
    ensures found == MasAt(Snapshot(g), i, j)
  {
    var count := 0;
    var letterTopLeft, letterBottomRight := Step(TopLeft, i, j), Step(BottomRight, i, j);
    if letterTopLeft.Some? && letterBottomRight.Some? {
      var (i1, j1) := letterTopLeft.value;
      var (u, v) := letterBottomRight.value;
      if (g[i1, j1] == M && g[u, v] == S) || (g[i1, j1] == S && g[u, v] == M) {
        count := count + 1;
      }
    }
    var letterBottomLeft, letterTopRight := Step(BottomLeft, i, j), Step(TopRight, i, j);
    if letterBottomLeft.Some? && letterTopRight.Some? {
      var (i1, j1) := letterBottomLeft.value;
      var (u, v) := letterTopRight.value;
      if (g[i1, j1] == M && g[u, v] == S) || (g[i1, j1] == S && g[u, v] == M) {
        count := count + 1;
      }
    }
    found := count >= 2;
  }

  /** How many of the given centres pass the square check. */
  function MasSum(G: seq<seq<Cell>>, coords: seq<(nat, nat, Cell)>): (total: nat)
    requires IsGrid(G) && InGridAll(coords)
    ensures total <= |coords|
  {
    if |coords| == 0 then 0
    else
      var c := coords[|coords| - 1];
      MasSum(G, coords[..|coords| - 1]) + B2N(MasAt(G, c.0, c.1))
  }

  /** The fold of `d4_part2_solution`. */
  method CountMas(g: array2<Cell>, coords: seq<(nat, nat, Cell)>) returns (result: nat)
    requires g.Length0 == N && g.Length1 == N && InGridAll(coords)
    ensures result == MasSum(Snapshot(g), coords)
  {
    ghost var G := Snapshot(g);
    result := 0;
    for k := 0 to |coords|
      invariant result == MasSum(G, coords[..k])
    {
      assert coords[..k + 1][..k] == coords[..k];
      var (i, j, _) := coords[k];
      var found := CheckMasInSquare(g, i, j);
      result := result + B2N(found);
    }
    assert coords[..|coords|] == coords;
  }

  /** The part 2 answer of a grid: the A cells that pass the square check. */
  function MasCount(G: seq<seq<Cell>>): nat
    requires IsGrid(G)
  {
    MasSum(G, Targets(G, A))
  }

  /** `d4_part2_solution` on the text of the input file. */
  method Part2(text: string) returns (result: nat)
    ensures result == MasCount(MapOf(text))
  {
    var grid := LoadMap(text);
    var searchCoords := GetTargetCoords(grid, A);
    result := CountMas(grid, searchCoords);
  }

  /** M and S exchanged, everything else kept. */
  function SwapMS(c: Cell): Cell
  {
    match c
    case M => S
    case S => M
    case _ => c
  }

  function SwapGrid(G: seq<seq<Cell>>): (H: seq<seq<Cell>>)
    requires IsGrid(G)
    ensures IsGrid(H) && forall i, j :: 0 <= i < N && 0 <= j < N ==> H[i][j] == SwapMS(G[i][j])
  {
    seq(N, i requires 0 <= i < N => seq(N, j requires 0 <= j < N => SwapMS(G[i][j])))
  }

  /** The A cells of a grid are those of its M/S-swapped grid. */
  lemma {:induction false} SwapKeepsTargets(G: seq<seq<Cell>>, i: nat, j: nat)
    requires IsGrid(G) && Bound(i, j)
    ensures TargetsBefore(SwapGrid(G), A, i, j) == TargetsBefore(G, A, i, j)
    decreases i, j
  {
    if j == 0 {
      if i > 0 {
        SwapKeepsTargets(G, i - 1, N);
      }
    } else {
      SwapKeepsTargets(G, i, j - 1);
    }
  }

  /** The M/S-swapped grid gives the same MAS sum over any centres. */
  lemma {:induction false} SwapKeepsMasSum(G: seq<seq<Cell>>, coords: seq<(nat, nat, Cell)>)
    requires IsGrid(G) && InGridAll(coords)
    ensures MasSum(SwapGrid(G), coords) == MasSum(G, coords)
  {
    if |coords| > 0 {
      SwapKeepsMasSum(G, coords[..|coords| - 1]);
    }
  }

  /** Exchanging M and S everywhere leaves the part 2 answer unchanged. */
  lemma SwapKeepsMasCount(G: seq<seq<Cell>>)
    requires IsGrid(G)
    ensures MasCount(SwapGrid(G)) == MasCount(G)
  {
    SwapKeepsTargets(G, N, 0);
    SwapKeepsMasSum(G, Targets(G, A));
  }
}
