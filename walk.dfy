/**
  The walk `Snake::is_cube` performs (src/main.rs:74-94), as pure functions:
  the direction and the cell at every step of the chain, and the property
  `is_cube` decides. The imperative loop itself is `Solver.Snake.IsCube`.
 */
module Walk {
  import opened Rotation
  import opened Encoding

  /** A cell of the grid; the source keeps its coordinates in three `i32` variables. */
  datatype Cell = Cell(x: int, y: int, z: int)

  function Move(p: Cell, d: Direction): Cell {
    Cell(p.x + d.a, p.y + d.b, p.z + d.c)
  }

  /** A cell of the 3x3x3 cube. */
  predicate InBox(p: Cell) {
    0 <= p.x < 3 && 0 <= p.y < 3 && 0 <= p.z < 3
  }

  /** The bounds test as the source writes it: below 0, or equal to (not above) 3. */
  predicate Escapes(p: Cell) {
    p.x < 0 || p.x == 3 || p.y < 0 || p.y == 3 || p.z < 0 || p.z == 3
  }

  /** The direction after the first `i` hinges have been applied, starting from RIGHT. */
  function DirAt(steps: seq<Change>, i: nat): Direction
    requires i <= |steps|
  {
    if i == 0 then RIGHT else ApplyChange(steps[i - 1], DirAt(steps, i - 1))
  }

  /** Starting from RIGHT, the walk always advances along a face direction. */
  lemma {:induction false} DirIsUnit(steps: seq<Change>, i: nat)
    requires i <= |steps|
    ensures IsUnit(DirAt(steps, i))
  {
    if i > 0 {
      DirIsUnit(steps, i - 1);
      ApplyChangeKeepsUnit(steps[i - 1], DirAt(steps, i - 1));
    }
  }

  /** The cell reached after `i` moves from `start`. */
  function PosAt(steps: seq<Change>, start: Cell, i: nat): Cell
    requires i <= |steps|
  {
    if i == 0 then start else Move(PosAt(steps, start, i - 1), DirAt(steps, i))
  }

  /** The cells the walk passes through: the start and the end of every move. */
  function Path(steps: seq<Change>, start: Cell): (p: seq<Cell>)
    ensures |p| == |steps| + 1
  {
    seq(|steps| + 1, i requires 0 <= i <= |steps| => PosAt(steps, start, i))
  }

  /** The first `n` cells all lie in the cube and no two of them coincide. */
  predicate InBoxAndDistinct(cells: seq<Cell>, n: nat)
    requires n <= |cells|
  {
    && (forall i :: 0 <= i < n ==> InBox(cells[i]))
    && (forall i, j :: 0 <= i < j < n ==> cells[i] != cells[j])
  }

  /**
    What `is_cube` accepts: each of the |steps| cells it checks (the start and
    the ends of the first |steps| - 1 moves; the move after the last step is
    never checked) passes its check. FillsMeans restates this as "all in the
    cube and pairwise different".
   */
  predicate Fills(steps: seq<Change>, start: Cell) {
    Clean(Path(steps, start), |steps|)
  }

  /** `c` is one of the first `n` cells of `cells`. */
  predicate Occupied(cells: seq<Cell>, n: nat, c: Cell)
    requires n <= |cells|
  {
    n > 0 && (cells[n - 1] == c || Occupied(cells, n - 1, c))
  }

  lemma {:induction false} OccupiedHas(cells: seq<Cell>, n: nat, j: nat)
    requires j < n <= |cells|
    ensures Occupied(cells, n, cells[j])
  {
    if j < n - 1 {
      OccupiedHas(cells, n - 1, j);
    }
  }

  lemma {:induction false} OccupiedWitness(cells: seq<Cell>, n: nat, c: Cell) returns (j: nat)
    requires n <= |cells| && Occupied(cells, n, c)
    ensures j < n && cells[j] == c
  {
    if c == cells[n - 1] {
      j := n - 1;
    } else {
      j := OccupiedWitness(cells, n - 1, c);
    }
  }

  /**
    The first `n` checks of `is_cube` pass on these cells: each is inside the
    cube and not among the cells before it.
   */
  predicate Clean(cells: seq<Cell>, n: nat)
    requires n <= |cells|
  {
    n == 0 || (Clean(cells, n - 1) && InBox(cells[n - 1]) && !Occupied(cells, n - 1, cells[n - 1]))
  }

  /** Passing the first `n` checks is being in the cube and pairwise different there. */
  lemma {:induction false} CleanIsInBoxAndDistinct(cells: seq<Cell>, n: nat)
    requires n <= |cells|
    ensures Clean(cells, n) <==> InBoxAndDistinct(cells, n)
  {
    if n > 0 {
      CleanIsInBoxAndDistinct(cells, n - 1);
      if Occupied(cells, n - 1, cells[n - 1]) {
        var j := OccupiedWitness(cells, n - 1, cells[n - 1]);
      } else {
        forall i | 0 <= i < n - 1
          ensures cells[i] != cells[n - 1]
        {
          OccupiedHas(cells, n - 1, i);
        }
      }
    }
  }

  /** Once a check fails, the walk fails every longer run of checks too. */
  lemma {:induction false} FailStays(cells: seq<Cell>, m: nat, n: nat)
    requires m <= n <= |cells| && !Clean(cells, m)
    ensures !Clean(cells, n)
    decreases n
  {
    if m < n {
      FailStays(cells, m, n - 1);
    }
  }

  /** Each component of the walk's direction is -1, 0 or 1. */
  lemma DirAtBounds(steps: seq<Change>, i: nat)
    requires i <= |steps|
    ensures -1 <= DirAt(steps, i).a <= 1 && -1 <= DirAt(steps, i).b <= 1 && -1 <= DirAt(steps, i).c <= 1
  {
    DirIsUnit(steps, i);
  }

  /**
    The walk's cells, described only by how each follows from the one before:
    what an incremental walk needs, and all it needs, to decide Fills.
   */
  lemma WalkCells(steps: seq<Change>, start: Cell) returns (p: seq<Cell>)
    ensures |p| == |steps| + 1 && p[0] == start
    ensures forall i {:trigger DirAt(steps, i)} :: 0 < i <= |steps| ==> p[i] == Move(p[i - 1], DirAt(steps, i))
    ensures Fills(steps, start) <==> Clean(p, |steps|)
  {
    p := Path(steps, start);
  }

  /** A cell that is outside the cube or already occupied fails the walk for good. */
  lemma CheckFails(cells: seq<Cell>, i: nat, n: nat)
    requires i < n <= |cells|
    requires !InBox(cells[i]) || Occupied(cells, i, cells[i])
    ensures !Clean(cells, n)
  {
    FailStays(cells, i + 1, n);
  }

  /** `is_cube` accepts exactly the walks whose checked cells lie in the cube and are pairwise different. */
  lemma FillsMeans(steps: seq<Change>, start: Cell)
    ensures Fills(steps, start) <==> InBoxAndDistinct(Path(steps, start), |steps|)
  {
    CleanIsInBoxAndDistinct(Path(steps, start), |steps|);
  }

  /**
    At every check the coordinates lie in [-1, 3] (after the first move) and
    at most 3 (at the start), so testing `== 3` instead of `>= 3` loses nothing
    and the grid is always indexed inside its bounds.
   */
  lemma {:induction false} BoundsCheckSuffices(steps: seq<Change>, start: Cell, i: nat)
    requires i < |steps| && start.x <= 3 && start.y <= 3 && start.z <= 3
    requires forall j :: 0 <= j < i ==> InBox(PosAt(steps, start, j))
    ensures i > 0 ==> var p := PosAt(steps, start, i);
      -1 <= p.x <= 3 && -1 <= p.y <= 3 && -1 <= p.z <= 3
    ensures Escapes(PosAt(steps, start, i)) <==> !InBox(PosAt(steps, start, i))
  {
    if i > 0 {
      assert InBox(PosAt(steps, start, i - 1));
      DirIsUnit(steps, i);
    }
  }

  /** The grid cells numbered 0..26, one number per cell. */
  function CellNumber(p: Cell): int {
    9 * p.x + 3 * p.y + p.z
  }

  lemma CellNumbering(p: Cell, q: Cell)
    requires InBox(p) && InBox(q)
    ensures 0 <= CellNumber(p) < 27
    ensures CellNumber(p) == CellNumber(q) ==> p == q
  {
  }

  /**
    `grid` is the 3x3x3 visited table of `is_cube`, flattened by cell number:
    an in-box cell is marked exactly when it is among the first n cells.
   */
  ghost predicate Marks(grid: seq<bool>, cells: seq<Cell>, n: nat)
    requires n <= |cells|
  {
    |grid| == 27 && forall c :: InBox(c) ==> (grid[CellNumber(c)] <==> Occupied(cells, n, c))
  }

  /** The freshly cleared table marks nothing. */
  lemma MarksNone(cells: seq<Cell>)
    ensures Marks(seq(27, _ => false), cells, 0)
  {
    forall c | InBox(c)
      ensures !seq(27, _ => false)[CellNumber(c)]
    {
      CellNumbering(c, c);
    }
  }

  /** Marking the next in-box cell keeps the table exact. */
  lemma MarksNext(grid: seq<bool>, cells: seq<Cell>, n: nat)
    requires n < |cells| && Marks(grid, cells, n) && InBox(cells[n])
    ensures 0 <= CellNumber(cells[n]) < 27
    ensures Marks(grid[CellNumber(cells[n]) := true], cells, n + 1)
  {
    var g := grid[CellNumber(cells[n]) := true];
    CellNumbering(cells[n], cells[n]);
    forall c | InBox(c)
      ensures g[CellNumber(c)] <==> Occupied(cells, n + 1, c)
    {
      CellNumbering(c, cells[n]);
    }
  }

  /**
    One round of the `is_cube` loop on the i-th cell: outside the cube or
    already marked, the walk fails; otherwise the prefix stays clean and
    marking the cell keeps the table exact.
   */
  lemma Visit(grid: seq<bool>, cells: seq<Cell>, i: nat, n: nat, x: int, y: int, z: int)
    requires i < n <= |cells| && Clean(cells, i) && Marks(grid, cells, i)
    requires cells[i] == Cell(x, y, z) && x <= 3 && y <= 3 && z <= 3
    ensures x < 0 || x == 3 || y < 0 || y == 3 || z < 0 || z == 3 ==> !Clean(cells, n)
    ensures 0 <= x < 3 && 0 <= y < 3 && 0 <= z < 3 ==> 0 <= 9 * x + 3 * y + z < 27
    ensures 0 <= x < 3 && 0 <= y < 3 && 0 <= z < 3 && grid[9 * x + 3 * y + z] ==> !Clean(cells, n)
    ensures 0 <= x < 3 && 0 <= y < 3 && 0 <= z < 3 && !grid[9 * x + 3 * y + z] ==>
      Clean(cells, i + 1) && Marks(grid[9 * x + 3 * y + z := true], cells, i + 1)
  {
    if !InBox(cells[i]) {
      CheckFails(cells, i, n);
    } else if grid[CellNumber(cells[i])] {
      CheckFails(cells, i, n);
    } else {
      MarksNext(grid, cells, i);
    }
  }

  /** A sequence whose elements are pairwise different. */
  predicate Distinct(s: seq<int>) {
    forall i, j :: 0 <= i < j < |s| ==> s[i] != s[j]
  }

  /** The numbers 0..n-1, as a set. */
  function Below(n: nat): (r: set<int>)
    ensures forall v :: v in r <==> 0 <= v < n
  {
    if n == 0 then {} else Below(n - 1) + {n - 1}
  }

  lemma {:induction false} BelowCard(n: nat)
    ensures |Below(n)| == n
  {
    if n > 0 {
      var smaller := Below(n - 1);
      BelowCard(n - 1);
      assert n - 1 !in smaller;
      assert |smaller + {n - 1}| == |smaller| + 1;
    }
  }

  lemma {:induction false} DistinctCard(s: seq<int>)
    requires Distinct(s)
    ensures |set v | v in s| == |s|
  {
    if s != [] {
      var t := s[..|s| - 1];
      assert Distinct(t);
      DistinctCard(t);
      assert s == t + [s[|s| - 1]];
      assert s[|s| - 1] !in t;
      assert (set v | v in s) == (set v | v in t) + {s[|s| - 1]};
    }
  }

  lemma SubsetOfSameSize(a: set<int>, b: set<int>)
    requires a <= b && |a| == |b|
    ensures a == b
  {
    assert b == a + (b - a);
    assert a * (b - a) == {};
    assert |b - a| == 0;
    forall x | x in b
      ensures x in a
    {
      assert x !in b - a;
    }
  }

  /** Pigeonhole: n different numbers below n take every value below n. */
  lemma CoversRange(s: seq<int>, v: int)
    requires Distinct(s) && (forall i :: 0 <= i < |s| ==> 0 <= s[i] < |s|)
    requires 0 <= v < |s|
    ensures v in s
  {
    DistinctCard(s);
    BelowCard(|s|);
    SubsetOfSameSize((set v | v in s), Below(|s|));
    assert v in Below(|s|);
  }

  /**
    A folding of 27 segments that `is_cube` accepts visits every one of the 27
    cells of the cube, so no explicit "all cells filled" scan is needed.
   */
  lemma FillsEveryCell(steps: seq<Change>, start: Cell, c: Cell)
    requires |steps| == 27 && Fills(steps, start) && InBox(c)
    ensures exists i :: 0 <= i < 27 && PosAt(steps, start, i) == c
  {
    FillsMeans(steps, start);
    var i := CoversCube(Path(steps, start), c);
    assert Path(steps, start)[i] == PosAt(steps, start, i);
  }

  /** Pigeonhole on cells: 27 different cells of the cube are all of them. */
  lemma CoversCube(cells: seq<Cell>, c: Cell) returns (i: nat)
    requires 27 <= |cells| && InBoxAndDistinct(cells, 27) && InBox(c)
    ensures i < 27 && cells[i] == c
  {
    var numbers := seq(27, i requires 0 <= i < 27 => CellNumber(cells[i]));
    forall i | 0 <= i < 27
      ensures 0 <= numbers[i] < 27
    {
      CellNumbering(cells[i], c);
    }
    forall i, j | 0 <= i < j < 27
      ensures numbers[i] != numbers[j]
    {
      CellNumbering(cells[i], cells[j]);
    }
    CellNumbering(c, c);
    CoversRange(numbers, CellNumber(c));
    i :| 0 <= i < 27 && numbers[i] == CellNumber(c);
    CellNumbering(cells[i], c);
  }

  /**
    Slots 0 and 1 are fixed, so every decoded folding starts with two moves in
    direction RIGHT; a folding can fill the cube only from a start in the
    y == 0 layer, which all three start positions the driver tries are.
   */
  lemma FirstMovesRight(s: nat, start: Cell)
    ensures DirAt(Decode(s), 1) == RIGHT && DirAt(Decode(s), 2) == RIGHT
    ensures PosAt(Decode(s), start, 2) == Cell(start.x, start.y + 2, start.z)
    ensures Fills(Decode(s), start) ==> start.y == 0
  {
    DecodeStartsStraight(s);
    StraightStart(Decode(s), start);
  }

  lemma StraightStart(f: seq<Change>, start: Cell)
    requires |f| == LENGTH && f[0] == NoChange && f[1] == NoChange
    ensures DirAt(f, 1) == RIGHT && DirAt(f, 2) == RIGHT
    ensures PosAt(f, start, 2) == Cell(start.x, start.y + 2, start.z)
    ensures Fills(f, start) ==> start.y == 0
  {
    assert DirAt(f, 1) == RIGHT;
    assert DirAt(f, 2) == RIGHT;
    assert PosAt(f, start, 1) == Cell(start.x, start.y + 1, start.z);
    if Fills(f, start) {
      FillsMeans(f, start);
      assert InBox(Path(f, start)[0]) && InBox(Path(f, start)[2]);
    }
  }
}
