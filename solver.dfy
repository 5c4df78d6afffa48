/**
  The snake itself (src/main.rs:38-42, 62-127): a class holding the 27 hinge
  choices and the enumeration state, its three operations, and the search
  driver with its console output replaced by the list of reported solutions.
 */
module Solver {
  import opened Rotation
  import opened Encoding
  import opened Walk

  class Snake {
    var steps: array<Change>
    var state: nat

    /** The class invariant: the slots are always the decode of the `u32` state. */
    ghost predicate Valid()
      reads this, steps
    {
      steps.Length == LENGTH && state < STATES && steps[..] == Decode(state)
    }

    /** `Snake::new`: every slot NoChange, then `0.into()` at every free slot. */
    constructor ()
      ensures Valid() && fresh(steps) && state == 0
      ensures forall k :: 0 <= k < HINGES ==> steps[CHANGERS[k]] == RotateRight
      ensures forall i :: 0 <= i < LENGTH && !IsFree(i) ==> steps[i] == NoChange
    {
      var a := new Change[LENGTH](_ => NoChange);
      HingeAtInvertsChangers();
      for k := 0 to |CHANGERS|
        invariant forall i :: 0 <= i < LENGTH ==>
          a[i] == if IsFree(i) && HingeAt(i) < k then RotateRight else NoChange
      {
        a[CHANGERS[k]] := FromCode(0);
      }
      DecodeZero();
      assert a[..] == Decode(0) by {
        forall i | 0 <= i < LENGTH
          ensures a[i] == Decode(0)[i]
        {
          if IsFree(i) {
            assert Decode(0)[CHANGERS[HingeAt(i)]] == RotateRight;
          }
        }
      }
      steps := a;
      state := 0;
    }

    /**
      `Snake::is_cube`: walks the chain from (x0, y0, z0) and answers whether
      every checked cell is inside the cube and fresh. The loop runs over a
      copy of the steps, as the source's by-value `for` does, and keeps the
      3x3x3 visited grid as a value of 27 flags in row-major order. The
      source indexes its grid after testing `< 0` and `== 3` only, so it
      needs every start coordinate to be at most 3.
     */
    method IsCube(x0: int, y0: int, z0: int) returns (ok: bool)
      requires x0 <= 3 && y0 <= 3 && z0 <= 3
      ensures ok == Fills(steps[..], Cell(x0, y0, z0))
    {
      var f := steps[..];
      ghost var path := WalkCells(f, Cell(x0, y0, z0));
      var visited := seq(27, _ => false);
      MarksNone(path);
      var dir := RIGHT;
      var x, y, z := x0, y0, z0;
      for i := 0 to |f|
        invariant f == steps[..]
        invariant Cell(x, y, z) == path[i] && dir == DirAt(f, i)
        invariant x <= 3 && y <= 3 && z <= 3
        invariant Clean(path, i)
        invariant Marks(visited, path, i)
      {
        var step := f[i];
        Visit(visited, path, i, |f|, x, y, z);
        if x < 0 || x == 3 || y < 0 || y == 3 || z < 0 || z == 3 {
          return false;
        }
        if visited[9 * x + 3 * y + z] {
          return false;
        }
        visited := visited[9 * x + 3 * y + z := true];
        dir := ApplyChange(step, dir);
        assert dir == DirAt(f, i + 1);
        DirAtBounds(f, i + 1);
        ghost var here := Cell(x, y, z);
        x, y, z := x + dir.a, y + dir.b, z + dir.c;
        assert Cell(x, y, z) == Move(here, dir);
      }
      return true;
    }

    /**
      `Snake::rotate_cube`: advance the state by one and rewrite every free
      slot from the new state's base-4 digits. `state += 1` would overflow at
      `u32::MAX`, so the model demands a smaller state.
     */
    method RotateCube()
      requires Valid() && state < U32_MAX
      modifies this, steps
      ensures Valid() && steps == old(steps)
      ensures state == old(state) + 1
      ensures forall k :: 0 <= k < HINGES ==> steps[CHANGERS[k]] == FromCode(state / Pow4(k) % 4)
      ensures forall i :: 0 <= i < LENGTH && !IsFree(i) ==> steps[i] == old(steps[i])
    {
      HingeAtInvertsChangers();
      state := state + 1;
      var v := state;
      for k := 0 to |CHANGERS|
        invariant steps == old(steps) && steps.Length == LENGTH && state == old(state) + 1
        invariant v == Shift(state, k)
        invariant forall i :: 0 <= i < LENGTH ==>
          steps[i] == if IsFree(i) && HingeAt(i) < k then FromCode(Digit(state, HingeAt(i))) else old(steps[i])
      {
        var d := v % 4;
        steps[CHANGERS[k]] := FromCode(d);
        v := v / 4;
      }
      forall i | 0 <= i < LENGTH
        ensures steps[i] == Decode(state)[i]
      {
        if IsFree(i) {
          assert Decode(state)[CHANGERS[HingeAt(i)]] == FromCode(Digit(state, HingeAt(i)));
        }
      }
      assert steps[..] == Decode(state);
      forall k | 0 <= k < HINGES
        ensures steps[CHANGERS[k]] == FromCode(state / Pow4(k) % 4)
      {
        ShiftIsDiv(state, k);
      }
    }
  }

  /** One reported solution: its start cell and the 27 directions `solve` prints. */
  datatype Solution = Solution(start: Cell, directions: seq<Direction>)

  /** The start cells `solve` tries, in order. */
  const STARTS: seq<Cell> := [Cell(0, 0, 0), Cell(1, 0, 0), Cell(1, 0, 1)]

  /**
    The directions `solve` prints for a solution: at each slot, the direction
    before that slot's hinge is applied. All are face directions, so the
    direction formatter never reaches its panic.
   */
  function Replay(f: seq<Change>): (r: seq<Direction>)
    ensures |r| == |f|
    ensures |f| > 0 ==> r[0] == RIGHT
    ensures forall i :: 0 <= i < |f| - 1 ==> r[i + 1] == ApplyChange(f[i], r[i])
    ensures forall i :: 0 <= i < |f| ==> IsUnit(r[i])
  {
    assert forall i :: 0 <= i < |f| ==> IsUnit(DirAt(f, i)) by {
      forall i | 0 <= i < |f|
        ensures IsUnit(DirAt(f, i))
      {
        DirIsUnit(f, i);
      }
    }
    seq(|f|, i requires 0 <= i < |f| => DirAt(f, i))
  }

  /** The states in [lo, hi) that `accepts` holds of, in increasing order. */
  function Collect(accepts: nat -> bool, lo: nat, hi: nat): seq<nat>
    decreases hi
  {
    if hi <= lo then []
    else Collect(accepts, lo, hi - 1) + (if accepts(hi - 1) then [hi - 1] else [])
  }

  /** Collect lists exactly the accepted states of [lo, hi), each once, in increasing order. */
  lemma {:induction false} CollectExactly(accepts: nat -> bool, lo: nat, hi: nat)
    ensures forall i :: 0 <= i < |Collect(accepts, lo, hi)| ==>
      lo <= Collect(accepts, lo, hi)[i] < hi && accepts(Collect(accepts, lo, hi)[i])
    ensures forall s :: lo <= s < hi && accepts(s) ==> s in Collect(accepts, lo, hi)
    ensures forall i, j :: 0 <= i < j < |Collect(accepts, lo, hi)| ==>
      Collect(accepts, lo, hi)[i] < Collect(accepts, lo, hi)[j]
    decreases hi
  {
    if hi > lo {
      CollectExactly(accepts, lo, hi - 1);
    }
  }

  /**
    The states in [lo, hi) whose folding fills the cube from `start`, in the
    order the driver meets them.
   */
  function Found(start: Cell, lo: nat, hi: nat): seq<nat> {
    Collect((s: nat) => Fills(Decode(s), start), lo, hi)
  }

  /**
    Found lists exactly the solving states of [lo, hi), each once, in
    increasing order: every state of the range is tried, none twice.
   */
  lemma FoundExactly(start: Cell, lo: nat, hi: nat)
    ensures forall i :: 0 <= i < |Found(start, lo, hi)| ==>
      lo <= Found(start, lo, hi)[i] < hi && Fills(Decode(Found(start, lo, hi)[i]), start)
    ensures forall s :: lo <= s < hi && Fills(Decode(s), start) ==> s in Found(start, lo, hi)
    ensures forall i, j :: 0 <= i < j < |Found(start, lo, hi)| ==> Found(start, lo, hi)[i] < Found(start, lo, hi)[j]
  {
    CollectExactly((s: nat) => Fills(Decode(s), start), lo, hi);
  }

  /** Trying one more state appends it exactly when its folding fills the cube. */
  lemma FoundStep(start: Cell, lo: nat, hi: nat)
    requires lo <= hi
    ensures Found(start, lo, hi + 1)
         == Found(start, lo, hi) + (if Fills(Decode(hi), start) then [hi] else [])
  {
  }

  /** What `solve` prints for the given solution states, one entry per state. */
  function Reports(start: Cell, states: seq<nat>): (r: seq<Solution>)
    ensures |r| == |states|
    ensures forall i :: 0 <= i < |states| ==> r[i] == Solution(start, Replay(Decode(states[i])))
  {
    seq(|states|, i requires 0 <= i < |states| => Solution(start, Replay(Decode(states[i]))))
  }

  /** One iteration of the inner loop extends the report by the state just checked, if it solves. */
  lemma SearchStep(start: Cell, s0: nat, st: nat, ok: bool, before: seq<Solution>, after: seq<Solution>)
    requires s0 <= st && ok == Fills(Decode(st), start)
    requires before == Reports(start, Found(start, s0, st))
    requires after == if ok then before + [Solution(start, Replay(Decode(st)))] else before
    ensures after == Reports(start, Found(start, s0, st + 1))
  {
    FoundStep(start, s0, st);
    if ok {
      ReportsSnoc(start, Found(start, s0, st), st);
    }
  }

  lemma ReportsSnoc(start: Cell, states: seq<nat>, s: nat)
    ensures Reports(start, states + [s]) == Reports(start, states) + [Solution(start, Replay(Decode(s)))]
  {
  }

  /**
    The inner loop of `solve` for one start cell, run from the snake's current
    state: it checks the current folding, then advances the state, `u32::MAX`
    times. From state 0 it checks states 0 .. u32::MAX - 1 (never u32::MAX)
    and leaves the state at u32::MAX. From any later state it reaches
    u32::MAX, checks it, and then `state += 1` overflows: `overflow` is that
    panic of a debug build.
   */
  method Search(snake: Snake, start: Cell) returns (found: seq<Solution>, overflow: bool)
    requires snake.Valid() && InBox(start)
    modifies snake, snake.steps
    ensures snake.Valid() && snake.steps == old(snake.steps)
    ensures overflow <==> old(snake.state) > 0
    ensures !overflow ==> snake.state == U32_MAX
    ensures found == Reports(start, Found(start, old(snake.state), if overflow then STATES else U32_MAX))
  {
    found, overflow := [], false;
    ghost var s0 := snake.state;
    for i := 0 to U32_MAX
      invariant snake.Valid() && snake.steps == old(snake.steps)
      invariant snake.state == s0 + i <= U32_MAX
      invariant found == Reports(start, Found(start, s0, snake.state))
    {
      var ok := snake.IsCube(start.x, start.y, start.z);
      ghost var before := found;
      if ok {
        found := found + [Solution(start, Replay(snake.steps[..]))];
      }
      SearchStep(start, s0, snake.state, ok, before, found);
      if snake.state == U32_MAX {
        overflow := true;
        return;
      }
      snake.RotateCube();
    }
  }

  /**
    `Snake::solve`. The snake is not reset between start cells, so the search
    from (0, 0, 0) covers states 0 .. u32::MAX - 1, and the search from
    (1, 0, 0) starts at u32::MAX, checks that one state and overflows; the
    third start cell is never reached.
   */
  method Solve() returns (found: seq<Solution>, overflow: bool)
    ensures overflow
    ensures found == Reports(STARTS[0], Found(STARTS[0], 0, U32_MAX))
                   + Reports(STARTS[1], Found(STARTS[1], U32_MAX, STATES))
  {
    var snake := new Snake();
    found, overflow := [], false;
    for t := 0 to |STARTS|
      invariant t <= 1
      invariant snake.Valid() && fresh(snake.steps)
      invariant t == 0 ==> found == [] && snake.state == 0
      invariant t == 1 ==> snake.state == U32_MAX && found == Reports(STARTS[0], Found(STARTS[0], 0, U32_MAX))
    {
      var f, o := Search(snake, STARTS[t]);
      found := found + f;
      if o {
        overflow := true;
        return;
      }
    }
  }
}
