# Snake cube solver, modelled in Dafny

The program is a brute-force solver for the 27-segment snake cube puzzle. A
chain of 27 unit cubes has to be folded into a 3x3x3 cube. A folding is an
array of 27 step slots, one hinge choice per slot. Sixteen slots are free
hinges that can each turn four ways; the other eleven of the 27 step slots
hold NoChange.

The solver encodes one folding as a `u32`, two bits per free hinge. It is
meant to walk every encoding from each of three start cells, checking
whether the folded chain stays inside the 3x3x3 box and never reuses a cell.
What it actually enumerates is narrower; see "Behaviour of the code worth
knowing" below.

The model has four modules, one per concern of `src/main.rs`:

- `Rotation` (rotation.dfy) covers three things:
  - the five hinge choices (`Change`) and the direction triple;
  - the fixed rotation table `apply_change`;
  - the discriminant conversion `From<u32>`.

  It proves that the table keeps face directions face directions, that every
  turn is invertible, and that the four turns reach exactly the four sideways
  directions.
- `Encoding` (encoding.dfy) covers the `CHANGERS` table and `Decode`. `Decode`
  maps a state to the folding that `rotate_cube` writes for it. The module
  contains an inverse `Encode` with both round-trip lemmas, which makes the
  enumeration a bijection between `u32` states and foldings.
- `Walk` (walk.dfy) covers the walk that `is_cube` performs, written as pure
  functions:
  - the direction and the cell at every step;
  - `Fills`, the property `is_cube` decides, proved equal to "the 27 checked
    cells are in the box and pairwise different";
  - a pigeonhole lemma: an accepted folding visits every cell of the cube;
  - the facts the source relies on without saying so, namely that the
    `== 3` bounds test is enough and that grid indices stay in range.
- `Solver` (solver.dfy) covers two things:
  - `Snake` as a class: a step array and a state, plus the constructor,
    `IsCube` and `RotateCube`. `IsCube` and `RotateCube` are loops proved
    against `Fills` and `Decode`.
  - the `solve` driver. Its console output becomes the list of reported
    solutions.

The class invariant `Valid()` says that the step array is always
`Decode(state)`.

### Behaviour of the code worth knowing

- The loop at src/main.rs:110 runs `u32::MAX` times, one fewer than there
  are states. From (0, 0, 0) it therefore checks states 0 .. u32::MAX - 1 and
  never state `u32::MAX`, the folding with RotateDown at every free hinge.
- The snake is built once (src/main.rs:107) and never reset. The second start
  cell therefore begins at state `u32::MAX`: it checks that one state, and then
  `state += 1` overflows. A debug build panics there. The model follows that
  reading, so the third start cell (1, 0, 1) is never reached
  (Solver.Search, Solver.Solve).
- No free hinge can hold NoChange: `FromCode` maps every 2-bit digit to a
  turn (Encoding.Decode, Encoding.IsFolding).

## Model

| member | source | states |
|---|---|---|
| Rotation.ApplyChange | src/main.rs:11-21 | NoChange leaves the direction as it is |
| Rotation.ApplyChangeKeepsUnit | src/main.rs:11-21 | every choice sends a face direction to a face direction, and every turn sends it to a perpendicular one |
| Rotation.Inverse | src/main.rs:11-21 | every choice has an inverse choice that undoes it, and that it undoes, on every triple, so each table entry is a bijection; the inverse of a turn is a turn |
| Rotation.InverseInvolution | src/main.rs:11-21 | the inverse of the inverse of a choice is the choice itself |
| Rotation.TurnsAreDistinct | src/main.rs:11-21 | on a face direction, two different turns give two different directions |
| Rotation.TurnsCoverSideways | src/main.rs:11-21 | every face direction perpendicular to `d` is produced from `d` by some turn, so together with TurnsAreDistinct each free hinge has exactly four distinct settings |
| Rotation.UnitIsFace | src/main.rs:48-60 | a face direction is one of the six directions the formatter names |
| Rotation.Code | src/main.rs:2-8 | the discriminants are 0..4, and 4 is exactly NoChange |
| Rotation.FromCode | src/main.rs:24-35 | `from(v)` is the choice whose discriminant is `v`, and it is a turn exactly when `v < 4`; values above 4 panic in the source and are excluded by the precondition |
| Rotation.FromCodeOfCode | src/main.rs:24-35 | converting a choice to its discriminant and back gives the same choice |
| Encoding.ChangersInRange | src/main.rs:63 | CHANGERS has 16 entries, all slots of the 27-step array |
| Encoding.HingeAtInvertsChangers | src/main.rs:63 | every free slot appears in CHANGERS exactly once, at the digit position HingeAt gives |
| Encoding.ShiftIsDiv | src/main.rs:98-102 | after `k` rounds of `v >>= 2`, `v` is the state divided by 4^k |
| Encoding.Decode | src/main.rs:96-104 | slot CHANGERS[k] holds `from` of the k-th base-4 digit of the state, and every other slot is NoChange |
| Encoding.EncodeDecode | src/main.rs:96-104 | reading the digits back out of `Decode(s)` gives `s` again, for every `u32` state |
| Encoding.DecodeEncode | src/main.rs:96-104 | every folding with turns at the free slots and NoChange elsewhere is `Decode` of a `u32` state |
| Encoding.DecodeInjective | src/main.rs:41 | two different `u32` states never stand for the same folding |
| Encoding.DecodeZero | src/main.rs:64-72 | state 0 is the folding with RotateRight at every free slot, which is what `Snake::new` writes |
| Encoding.DecodeStartsStraight | src/main.rs:63 | slots 0 and 1 are fixed NoChange in every decoded folding |
| Walk.DirIsUnit | src/main.rs:77-87 | starting from RIGHT, the walk's direction is always a face direction |
| Walk.DirAtBounds | src/main.rs:87-90 | each coordinate of a move is -1, 0 or 1 |
| Walk.WalkCells | src/main.rs:79-91 | the walk's cells start at the start cell, each one follows from the previous by one move in the current direction, and together they decide Fills |
| Walk.CleanIsInBoxAndDistinct | src/main.rs:80-86 | passing the first `n` checks means the first `n` cells are inside the box and pairwise different |
| Walk.FailStays | src/main.rs:80-85 | once one check fails, the walk fails every longer run of checks |
| Walk.CheckFails | src/main.rs:80-85 | a cell that is outside the box or already occupied makes the whole walk fail |
| Walk.FillsMeans | src/main.rs:74-94 | `is_cube` accepts exactly when all checked cells lie in the box and are pairwise different |
| Walk.BoundsCheckSuffices | src/main.rs:80-83 | after in-box cells, the next coordinate lies in [-1, 3], so the `< 0` and `== 3` test is the same as "outside the box" |
| Walk.CellNumbering | src/main.rs:83-86 | the row-major index of an in-box cell is in 0..26, and different cells get different indices |
| Walk.MarksNone | src/main.rs:75 | the freshly cleared grid marks no cell |
| Walk.MarksNext | src/main.rs:86 | marking the current cell keeps the grid equal to the set of cells visited so far |
| Walk.Visit | src/main.rs:80-86 | one round of the check: an escaping or marked cell makes the walk fail, and otherwise the prefix stays clean and the updated grid stays exact |
| Walk.CoversRange | src/main.rs:74-94 | pigeonhole: `n` different numbers below `n` include every number below `n` |
| Walk.CoversCube | src/main.rs:74-94 | 27 different cells of the cube are all of its cells |
| Walk.FillsEveryCell | src/main.rs:74-94 | an accepted 27-step folding visits every cell of the cube, so no separate "all filled" scan is needed |
| Walk.FirstMovesRight | src/main.rs:77 | every folding moves RIGHT twice first, so it can fill the cube only from a start with y == 0 |
| Solver.Snake.constructor | src/main.rs:64-72 | a fresh snake has state 0, RotateRight at every free slot and NoChange everywhere else, and satisfies the class invariant |
| Solver.Snake.IsCube | src/main.rs:74-94 | the loop returns true exactly when Fills holds for the current steps and start cell |
| Solver.Snake.RotateCube | src/main.rs:96-104 | the state goes up by one, each free slot gets `from` of its digit of the new state, fixed slots are unchanged, and the steps are again `Decode(state)` |
| Solver.Replay | src/main.rs:113-117 | the printed directions start at RIGHT, each one is the previous one turned by that slot's hinge, and all are face directions |
| Solver.CollectExactly | src/main.rs:110 | collecting a range lists exactly its accepted states, each once, in increasing order |
| Solver.FoundExactly | src/main.rs:110-111 | the found list holds exactly the solving states of the range, each once, in increasing order |
| Solver.FoundStep | src/main.rs:110-119 | trying one more state appends it exactly when it solves |
| Solver.SearchStep | src/main.rs:111-119 | one round of the inner loop extends the report by the state just checked, if that state solves |
| Solver.Search | src/main.rs:110-123 | from state 0, the reports are the solutions among states 0 .. u32::MAX - 1 and the final state is `u32::MAX`; from any later state the search reaches `u32::MAX`, reports it if it solves, and overflows |
| Solver.Solve | src/main.rs:106-126 | `solve` overflows, and it reports the solutions from (0, 0, 0) among states 0 .. u32::MAX - 1 followed by state `u32::MAX` from (1, 0, 0) if that state solves |

## Left out

- Console output (src/main.rs:112, 115, 120-124): the solution header, the
  progress line every 100 000 000 states and the "Done" lines are I/O. The
  reported solutions are returned as a list of `Solution` values instead,
  holding the start cell and the directions printed by the replay.
- The `Debug` formatter for directions (src/main.rs:48-60) is string
  formatting. The model keeps only its precondition, which is that every
  printed direction is a face direction (Rotation.UnitIsFace, Solver.Replay).
- The concrete outcome of the search is not modelled: the comment at
  src/main.rs:108 says a solution exists only from (0, 0, 0). Establishing it
  means evaluating about 4.3 * 10^9 foldings.
- Solver.Snake.RotateCube: does not model the `u32` overflow of
  `state += 1`. It requires `state < u32::MAX`. Search and Solve stop with
  `overflow` where a debug build panics. The wrap to 0 of a release build is
  not modelled.
- Rotation.FromCode: values above 4 panic in the source. The model excludes
  them by precondition instead of modelling the panic.
- Solver.Snake.IsCube: requires every start coordinate to be at most 3.
  With a start coordinate of 4 or more the source indexes its grid out of
  bounds and panics (src/main.rs:83); the model does not capture that panic.
  The three start cells `solve` uses (src/main.rs:109) never reach it.
- Solver.Snake.IsCube: the coordinates are `i32` in the source and
  unbounded integers here. Walk.BoundsCheckSuffices shows that they stay in
  [-1, 3], so no `i32` overflow can occur. The visited grid is a seq of 27
  flags held in a local variable rather than a nested stack array. This
  keeps the same meaning, including the fresh grid for every call.
- `main` (src/main.rs:129-131) only calls `solve`.
