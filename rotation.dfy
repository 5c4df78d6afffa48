/**
  The rotation algebra of the snake cube: the five hinge choices and the way
  each one turns the unit step the chain is advancing by (src/main.rs:1-36).
 */
module Rotation {

  /** A hinge choice. The declaration order is the source's discriminant order. */
  datatype Change = RotateRight | RotateUp | RotateLeft | RotateDown | NoChange

  /** The step the chain advances by; the source stores three `i32`s. */
  datatype Direction = Direction(a: int, b: int, c: int)

  /** The direction the walk starts with. */
  const RIGHT: Direction := Direction(0, 1, 0)

  /** One of the six face directions: exactly one component is +1 or -1, the others are 0. */
  predicate IsUnit(d: Direction) {
    || ((d.a == 1 || d.a == -1) && d.b == 0 && d.c == 0)
    || (d.a == 0 && (d.b == 1 || d.b == -1) && d.c == 0)
    || (d.a == 0 && d.b == 0 && (d.c == 1 || d.c == -1))
  }

  /**
    `d` and `e` lie along different axes; for face directions this is the same
    as a zero dot product, written without multiplication.
   */
  predicate Perpendicular(d: Direction, e: Direction) {
    (d.a != 0 ==> e.a == 0) && (d.b != 0 ==> e.b == 0) && (d.c != 0 ==> e.c == 0)
  }

  /** The four choices that actually bend the chain. */
  predicate IsTurn(c: Change) {
    c != NoChange
  }

  /**
    The fixed permutation / sign-flip table; NoChange is the identity.
    ApplyChangeKeepsUnit proves that every entry preserves the "one nonzero
    component of size one" shape.
   */
  function ApplyChange(ch: Change, d: Direction): (r: Direction)
    ensures ch == NoChange ==> r == d
  {
    match ch
    case NoChange => d
    case RotateRight => Direction(d.c, d.a, d.b)
    case RotateUp => Direction(d.b, d.c, d.a)
    case RotateDown => Direction(-d.b, -d.c, -d.a)
    case RotateLeft => Direction(-d.c, -d.a, -d.b)
  }

  /** Every choice sends a face direction to a face direction, and a turn to a sideways one. */
  lemma ApplyChangeKeepsUnit(ch: Change, d: Direction)
    requires IsUnit(d)
    ensures IsUnit(ApplyChange(ch, d))
    ensures IsTurn(ch) ==> Perpendicular(ApplyChange(ch, d), d)
  {
    var r := ApplyChange(ch, d);
    if d.a != 0 {
      assert IsUnit(r) && (IsTurn(ch) ==> Perpendicular(r, d));
    } else if d.b != 0 {
      assert IsUnit(r) && (IsTurn(ch) ==> Perpendicular(r, d));
    } else {
      assert IsUnit(r) && (IsTurn(ch) ==> Perpendicular(r, d));
    }
  }

  /** The discriminant the source assigns to each variant. */
  function Code(ch: Change): (n: nat)
    ensures n <= 4
    ensures n == 4 <==> ch == NoChange
  {
    match ch
    case RotateRight => 0
    case RotateUp => 1
    case RotateLeft => 2
    case RotateDown => 3
    case NoChange => 4
  }

  /**
    `From<u32> for Change`. The source panics on every value above 4, so the
    model demands `v <= 4` of its callers.
   */
  function FromCode(v: nat): (r: Change)
    requires v <= 4
    ensures Code(r) == v
    ensures v < 4 <==> IsTurn(r)
  {
    match v
    case 0 => RotateRight
    case 1 => RotateUp
    case 2 => RotateLeft
    case 3 => RotateDown
    case 4 => NoChange
  }

  /** Converting a choice to its code and back gives the choice again. */
  lemma FromCodeOfCode(ch: Change)
    ensures FromCode(Code(ch)) == ch
  {
    match ch
    case RotateRight =>
    case RotateUp =>
    case RotateLeft =>
    case RotateDown =>
    case NoChange =>
  }

  /** The choice that undoes `ch`, and that `ch` undoes, on every triple (not only on unit vectors). */
  function Inverse(ch: Change): (r: Change)
    ensures IsTurn(r) == IsTurn(ch)
    ensures forall d :: ApplyChange(r, ApplyChange(ch, d)) == d
    ensures forall d :: ApplyChange(ch, ApplyChange(r, d)) == d
  {
    match ch
    case NoChange => NoChange
    case RotateRight => RotateUp
    case RotateUp => RotateRight
    case RotateDown => RotateLeft
    case RotateLeft => RotateDown
  }

  /** Undoing the undo gives the original choice back: the inverse table is an involution. */
  lemma InverseInvolution(ch: Change)
    ensures Inverse(Inverse(ch)) == ch
  {
    match ch
    case RotateRight =>
    case RotateUp =>
    case RotateLeft =>
    case RotateDown =>
    case NoChange =>
  }

  /** The six face directions, in the formatter's order: RIGHT, LEFT, UP, DOWN, TOWARDS, AWAY. */
  const FACES: seq<Direction> := [
    Direction(0, 1, 0), Direction(0, -1, 0), Direction(0, 0, 1),
    Direction(0, 0, -1), Direction(1, 0, 0), Direction(-1, 0, 0)]

  /**
    Every face direction is one of the six the direction formatter names, so
    printing a direction of the walk never reaches its panic.
   */
  lemma UnitIsFace(d: Direction)
    requires IsUnit(d)
    ensures d == FACES[0] || d == FACES[1] || d == FACES[2]
         || d == FACES[3] || d == FACES[4] || d == FACES[5]
  {
    if d.a != 0 {
      assert d == FACES[4] || d == FACES[5];
    } else if d.b != 0 {
      assert d == FACES[0] || d == FACES[1];
    } else {
      assert d == FACES[2] || d == FACES[3];
    }
  }

  /** Different turns send a face direction to different face directions. */
  lemma TurnsAreDistinct(d: Direction, c1: Change, c2: Change)
    requires IsUnit(d) && IsTurn(c1) && IsTurn(c2) && c1 != c2
    ensures ApplyChange(c1, d) != ApplyChange(c2, d)
  {
    if d.a != 0 {
      assert ApplyChange(c1, d) != ApplyChange(c2, d);
    } else if d.b != 0 {
      assert ApplyChange(c1, d) != ApplyChange(c2, d);
    } else {
      assert ApplyChange(c1, d) != ApplyChange(c2, d);
    }
  }

  /** The first turn, in discriminant order, that sends `d` to `e`; RotateDown when none of the others does. */
  function TurnTo(d: Direction, e: Direction): Change {
    if ApplyChange(RotateRight, d) == e then RotateRight
    else if ApplyChange(RotateUp, d) == e then RotateUp
    else if ApplyChange(RotateLeft, d) == e then RotateLeft
    else RotateDown
  }

  /**
    The four turns reach every face direction orthogonal to `d`: together with
    TurnsAreDistinct, the turns are a bijection onto the four sideways
    directions, so a free hinge has exactly four meaningful settings.
   */
  lemma TurnsCoverSideways(d: Direction, e: Direction) returns (ch: Change)
    requires IsUnit(d) && IsUnit(e) && Perpendicular(d, e)
    ensures IsTurn(ch) && ApplyChange(ch, d) == e
  {
    ch := TurnTo(d, e);
    if d.a != 0 {
      assert ApplyChange(ch, d) == e;
    } else if d.b != 0 {
      assert ApplyChange(ch, d) == e;
    } else {
      assert ApplyChange(ch, d) == e;
    }
  }
}
