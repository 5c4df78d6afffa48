/**
  The fold encoding (src/main.rs:38-42, 62-72, 96-104): a folding is the array
  of 27 hinge choices, and the `u32` enumeration state holds one base-4 digit
  per free hinge, lowest digit first.
 */
module Encoding {
  import opened Rotation

  /** Number of segments, and so of slots in a folding. */
  const LENGTH: nat := 27

  /** Number of free hinges. */
  const HINGES: nat := 16

  /** An index into a folding. */
  type Slot = i: int | 0 <= i < LENGTH

  /** The slots that hold a free hinge, in digit order (`Snake::CHANGERS`). */
  const CHANGERS: seq<Slot> := [2, 3, 4, 6, 7, 9, 10, 11, 13, 15, 16, 17, 18, 20, 22, 24]

  /** `u32::MAX`, and the number of `u32` values. */
  const U32_MAX: nat := 0xFFFF_FFFF
  const STATES: nat := 0x1_0000_0000

  lemma ChangersInRange()
    ensures |CHANGERS| == HINGES
    ensures forall k :: 0 <= k < HINGES ==> CHANGERS[k] < LENGTH
  {
  }

  /**
    The inverse of CHANGERS: the digit slot `i` holds, or -1 when slot `i` is
    fixed (HingeAtInvertsChangers proves the two tables agree).
   */
  function HingeAt(i: int): (k: int)
    ensures -1 <= k < HINGES
  {
    match i
    case 2 => 0
    case 3 => 1
    case 4 => 2
    case 6 => 3
    case 7 => 4
    case 9 => 5
    case 10 => 6
    case 11 => 7
    case 13 => 8
    case 15 => 9
    case 16 => 10
    case 17 => 11
    case 18 => 12
    case 20 => 13
    case 22 => 14
    case 24 => 15
    case _ => -1
  }

  /** A slot whose hinge the enumeration varies. */
  predicate IsFree(i: int) {
    HingeAt(i) >= 0
  }

  lemma HingeAtInvertsChangers()
    ensures forall k :: 0 <= k < HINGES ==> HingeAt(CHANGERS[k]) == k
    ensures forall i :: IsFree(i) ==> CHANGERS[HingeAt(i)] == i
  {
  }

  function Pow4(n: nat): (r: nat)
    ensures r > 0
  {
    if n == 0 then 1 else 4 * Pow4(n - 1)
  }

  /** `v >>= 2` applied `k` times: `s` shifted right by `2 * k` bits. */
  function Shift(s: nat, k: nat): nat {
    if k == 0 then s else Shift(s, k - 1) / 4
  }

  /** The `k`-th base-4 digit of `s` (`v & 3` after `k` shifts). */
  function Digit(s: nat, k: nat): (d: nat)
    ensures d < 4
  {
    Shift(s, k) % 4
  }

  /** Shifting by `2 * k` bits is dividing by 4^k. */
  lemma {:induction false} ShiftIsDiv(s: nat, k: nat)
    ensures Shift(s, k) == s / Pow4(k)
  {
    if k > 0 {
      ShiftIsDiv(s, k - 1);
      DivDiv(s, Pow4(k - 1));
    }
  }

  lemma DivDiv(a: nat, b: nat)
    requires b > 0
    ensures a / b / 4 == a / (b * 4)
  {
    var q, r := a / b, a % b;
    var q1, r1 := q / 4, q % 4;
    assert a == b * (4 * q1 + r1) + r;
    assert a == (b * 4) * q1 + (b * r1 + r);
    assert 0 <= b * r1 + r < b * 4 by {
      assert b * r1 <= b * 3;
    }
    DivUnique(a, b * 4, q1, b * r1 + r);
  }

  lemma DivUnique(a: nat, d: nat, q: nat, r: nat)
    requires d > 0 && a == d * q + r && r < d
    ensures a / d == q
  {
    var q', r' := a / d, a % d;
    assert d * q + r == d * q' + r';
    if q' < q {
      MulAtLeast(d, q - q');
    } else if q < q' {
      MulAtLeast(d, q' - q);
    }
  }

  lemma MulAtLeast(d: nat, t: nat)
    requires t >= 1
    ensures d * t >= d
  {
    assert d * t == d * (t - 1) + d;
  }

  /** Every bit above the low `2 * n` bits of a small enough state is shifted out. */
  lemma {:induction false} ShiftBound(s: nat, n: nat, k: nat)
    requires s < Pow4(n) && k <= n
    ensures Shift(s, k) < Pow4(n - k)
  {
    if k > 0 {
      ShiftBound(s, n, k - 1);
    }
  }

  lemma StatesArePow4()
    ensures Pow4(HINGES) == STATES
  {
    assert Pow4(1) == 4;
    assert Pow4(2) == 16;
    assert Pow4(3) == 64;
    assert Pow4(4) == 256;
    assert Pow4(5) == 1024;
    assert Pow4(6) == 4096;
    assert Pow4(7) == 16384;
    assert Pow4(8) == 65536;
    assert Pow4(9) == 262144;
    assert Pow4(10) == 1048576;
    assert Pow4(11) == 4194304;
    assert Pow4(12) == 16777216;
    assert Pow4(13) == 67108864;
    assert Pow4(14) == 268435456;
    assert Pow4(15) == 1073741824;
  }

  /** A folding the encoding can hold: free slots turn, every other slot is NoChange. */
  predicate IsFolding(f: seq<Change>) {
    && |f| == LENGTH
    && (forall k :: 0 <= k < HINGES ==> IsTurn(f[CHANGERS[k]]))
    && (forall i :: 0 <= i < LENGTH && !IsFree(i) ==> f[i] == NoChange)
  }

  /**
    The folding that enumeration state `s` stands for: digit `k` of `s`
    decides the choice at slot CHANGERS[k]; every other slot is NoChange.
   */
  function Decode(s: nat): (f: seq<Change>)
    ensures |f| == LENGTH
    ensures forall k :: 0 <= k < HINGES ==> f[CHANGERS[k]] == FromCode(Digit(s, k))
    ensures IsFolding(f)
  {
    var f := seq(LENGTH, i => SlotChoice(s, i));
    assert forall k :: 0 <= k < HINGES ==> f[CHANGERS[k]] == FromCode(Digit(s, k)) by {
      forall k | 0 <= k < HINGES
        ensures f[CHANGERS[k]] == FromCode(Digit(s, k))
      {
        HingeAtInvertsChangers();
      }
    }
    f
  }

  function SlotChoice(s: nat, i: int): Change {
    if IsFree(i) then FromCode(Digit(s, HingeAt(i))) else NoChange
  }

  /** The state a folding is read back into: digits from slot CHANGERS[k] up. */
  function EncodeFrom(f: seq<Change>, k: nat): nat
    requires |f| == LENGTH && k <= HINGES
    decreases HINGES - k
  {
    ChangersInRange();
    if k == HINGES then 0 else Code(f[CHANGERS[k]]) + 4 * EncodeFrom(f, k + 1)
  }

  /** The sum over k of Code(f[CHANGERS[k]]) * 4^k. */
  function Encode(f: seq<Change>): nat
    requires |f| == LENGTH
  {
    EncodeFrom(f, 0)
  }

  lemma {:induction false} EncodeFromDecode(s: nat, k: nat)
    requires s < STATES && k <= HINGES
    ensures EncodeFrom(Decode(s), k) == Shift(s, k)
    decreases HINGES - k
  {
    if k == HINGES {
      StatesArePow4();
      ShiftBound(s, HINGES, HINGES);
    } else {
      EncodeFromDecode(s, k + 1);
    }
  }

  /** Reading back the digits of a decoded state gives the state: Decode is injective on `u32`. */
  lemma EncodeDecode(s: nat)
    requires s < STATES
    ensures Encode(Decode(s)) == s
  {
    EncodeFromDecode(s, 0);
  }

  lemma {:induction false} EncodeFromBound(f: seq<Change>, k: nat)
    requires IsFolding(f) && k <= HINGES
    ensures EncodeFrom(f, k) < Pow4(HINGES - k)
    decreases HINGES - k
  {
    if k < HINGES {
      EncodeFromBound(f, k + 1);
    }
  }

  lemma {:induction false} ShiftEncode(f: seq<Change>, k: nat)
    requires IsFolding(f) && k <= HINGES
    ensures Shift(Encode(f), k) == EncodeFrom(f, k)
  {
    if k > 0 {
      ShiftEncode(f, k - 1);
      var c := Code(f[CHANGERS[k - 1]]);
      assert IsTurn(f[CHANGERS[k - 1]]);
      assert EncodeFrom(f, k - 1) == 4 * EncodeFrom(f, k) + c;
      DivUnique(EncodeFrom(f, k - 1), 4, EncodeFrom(f, k), c);
    }
  }

  /** Every folding is the decode of exactly one state: the one Encode gives. */
  lemma DecodeEncode(f: seq<Change>)
    requires IsFolding(f)
    ensures Encode(f) < STATES
    ensures Decode(Encode(f)) == f
  {
    EncodeBound(f);
    forall i | 0 <= i < LENGTH
      ensures Decode(Encode(f))[i] == f[i]
    {
      DecodeEncodeSlot(f, i);
    }
  }

  lemma EncodeBound(f: seq<Change>)
    requires IsFolding(f)
    ensures Encode(f) < STATES
  {
    EncodeFromBound(f, 0);
    StatesArePow4();
  }

  lemma DecodeEncodeSlot(f: seq<Change>, i: Slot)
    requires IsFolding(f)
    ensures Decode(Encode(f))[i] == f[i]
  {
    if IsFree(i) {
      HingeAtInvertsChangers();
      DecodeEncodeAt(f, HingeAt(i));
    }
  }

  lemma DecodeEncodeAt(f: seq<Change>, k: nat)
    requires IsFolding(f) && k < HINGES
    ensures Decode(Encode(f))[CHANGERS[k]] == f[CHANGERS[k]]
  {
    ShiftEncode(f, k);
    var x := f[CHANGERS[k]];
    var c := Code(x);
    assert c < 4;
    var e := EncodeFrom(f, k);
    assert e == 4 * EncodeFrom(f, k + 1) + c;
    DivUnique(e, 4, EncodeFrom(f, k + 1), c);
    assert Digit(Encode(f), k) == c;
    FromCodeOfCode(x);
  }

  /** State 0 is the folding with RotateRight at every free slot. */
  lemma DecodeZero()
    ensures forall k :: 0 <= k < HINGES ==> Decode(0)[CHANGERS[k]] == RotateRight
  {
    forall k | 0 <= k < HINGES
      ensures Digit(0, k) == 0
    {
      ShiftIsDiv(0, k);
    }
  }

  /** Slots 0 and 1 are fixed: every decoded folding starts with two NoChange steps. */
  lemma DecodeStartsStraight(s: nat)
    ensures Decode(s)[0] == NoChange && Decode(s)[1] == NoChange
  {
  }

  /** Two `u32` states never stand for the same folding. */
  lemma DecodeInjective(s: nat, t: nat)
    requires s < STATES && t < STATES && Decode(s) == Decode(t)
    ensures s == t
  {
    EncodeDecode(s);
    EncodeDecode(t);
  }
}
