/**
  The 8-bit value type `byte` and its single-bit proxy `bitref`.

  A byte's value is a `bv8`. The operators that return a new byte (`~ & | ^ << >>`,
  the comparisons, the casts) are functions on values; the compound assignments and
  the bitref assignment change the `val` field of a `Byte` object in place.

  Every operator is specified bit by bit against `Digit`, the binary digit of a value
  obtained by repeated halving, so no contract repeats the bit trick it is about.
*/
module Bytes {

  /** Binary digit `pos` of `v` (digit 0 is the least significant), by repeated halving. */
  function Digit(v: bv8, pos: nat): bool
    requires pos < 8
    decreases pos
  {
    if pos == 0 then v % 2 == 1 else Digit(v / 2, pos - 1)
  }

  /** Digit `pos` is the low bit of `v` shifted right by `pos`. */
  lemma {:induction false} DigitIsShiftedLowBit(v: bv8, pos: nat)
    requires pos < 8
    ensures Digit(v, pos) == ((v >> pos) & 1 == 1)
  {
    if pos > 0 {
      DigitIsShiftedLowBit(v / 2, pos - 1);
      assert (v / 2) >> (pos - 1) == v >> pos;
    }
  }

  /** The mask a bitref is built with: a one at position `pos` and zeros elsewhere. */
  function Mask(pos: nat): (m: bv8)
    requires pos < 8
    ensures forall i :: 0 <= i < 8 ==> (Digit(m, i) <==> i == pos)
  {
    var m: bv8 := 1 << pos;
    forall i | 0 <= i < 8 ensures Digit(m, i) <==> i == pos {
      DigitIsShiftedLowBit(m, i);
    }
    m
  }

  /** Reading a bitref: the byte's value masked with the bitref's mask is non-zero. */
  function BitAt(v: bv8, pos: nat): (r: bool)
    requires pos < 8
    ensures r == Digit(v, pos)
  {
    DigitIsShiftedLowBit(v, pos);
    v & Mask(pos) != 0
  }

  /** Two values are the same value exactly when their eight digits agree. */
  lemma SameDigitsSameByte(a: bv8, b: bv8)
    ensures a == b <==> forall i :: 0 <= i < 8 ==> BitAt(a, i) == BitAt(b, i)
  {
    if forall i :: 0 <= i < 8 ==> BitAt(a, i) == BitAt(b, i) {
      SameDigitAt(a, b, 0); SameDigitAt(a, b, 1); SameDigitAt(a, b, 2); SameDigitAt(a, b, 3);
      SameDigitAt(a, b, 4); SameDigitAt(a, b, 5); SameDigitAt(a, b, 6); SameDigitAt(a, b, 7);
      SameLowBitsSameByte(a, b);
    }
  }

  /** Values whose eight shifted low bits agree are equal. */
  lemma SameLowBitsSameByte(a: bv8, b: bv8)
    requires (a >> 0) & 1 == (b >> 0) & 1 && (a >> 1) & 1 == (b >> 1) & 1
    requires (a >> 2) & 1 == (b >> 2) & 1 && (a >> 3) & 1 == (b >> 3) & 1
    requires (a >> 4) & 1 == (b >> 4) & 1 && (a >> 5) & 1 == (b >> 5) & 1
    requires (a >> 6) & 1 == (b >> 6) & 1 && (a >> 7) & 1 == (b >> 7) & 1
    ensures a == b
  {
  }

  /** When all digits agree, the shifted low bits at `pos` agree. */
  lemma SameDigitAt(a: bv8, b: bv8, pos: nat)
    requires pos < 8 && forall i :: 0 <= i < 8 ==> BitAt(a, i) == BitAt(b, i)
    ensures (a >> pos) & 1 == (b >> pos) & 1
  {
    assert BitAt(a, pos) == BitAt(b, pos);
    DigitIsShiftedLowBit(a, pos);
    DigitIsShiftedLowBit(b, pos);
  }

  // ---------------------------------------------------------------------------
  // Operators that return a new byte

  /** `~a`: every digit complemented. */
  function Not(a: bv8): (r: bv8)
    ensures forall i :: 0 <= i < 8 ==> BitAt(r, i) == !BitAt(a, i)
  {
    !a
  }

  /** Complementing twice gives the original value back. */
  lemma NotNot(a: bv8)
    ensures Not(Not(a)) == a
  {
    SameDigitsSameByte(Not(Not(a)), a);
  }

  /** `a & b`: a digit is one exactly when it is one in both operands. */
  function And(a: bv8, b: bv8): (r: bv8)
    ensures forall i :: 0 <= i < 8 ==> BitAt(r, i) == (BitAt(a, i) && BitAt(b, i))
  {
    a & b
  }

  /** `a | b`: a digit is one exactly when it is one in either operand. */
  function Or(a: bv8, b: bv8): (r: bv8)
    ensures forall i :: 0 <= i < 8 ==> BitAt(r, i) == (BitAt(a, i) || BitAt(b, i))
  {
    a | b
  }

  /** `a ^ b`: a digit is one exactly when the operands' digits differ. */
  function Xor(a: bv8, b: bv8): (r: bv8)
    ensures forall i :: 0 <= i < 8 ==> BitAt(r, i) == (BitAt(a, i) != BitAt(b, i))
  {
    forall i | 0 <= i < 8 ensures Digit(a ^ b, i) == (Digit(a, i) != Digit(b, i)) {
      DigitIsShiftedLowBit(a, i);
      DigitIsShiftedLowBit(b, i);
      DigitIsShiftedLowBit(a ^ b, i);
    }
    a ^ b
  }

  /**
    `a << s`. The operands are promoted to `int`, shifted and truncated back to eight
    bits, so amounts from 8 to 31 give 0; an amount of 32 or more is undefined behaviour.
  */
  function ShiftLeft(a: bv8, s: bv8): (r: bv8)
    requires s < 32
    ensures forall i :: 0 <= i < 8 ==> BitAt(r, i) == (i >= s as int && BitAt(a, i - s as int))
  {
    if s < 8 then a << s else 0
  }

  /** `a >> s`, with the same promotion: digits shifted past digit 0 are lost. */
  function ShiftRight(a: bv8, s: bv8): (r: bv8)
    requires s < 32
    ensures forall i :: 0 <= i < 8 ==> BitAt(r, i) == (i + s as int < 8 && BitAt(a, i + s as int))
  {
    if s < 8 then a >> s else 0
  }

  /** `a == b` compares the underlying values: it holds exactly when all digits agree. */
  function Equal(a: bv8, b: bv8): (r: bool)
    ensures r <==> forall i :: 0 <= i < 8 ==> BitAt(a, i) == BitAt(b, i)
  {
    SameDigitsSameByte(a, b);
    a == b
  }

  /** `a != b` is the negation of `a == b`. */
  function NotEqual(a: bv8, b: bv8): (r: bool)
    ensures r <==> !Equal(a, b)
  {
    a != b
  }

  /** `-(uint8)b`: 0 for false and all ones for true (truncated to eight bits). */
  function Spread(b: bool): (r: bv8)
    ensures forall i :: 0 <= i < 8 ==> BitAt(r, i) == b
  {
    var u: bv8 := if b then 1 else 0;
    -u
  }

  /**
    The value a bitref assignment leaves in its byte:
    `v ^ ((-(uint8)b ^ v) & mask)`. Digit `pos` becomes `b` and the other seven are kept.
    The source computes this in `int` and truncates; the bitwise operators commute with
    that truncation, so computing in eight bits gives the same value.
  */
  function WithBit(v: bv8, pos: nat, b: bool): (r: bv8)
    requires pos < 8
    ensures forall i :: 0 <= i < 8 ==> BitAt(r, i) == (if i == pos then b else BitAt(v, i))
  {
    Xor(v, And(Xor(Spread(b), v), Mask(pos)))
  }

  /** Writing a digit and reading it back gives the digit written. */
  lemma ReadAfterWrite(v: bv8, pos: nat, b: bool)
    requires pos < 8
    ensures BitAt(WithBit(v, pos, b), pos) == b
  {
  }

  /** Writing a digit with the value it already has leaves the byte unchanged. */
  lemma WriteSameBitIsIdentity(v: bv8, pos: nat)
    requires pos < 8
    ensures WithBit(v, pos, BitAt(v, pos)) == v
  {
    SameDigitsSameByte(WithBit(v, pos, BitAt(v, pos)), v);
  }

  /**
    The bitfield's bitref writes a digit with `b ? v |= mask : v &= ~mask` instead of the
    exclusive-or formula; both give the same byte.
  */
  lemma SetOrClearIsWithBit(v: bv8, pos: nat, b: bool)
    requires pos < 8
    ensures (if b then Or(v, Mask(pos)) else And(v, Not(Mask(pos)))) == WithBit(v, pos, b)
  {
    SameDigitsSameByte(if b then Or(v, Mask(pos)) else And(v, Not(Mask(pos))), WithBit(v, pos, b));
  }

  // ---------------------------------------------------------------------------
  // The byte object and its compound assignments

  class Byte {
    var val: bv8

    /** Default construction: the value 0. */
    constructor ()
      ensures val == 0
    {
      val := 0;
    }

    /** Construction from a `uint8`. */
    constructor FromUint8(v: bv8)
      ensures val == v && AsUint8() == v
    {
      val := v;
    }

    /** Copy construction. */
    constructor Copy(b: Byte)
      ensures val == b.val
    {
      val := b.val;
    }

    /** The explicit `uint8` cast: a value whose digits are the ones the byte's bitrefs read. */
    function AsUint8(): (r: bv8)
      reads this
      ensures forall pos :: 0 <= pos < 8 ==> Digit(r, pos) == BitAt(val, pos)
    {
      val
    }

    /** Copy assignment. */
    method Assign(b: bv8)
      modifies this
      ensures val == b
    {
      val := b;
    }

    method AndAssign(b: bv8)
      modifies this
      ensures val == And(old(val), b)
    {
      val := val & b;
    }

    method OrAssign(b: bv8)
      modifies this
      ensures val == Or(old(val), b)
    {
      val := val | b;
    }

    method XorAssign(b: bv8)
      modifies this
      ensures val == Xor(old(val), b)
    {
      val := val ^ b;
    }

    method ShiftLeftAssign(b: bv8)
      requires b < 32
      modifies this
      ensures val == ShiftLeft(old(val), b)
    {
      if b < 8 { val := val << b; } else { val := 0; }
    }

    method ShiftRightAssign(b: bv8)
      requires b < 32
      modifies this
      ensures val == ShiftRight(old(val), b)
    {
      if b < 8 { val := val >> b; } else { val := 0; }
    }

    /** `operator[]`: a bitref on digit `pos` of this byte; `pos` must be below 8. */
    method Subscript(pos: nat) returns (r: BitRef)
      requires pos < 8
      ensures r.target == this && r.pos == pos && r.mask == Mask(pos)
    {
      r := new BitRef(this, pos);
    }
  }

  /** A reference to one digit of a `Byte`. */
  class BitRef {
    const target: Byte
    const pos: nat
    const mask: bv8

    constructor (target: Byte, pos: nat)
      requires pos < 8
      ensures this.target == target && this.pos == pos && mask == Mask(pos)
    {
      this.target := target;
      this.pos := pos;
      this.mask := 1 << pos;
    }

    ghost predicate Valid()
    {
      pos < 8 && mask == Mask(pos)
    }

    /** The bool cast: digit `pos` of the target's value. */
    function Read(): (r: bool)
      requires Valid()
      reads target
      ensures r == Digit(target.val, pos)
    {
      BitAt(target.val, pos)
    }

    /** Assigning a bool: `_val ^= (-(uint8)b ^ _val) & _mask`. */
    method Assign(b: bool)
      requires Valid()
      modifies target
      ensures target.val == WithBit(old(target.val), pos, b)
    {
      target.val := target.val ^ ((Spread(b) ^ target.val) & mask);
    }

    /** Copy assignment between bitrefs assigns the value read from the other one. */
    method AssignFrom(other: BitRef)
      requires Valid() && other.Valid()
      modifies target
      ensures target.val == WithBit(old(target.val), pos, old(other.Read()))
    {
      var b := other.Read();
      Assign(b);
    }
  }
}
