/**
  `bitfield`: a bit array stored in a heap buffer of bytes.

  Bit `i` lives in byte `i / 8` at digit `i % 8`. The buffer is `field`, which is
  null exactly when no byte is allocated; `alloc` is the number of bytes. A bitfield's
  abstract value is its byte sequence `Contents()`, and `Bits()` reads that sequence
  bit by bit.
*/
module Bitfields {
  import opened Bytes
  import opened Integers

  /** The bit sequence a byte sequence stores: bit `i` is digit `i % 8` of byte `i / 8`. */
  function BitsOf(bytes: seq<bv8>): (bits: seq<bool>)
    ensures |bits| == 8 * |bytes|
    ensures forall i :: 0 <= i < |bits| ==> bits[i] == Digit(bytes[i / 8], i % 8)
  {
    seq(8 * |bytes|, i requires 0 <= i < 8 * |bytes| => BitAt(bytes[i / 8], i % 8))
  }

  /** `n` zero bytes. */
  function Zeros(n: nat): (r: seq<bv8>)
    ensures |r| == n && forall i :: 0 <= i < n ==> r[i] == 0
  {
    seq(n, _ => 0)
  }

  /**
    The bytes a reallocation to `k` bytes keeps: the common prefix of the old bytes,
    followed by zeros for every byte added.
  */
  function Reallocated(bytes: seq<bv8>, k: nat): (r: seq<bv8>)
    ensures |r| == k
    ensures forall i :: 0 <= i < Min(|bytes|, k) ==> r[i] == bytes[i]
    ensures forall i :: |bytes| <= i < k ==> r[i] == 0
  {
    if k <= |bytes| then bytes[..k] else bytes + Zeros(k - |bytes|)
  }

  /** The bytes after bit `i` is written with `b` through a bitref. */
  function PutBit(bytes: seq<bv8>, i: nat, b: bool): (r: seq<bv8>)
    requires i < 8 * |bytes|
  {
    bytes[i / 8 := WithBit(bytes[i / 8], i % 8, b)]
  }

  /** Writing bit `i` sets bit `i` to `b` and leaves every other bit as it was. */
  lemma {:induction false} PutBitChangesOnlyThatBit(bytes: seq<bv8>, i: nat, b: bool)
    requires i < 8 * |bytes|
    ensures BitsOf(PutBit(bytes, i, b)) == BitsOf(bytes)[i := b]
  {
    var after, before := BitsOf(PutBit(bytes, i, b)), BitsOf(bytes)[i := b];
    forall j | 0 <= j < |after| ensures after[j] == before[j] {
      if j / 8 == i / 8 {
        assert j == i <==> j % 8 == i % 8;
      }
    }
  }

  /**
    Reallocating to `k` bytes gives `8 * k` bits: the bits of the kept bytes are
    unchanged and the bits of the added bytes are false.
  */
  lemma {:induction false} ReallocatedBits(bytes: seq<bv8>, k: nat)
    ensures |BitsOf(Reallocated(bytes, k))| == 8 * k
    ensures forall j :: 0 <= j < 8 * k ==>
      BitsOf(Reallocated(bytes, k))[j] == (j < 8 * |bytes| && BitsOf(bytes)[j])
  {
    var r := Reallocated(bytes, k);
    forall j | 0 <= j < 8 * k
      ensures BitsOf(r)[j] == (j < 8 * |bytes| && BitsOf(bytes)[j])
    {
      assert j < 8 * |bytes| <==> j / 8 < |bytes|;
      if j / 8 < |bytes| {
        assert r[j / 8] == bytes[j / 8];
      } else {
        assert r[j / 8] == 0;
        assert !Digit(0, j % 8) by { DigitIsShiftedLowBit(0, j % 8); }
      }
    }
  }

  /**
    Shrinking to `k1` bytes and growing again to `k2` keeps the first `8 * k1` bits and
    clears every bit after them: the bits of dropped bytes do not come back.
  */
  lemma ShrinkThenGrow(bytes: seq<bv8>, k1: nat, k2: nat)
    requires k1 <= |bytes| && k1 <= k2
    ensures var bits := BitsOf(Reallocated(Reallocated(bytes, k1), k2));
      && |bits| == 8 * k2
      && (forall j :: 0 <= j < 8 * k1 ==> bits[j] == BitsOf(bytes)[j])
      && (forall j :: 8 * k1 <= j < 8 * k2 ==> !bits[j])
  {
    ReallocatedBits(bytes, k1);
    ReallocatedBits(Reallocated(bytes, k1), k2);
  }

  // ---------------------------------------------------------------------------
  // The bitfield object

  class Bitfield {
    var field: array?<bv8>
    var alloc: nat

    /** `field` is null exactly when no byte is allocated, and otherwise holds `alloc` bytes. */
    ghost predicate Valid()
      reads this
    {
      if field == null then alloc == 0 else alloc > 0 && field.Length == alloc
    }

    /** The stored bytes. */
    ghost function Contents(): seq<bv8>
      reads this, field
      requires Valid()
    {
      if field == null then [] else field[..]
    }

    /** The stored bits. */
    ghost function Bits(): seq<bool>
      reads this, field
      requires Valid()
    {
      BitsOf(Contents())
    }

    /** Default construction: no buffer and no bits. */
    constructor ()
      ensures Valid() && Contents() == [] && Size() == 0 && field == null
    {
      field, alloc := null, 0;
    }

    /** Construction with `bytes` bytes: `8 * bytes` bits, all false. */
    constructor WithBytes(bytes: nat)
      ensures Valid() && Contents() == Zeros(bytes) && Size() == 8 * bytes
      ensures forall i :: 0 <= i < Size() ==> !Bits()[i]
      ensures field == null || fresh(field)
    {
      field, alloc := null, 0;
      new;
      Realloc(bytes);
      ReallocatedBits([], bytes);
    }

    /** Copy construction: equal bytes in a buffer of its own. */
    constructor Copy(b: Bitfield)
      requires b.Valid()
      ensures Valid() && Contents() == b.Contents()
      ensures field == null || fresh(field)
    {
      field, alloc := null, 0;
      new;
      CopyInto(this, b);
    }

    /** Move construction: takes the other bitfield's buffer and leaves it empty. */
    constructor Move(b: Bitfield)
      requires b.Valid()
      modifies b
      ensures Valid() && Contents() == old(b.Contents()) && field == old(b.field)
      ensures b.Valid() && b.Contents() == []
    {
      field, alloc := null, 0;
      new;
      MoveInto(this, b);
    }

    /** `size()`: the number of bits, eight per allocated byte. */
    function Size(): (r: nat)
      reads this, field
      requires Valid()
      ensures r == |Bits()| && r == 8 * |Contents()|
    {
      alloc * 8
    }

    /** `resize(bits)`: `bits` must be a multiple of 8; the bytes are reallocated to `bits / 8`. */
    method Resize(bits: nat)
      requires Valid() && bits % 8 == 0
      modifies this
      ensures Valid() && Contents() == Reallocated(old(Contents()), bits / 8) && Size() == bits
      ensures field == null || fresh(field)
    {
      Realloc(bits / 8);
    }

    /**
      `realloc(k)`: to zero bytes, deallocate; otherwise a fresh buffer of `k` bytes that
      starts with the common prefix and is zero-filled after it.
    */
    method Realloc(k: nat)
      requires Valid()
      modifies this
      ensures Valid() && Contents() == Reallocated(old(Contents()), k)
      ensures field == null || fresh(field)
    {
      if k == 0 {
        Dealloc();
        return;
      }
      var newField := new bv8[k];
      var src, oldAlloc := field, alloc;
      ghost var before := Contents();
      var common := Min(oldAlloc, k);
      var i := 0;
      while i < common
        invariant 0 <= i <= common
        invariant forall j :: 0 <= j < i ==> newField[j] == before[j]
      {
        newField[i] := src[i];
        i := i + 1;
      }
      if k > oldAlloc {
        var j := oldAlloc;
        while j < k
          invariant oldAlloc <= j <= k
          invariant forall m :: 0 <= m < common ==> newField[m] == before[m]
          invariant forall m :: oldAlloc <= m < j ==> newField[m] == 0
        {
          newField[j] := 0;
          j := j + 1;
        }
      }
      field, alloc := newField, k;
      assert Contents() == Reallocated(before, k);
    }

    /** `dealloc`: the buffer is released and the bitfield holds no bits. */
    method Dealloc()
      modifies this
      ensures Valid() && Contents() == [] && field == null
    {
      field, alloc := null, 0;
    }

    /**
      `dealloc` as written: the buffer is released and `_alloc` cleared, but `_field` keeps
      pointing at the released buffer. A bitfield that held a buffer is left with a pointer
      that `copy_into` and `move_into` refuse (they require `dst.field == null`) and with
      `_alloc` disagreeing with its buffer, so a later `dealloc` releases that buffer again.
    */
    method DeallocAsWritten()
      requires Valid()
      modifies this
      ensures alloc == 0 && field == old(field)
      ensures old(field) != null ==> field != null && !Valid()
    {
      alloc := 0;
    }

    /**
      `copy_into(dst, src)`: `dst` must be another bitfield without a buffer; it receives a
      fresh buffer holding the same bytes as `src`.
    */
    static method CopyInto(dst: Bitfield, src: Bitfield)
      requires dst != src && dst.Valid() && src.Valid() && dst.field == null
      modifies dst
      ensures dst.Valid() && dst.Contents() == src.Contents()
      ensures dst.field == null || fresh(dst.field)
    {
      dst.alloc := src.alloc;
      if src.field == null {
        dst.field := null;
      } else {
        var copy := new bv8[dst.alloc];
        var i := 0;
        while i < dst.alloc
          invariant 0 <= i <= dst.alloc == src.field.Length
          invariant forall j :: 0 <= j < i ==> copy[j] == src.field[j]
        {
          copy[i] := src.field[i];
          i := i + 1;
        }
        dst.field := copy;
      }
    }

    /**
      `move_into(dst, src)`: `dst` must be another bitfield without a buffer; it takes over
      `src`'s buffer and `src` is left without one.
    */
    static method MoveInto(dst: Bitfield, src: Bitfield)
      requires dst != src && dst.Valid() && src.Valid() && dst.field == null
      modifies dst, src
      ensures dst.Valid() && dst.Contents() == old(src.Contents()) && dst.field == old(src.field)
      ensures src.Valid() && src.Contents() == [] && src.field == null
    {
      dst.alloc := src.alloc;
      src.alloc := 0;
      dst.field := src.field;
      src.field := null;
    }

    /** Copy assignment: self-assignment does nothing; otherwise deallocate, then copy. */
    method CopyAssign(b: Bitfield)
      requires Valid() && b.Valid()
      modifies this
      ensures Valid() && Contents() == old(b.Contents())
      ensures b != this ==> field == null || fresh(field)
    {
      if b == this {
        return;
      }
      Dealloc();
      CopyInto(this, b);
    }

    /** Move assignment: self-assignment does nothing; otherwise deallocate, then move. */
    method MoveAssign(b: Bitfield)
      requires Valid() && b.Valid()
      modifies this, b
      ensures Valid() && Contents() == old(b.Contents()) && field == old(b.field)
      ensures b != this ==> b.Valid() && b.Contents() == [] && b.field == null
    {
      if b == this {
        return;
      }
      Dealloc();
      MoveInto(this, b);
    }

    /** `operator[](bit)`: a bitref on byte `bit / 8`, digit `bit % 8`; `bit` must be below `size()`. */
    method Subscript(bit: nat) returns (r: FieldBitRef)
      requires Valid() && bit < Size()
      ensures r.Valid() && r.field == field && r.index == bit / 8 && r.pos == bit % 8
    {
      r := new FieldBitRef(field, bit / 8, bit % 8);
    }

    /** Reading bit `bit` through a const bitref. */
    function Get(bit: nat): (r: bool)
      reads this, field
      requires Valid() && bit < Size()
      ensures r == Bits()[bit]
    {
      And(field[bit / 8], Mask(bit % 8)) != 0
    }

    /** `bf[bit] = b`: subscript, then assign through the bitref. */
    method Set(bit: nat, b: bool)
      requires Valid() && bit < Size()
      modifies field
      ensures Valid() && Contents() == PutBit(old(Contents()), bit, b)
      ensures Bits() == old(Bits())[bit := b]
    {
      var r := Subscript(bit);
      r.Assign(b);
      PutBitChangesOnlyThatBit(old(Contents()), bit, b);
    }
  }

  /** A reference to one bit of a bitfield's buffer. */
  class FieldBitRef {
    const field: array<bv8>
    const index: nat
    const pos: nat
    const mask: bv8

    constructor (field: array<bv8>, index: nat, pos: nat)
      requires pos < 8
      ensures this.field == field && this.index == index && this.pos == pos && mask == Mask(pos)
    {
      this.field, this.index, this.pos := field, index, pos;
      this.mask := Mask(pos);
    }

    ghost predicate Valid()
    {
      index < field.Length && pos < 8 && mask == Mask(pos)
    }

    /** The bool cast: whether the masked byte is non-zero. */
    function Read(): (r: bool)
      reads field
      requires Valid()
      ensures r == Digit(field[index], pos)
    {
      assert BitAt(field[index], pos) == (And(field[index], mask) != 0);
      And(field[index], mask) != 0
    }

    /** Assigning a bool: `b ? byte |= mask : byte &= ~mask`. */
    method Assign(b: bool)
      requires Valid()
      modifies field
      ensures field[..] == old(field[..])[index := WithBit(old(field[index]), pos, b)]
    {
      SetOrClearIsWithBit(field[index], pos, b);
      if b {
        field[index] := Or(field[index], mask);
      } else {
        field[index] := And(field[index], Not(mask));
      }
    }

    /** Copy assignment between bitrefs assigns the value read from the other one. */
    method AssignFrom(other: FieldBitRef)
      requires Valid() && other.Valid()
      modifies field
      ensures field[..] == old(field[..])[index := WithBit(old(field[index]), pos, old(other.Read()))]
    {
      var b := other.Read();
      Assign(b);
    }
  }
}
