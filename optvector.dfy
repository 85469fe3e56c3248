/**
  `optvector<T>`: a growable array of optional slots.

  Slot `i` (for `i < size`) holds `data[i]` when bit `i` of the presence mask is set and
  is vacant otherwise. The mask is a `Bitfield` holding at least `alloc` bits; `data`
  holds `alloc` elements (a zero-length array stands for the null pointer). Erasing a
  slot clears its bit and shifts nothing. `Slots()` is the abstract value.

  Element construction and destruction have no observable effect in the model, so the
  destructor calls the source makes are not represented.
*/
module OptVectors {
  import opened Integers
  import opened Bitfields

  datatype Option<T> = None | Some(value: T)

  const INITIAL_SIZE: nat := 8

  /** The slots that storage `data` and presence bits `mask` hold for the first `size` indices. */
  function SlotsOf<T>(data: seq<T>, mask: seq<bool>, size: nat): (s: seq<Option<T>>)
    requires size <= |data| && size <= |mask|
    ensures |s| == size
    ensures forall i :: 0 <= i < size ==> s[i] == (if mask[i] then Some(data[i]) else None)
  {
    seq(size, i requires 0 <= i < size => if mask[i] then Some(data[i]) else None)
  }

  /** Storage and masks that agree on the first `n` slots give the same slots. */
  lemma SlotsOfAgree<T>(d1: seq<T>, m1: seq<bool>, d2: seq<T>, m2: seq<bool>, n: nat)
    requires n <= |d1| && n <= |m1| && n <= |d2| && n <= |m2|
    requires forall i :: 0 <= i < n ==> m1[i] == m2[i] && (m1[i] ==> d1[i] == d2[i])
    ensures SlotsOf(d1, m1, n) == SlotsOf(d2, m2, n)
  {
  }

  /**
    Moving the present elements into new storage while the mask is reallocated to at
    least `size` bits keeps the slots: reallocation keeps the mask's leading bits.
  */
  lemma {:induction false} ReallocKeepsSlots<T>(d0: seq<T>, c0: seq<bv8>, d1: seq<T>, k: nat, size: nat)
    requires size <= |d0| && size <= |d1| && size <= 8 * |c0| && size <= 8 * k
    requires forall j :: 0 <= j < size && BitsOf(Reallocated(c0, k))[j] ==> d1[j] == d0[j]
    ensures SlotsOf(d1, BitsOf(Reallocated(c0, k)), size) == SlotsOf(d0, BitsOf(c0), size)
  {
    ReallocatedBits(c0, k);
    SlotsOfAgree(d0, BitsOf(c0), d1, BitsOf(Reallocated(c0, k)), size);
  }

  /** Writing a present element just past the first `n` slots appends it. */
  lemma {:induction false} SlotsOfPush<T>(d: seq<T>, m: seq<bool>, n: nat, v: T)
    requires n < |d| && n < |m|
    ensures SlotsOf(d[n := v], m[n := true], n + 1) == SlotsOf(d, m, n) + [Some(v)]
  {
    SlotsOfAgree(d, m, d[n := v], m[n := true], n);
  }

  /** Writing a present element at an index below `n` replaces that slot. */
  lemma {:induction false} SlotsOfOverwrite<T>(d: seq<T>, m: seq<bool>, n: nat, p: nat, v: T)
    requires p < n <= |d| && n <= |m|
    ensures SlotsOf(d[p := v], m[p := true], n) == SlotsOf(d, m, n)[p := Some(v)]
  {
  }

  /** Clearing the bit of an index below `n` vacates that slot. */
  lemma {:induction false} SlotsOfClear<T>(d: seq<T>, m: seq<bool>, n: nat, p: nat)
    requires p < n <= |d| && n <= |m|
    ensures SlotsOf(d, m[p := false], n) == SlotsOf(d, m, n)[p := None]
  {
  }

  /** The slots below a smaller size are a prefix of the slots. */
  lemma {:induction false} SlotsOfPrefix<T>(d: seq<T>, m: seq<bool>, n: nat, k: nat)
    requires k <= n <= |d| && n <= |m|
    ensures SlotsOf(d, m, k) == SlotsOf(d, m, n)[..k]
  {
  }

  /** The slots with every index in `[lo, hi)` made vacant. */
  function Vacated<T>(s: seq<Option<T>>, lo: nat, hi: nat): (r: seq<Option<T>>)
    ensures |r| == |s|
    ensures forall i :: 0 <= i < |s| ==> r[i] == (if lo <= i < hi then None else s[i])
  {
    seq(|s|, i requires 0 <= i < |s| => if lo <= i < hi then None else s[i])
  }

  /** `(n + 7) & ~7`: `n` rounded up to a multiple of 8. */
  function RoundUp8(n: nat): (r: nat)
    ensures r % 8 == 0 && n <= r < n + 8
  {
    (n + 7) / 8 * 8
  }

  /**
    The allocation `push_back` requests when full: `alloc * 1.5` truncated to an integer,
    or `INITIAL_SIZE` when that is 0. The product is exact because `alloc` is a multiple of 8.
  */
  function GrowRequest(alloc: nat): (r: nat)
    ensures alloc == 0 ==> r == INITIAL_SIZE
    ensures alloc > 0 ==> 2 * r <= 3 * alloc < 2 * r + 2
  {
    var grown := alloc * 3 / 2;
    if grown == 0 then INITIAL_SIZE else grown
  }

  /** The capacity after `push_back` on a full optvector: the request, rounded up by `realloc`. */
  function GrownCapacity(alloc: nat): (c: nat)
    ensures c % 8 == 0 && GrowRequest(alloc) <= c < GrowRequest(alloc) + 8
  {
    RoundUp8(GrowRequest(alloc))
  }

  /**
    Growth from a capacity that is a multiple of 8 gives a strictly larger multiple of 8,
    at least one and a half times the old one and less than 8 beyond that; from 0 it gives 8.
  */
  lemma GrowthBounds(alloc: nat)
    requires alloc % 8 == 0
    ensures GrownCapacity(alloc) % 8 == 0 && GrownCapacity(alloc) > alloc
    ensures alloc == 0 ==> GrownCapacity(alloc) == 8
    ensures alloc > 0 ==> alloc * 3 / 2 <= GrownCapacity(alloc) < alloc * 3 / 2 + 8
  {
  }

  // ---------------------------------------------------------------------------
  // Iterator positions

  /**
    An iterator's index after `+= n`: the `uint64` sum, kept only if it passes the state
    check `idx <= size` (None stands for the failed assertion).
  */
  function Advance(idx: nat, n: nat, size: nat): (r: Option<nat>)
    requires idx <= size < U64 && n < U64
    ensures r.Some? ==> r.value <= size
    ensures idx + n <= size ==> r == Some(idx + n)
    ensures size < idx + n < U64 ==> r == None
  {
    var moved := (idx + n) % U64;
    if moved <= size then Some(moved) else None
  }

  /** An iterator's index after `-= n`, with `uint64` wrap-around and the same check. */
  function Retreat(idx: nat, n: nat, size: nat): (r: Option<nat>)
    requires idx <= size < U64 && n < U64
    ensures r.Some? ==> r.value <= size
    ensures n <= idx ==> r == Some(idx - n)
    ensures idx < n && size + n < idx + U64 ==> r == None
  {
    var moved := (idx - n) % U64;
    if moved <= size then Some(moved) else None
  }

  // ---------------------------------------------------------------------------
  // The optvector object

  // `T(0)` only lets the model allocate `new T[n]`; the source keeps any `T` in raw storage.
  class OptVector<T(0)> {
    var data: array<T>
    var mask: Bitfield
    var alloc: nat
    var size: nat

    /**
      The object invariant: `size <= alloc`, the capacity is a multiple of 8, the storage
      holds `alloc` elements, the mask has at least `alloc` bits, and the storage is not the
      mask's buffer.
    */
    ghost predicate Valid()
      reads this, data, mask, mask.field
    {
      && mask.Valid()
      && data.Length == alloc
      && size <= alloc
      && alloc % 8 == 0
      && alloc <= 8 * mask.alloc
      && data as object? != mask.field as object?
    }

    /** The abstract value: one optional element per index below `size`. */
    ghost function Slots(): seq<Option<T>>
      reads this, data, mask, mask.field
      requires Valid()
    {
      SlotsOf(data[..], mask.Bits(), size)
    }

    /**
      The storage and the mask's buffer are the ones held before or newly allocated, and
      the mask object is kept: a caller that may change the old ones may change the new ones.
    */
    twostate predicate KeepsOrAllocates()
      reads this, mask
    {
      && mask == old(mask)
      && (data == old(data) || fresh(data))
      && (mask.field == old(mask.field) || mask.field == null || fresh(mask.field))
    }

    /** Default construction: no slots and no storage. */
    constructor ()
      ensures Valid() && Slots() == [] && alloc == 0 && Empty()
      ensures fresh(data) && fresh(mask) && mask.field == null
    {
      data := new T[0];
      mask := new Bitfield();
      alloc, size := 0, 0;
    }

    /**
      Copy construction: the same slots in storage of its own. An empty source gives an
      optvector with capacity 0.
    */
    constructor Copy(ov: OptVector<T>)
      requires ov.Valid()
      ensures Valid() && Slots() == ov.Slots()
      ensures alloc == (if ov.size == 0 then 0 else ov.alloc)
      ensures fresh(data) && fresh(mask) && (mask.field == null || fresh(mask.field))
    {
      var m := new Bitfield.Copy(ov.mask);
      if ov.size == 0 {
        data := new T[0];
        alloc := 0;
      } else {
        var d := new T[ov.alloc];
        CopyPresent(ov.data, m, d, ov.size);
        data := d;
        alloc := ov.alloc;
      }
      mask, size := m, ov.size;
    }

    /**
      The copy constructor as written: the mask, `_alloc` and `_size` are copied first, and
      storage is allocated only when the source is not empty. A source that has capacity but
      no elements gives a copy whose capacity exceeds its storage: `push_back` then neither
      reallocates (`size < alloc`) nor finds slot `size` inside the storage.
    */
    constructor CopyAsWritten(ov: OptVector<T>)
      requires ov.Valid()
      ensures alloc == ov.alloc && size == ov.size
      ensures ov.size == 0 ==> data.Length == 0
      ensures ov.size == 0 && ov.alloc > 0 ==> size < alloc && data.Length <= size && !Valid()
      ensures ov.size > 0 ==> Valid() && Slots() == ov.Slots()
      ensures fresh(data) && fresh(mask) && (mask.field == null || fresh(mask.field))
    {
      var m := new Bitfield.Copy(ov.mask);
      var d := new T[0];
      if ov.size != 0 {
        d := new T[ov.alloc];
        CopyPresent(ov.data, m, d, ov.size);
      }
      data, mask, alloc, size := d, m, ov.alloc, ov.size;
    }

    /** Move construction: takes the other optvector's storage and mask and leaves it empty. */
    constructor Move(ov: OptVector<T>)
      requires ov.Valid()
      modifies ov, ov.mask
      ensures Valid() && Slots() == old(ov.Slots()) && alloc == old(ov.alloc)
      ensures ov.Valid() && ov.Slots() == [] && ov.alloc == 0
      ensures fresh(mask) && data == old(ov.data) && mask.field == old(ov.mask.field)
      ensures ov.mask == old(ov.mask) && fresh(ov.data) && ov.mask.field == null
    {
      var m := new Bitfield.Move(ov.mask);
      data, mask, alloc, size := ov.data, m, ov.alloc, ov.size;
      new;
      ov.data := new T[0];
      ov.alloc, ov.size := 0, 0;
    }

    /** `empty()`. */
    function Empty(): (r: bool)
      reads this, data, mask, mask.field
      requires Valid()
      ensures r <==> Slots() == []
    {
      size == 0
    }

    /** `size()`: the number of slots. */
    function Size(): (r: nat)
      reads this, data, mask, mask.field
      requires Valid()
      ensures r == |Slots()|
    {
      size
    }

    /** `capacity()`: the number of slots the storage holds. */
    function Capacity(): (r: nat)
      reads this, data, mask, mask.field
      requires Valid()
      ensures r >= |Slots()| && r % 8 == 0
    {
      alloc
    }

    /** `at(idx)`: the slot at `idx`, which must be below `size`. */
    function At(idx: nat): (r: Option<T>)
      reads this, data, mask, mask.field
      requires Valid() && idx < size
      ensures r == Slots()[idx]
      ensures r.Some? <==> mask.Bits()[idx]
    {
      if mask.Get(idx) then Some(data[idx]) else None
    }

    /** An iterator's `operator->`: the element at `idx`, which must be below `size` and present. */
    function Element(idx: nat): (v: T)
      reads this, data, mask, mask.field
      requires Valid() && idx < size && mask.Bits()[idx]
      ensures Slots()[idx] == Some(v)
    {
      data[idx]
    }

    /**
      A write through the reference `at(idx).val` (an iterator's `operator->` also asserts
      that the slot is present). A present slot then holds `v`; a vacant slot stays vacant,
      because `has_val` is a const bitref that the caller cannot set. Nothing else changes.
    */
    method SetAt(idx: nat, v: T)
      requires Valid() && idx < size
      modifies data
      ensures Valid()
      ensures Slots() == if old(mask.Bits()[idx]) then old(Slots())[idx := Some(v)] else old(Slots())
    {
      ghost var d0, m0 := data[..], mask.Bits();
      data[idx] := v;
      if m0[idx] {
        assert m0[idx := true] == m0;
        SlotsOfOverwrite(d0, m0, size, idx, v);
      } else {
        SlotsOfAgree(d0, m0, d0[idx := v], m0, size);
      }
    }

    /** `reserve(cap)`: reallocates only when the capacity is below `cap`. */
    method Reserve(cap: nat)
      requires Valid()
      modifies this, mask
      ensures Valid() && Slots() == old(Slots())
      ensures alloc >= cap
      ensures old(alloc) >= cap ==> alloc == old(alloc) && data == old(data)
      ensures KeepsOrAllocates()
    {
      if alloc < cap {
        Realloc(cap);
      }
    }

    /** `clear()`: every slot is removed; the capacity stays. */
    method Clear()
      requires Valid()
      modifies this
      ensures Valid() && Slots() == [] && alloc == old(alloc)
      ensures data == old(data) && mask == old(mask)
    {
      size := 0;
    }

    /**
      `insert(pos, val)`: at `end()` this is `push_back`; below `size` it overwrites slot `pos`
      and marks it present.
    */
    method Insert(pos: nat, v: T)
      requires Valid() && pos <= size
      modifies this, data, mask, mask.field
      ensures Valid()
      ensures Slots() == if pos == old(size) then old(Slots()) + [Some(v)] else old(Slots())[pos := Some(v)]
      ensures pos < old(size) ==> alloc == old(alloc)
      ensures KeepsOrAllocates()
    {
      if pos == size {
        PushBack(v);
        return;
      }
      ghost var d0, m0 := data[..], mask.Bits();
      data[pos] := v;
      mask.Set(pos, true);
      SlotsOfOverwrite(d0, m0, size, pos, v);
    }

    /** `erase(pos)`: slot `pos`, which must be below `size`, becomes vacant. */
    method Erase(pos: nat)
      requires Valid() && pos < size
      modifies mask.field
      ensures Valid() && Slots() == old(Slots())[pos := None]
    {
      DestructElem(pos);
    }

    /** `erase(start, stop)`: every slot in `[start, stop)` becomes vacant, one at a time. */
    method EraseRange(start: nat, stop: nat)
      requires Valid() && start <= stop <= size
      modifies mask.field
      ensures Valid() && Slots() == Vacated(old(Slots()), start, stop)
    {
      var it := start;
      while it != stop
        invariant start <= it <= stop
        invariant Valid() && Slots() == Vacated(old(Slots()), start, it)
        modifies mask.field
        decreases stop - it
      {
        Erase(it);
        it := it + 1;
      }
    }

    /** `push_back(val)`: grows when full, then puts `val` in a new last slot. */
    method PushBack(v: T)
      requires Valid()
      modifies this, data, mask, mask.field
      ensures Valid() && Slots() == old(Slots()) + [Some(v)]
      ensures alloc == if old(size) == old(alloc) then GrownCapacity(old(alloc)) else old(alloc)
      ensures KeepsOrAllocates()
    {
      if size == alloc {
        var request := GrowRequest(alloc);
        assert request > alloc;
        Realloc(request);
        assert alloc >= request > size;
      }
      AppendInPlace(v);
    }

    /** The second half of `push_back`: with room left, `val` goes in slot `size`, which is marked present. */
    method AppendInPlace(v: T)
      requires Valid() && size < alloc
      modifies this, data, mask.field
      ensures Valid() && Slots() == old(Slots()) + [Some(v)]
      ensures alloc == old(alloc) && data == old(data) && mask == old(mask)
      ensures mask.field == old(mask.field)
    {
      ghost var d0, m0 := data[..], mask.Bits();
      data[size] := v;
      mask.Set(size, true);
      SlotsOfPush(d0, m0, size, v);
      size := size + 1;
    }

    /** `pop_back()`: `size` must be positive; the last slot is vacated and removed. */
    method PopBack()
      requires Valid() && size > 0
      modifies this, mask.field
      ensures Valid() && Slots() == old(Slots())[..old(size) - 1] && alloc == old(alloc)
      ensures !mask.Bits()[size]
      ensures data == old(data) && mask == old(mask)
    {
      DestructElem(size - 1);
      SlotsOfPrefix(data[..], mask.Bits(), size, size - 1);
      size := size - 1;
    }

    /** Copy assignment: self-assignment does nothing; an empty source leaves no storage. */
    method CopyAssign(ov: OptVector<T>)
      requires Valid() && ov.Valid() && (ov != this ==> ov.mask != mask)
      modifies this, mask
      ensures Valid() && Slots() == old(ov.Slots())
      ensures ov != this ==> alloc == if old(ov.size) == 0 then 0 else old(ov.alloc)
      ensures KeepsOrAllocates()
    {
      if ov != this {
        Dealloc();
        if ov.size != 0 {
          CopyFrom(ov);
        }
      }
    }

    /** The body of a copy assignment from a non-empty optvector, after this one is deallocated. */
    method CopyFrom(ov: OptVector<T>)
      requires Valid() && ov.Valid() && ov != this && ov.mask != mask && ov.size != 0
      modifies this, mask
      ensures Valid() && Slots() == old(ov.Slots()) && alloc == ov.alloc
      ensures KeepsOrAllocates()
    {
      ghost var d0, m0 := ov.data[..], ov.mask.Bits();
      alloc, size := ov.alloc, ov.size;
      mask.CopyAssign(ov.mask);
      var d := new T[alloc];
      CopyPresent(ov.data, mask, d, size);
      SlotsOfAgree(d0, m0, d[..], mask.Bits(), size);
      data := d;
    }

    /** Move assignment: takes the other optvector's storage and mask and leaves it empty. */
    method MoveAssign(ov: OptVector<T>)
      requires Valid() && ov.Valid() && (ov != this ==> ov.mask != mask)
      modifies this, mask, ov, ov.mask
      ensures Valid() && Slots() == old(ov.Slots())
      ensures ov != this ==> ov.Valid() && ov.Slots() == [] && ov.alloc == 0
      ensures mask == old(mask) && ov.mask == old(ov.mask)
      ensures ov != this ==> data == old(ov.data) && mask.field == old(ov.mask.field)
      ensures ov != this ==> fresh(ov.data) && ov.mask.field == null
    {
      if ov != this {
        Dealloc();
        TakeFrom(ov);
      }
    }

    /** The body of a move assignment from another optvector, after this one is deallocated. */
    method TakeFrom(ov: OptVector<T>)
      requires Valid() && ov.Valid() && ov != this && ov.mask != mask
      modifies this, mask, ov, ov.mask
      ensures Valid() && Slots() == old(ov.Slots())
      ensures ov.Valid() && ov.Slots() == [] && ov.alloc == 0
      ensures mask == old(mask) && ov.mask == old(ov.mask)
      ensures data == old(ov.data) && mask.field == old(ov.mask.field)
      ensures fresh(ov.data) && ov.mask.field == null
    {
      data := ov.data;
      mask.MoveAssign(ov.mask);
      alloc, size := ov.alloc, ov.size;
      ov.data := new T[0];
      ov.alloc, ov.size := 0, 0;
    }

    /** `dealloc()`: the storage is released and there are no slots; the mask is left as it is. */
    method Dealloc()
      requires Valid()
      modifies this
      ensures Valid() && Slots() == [] && alloc == 0 && mask == old(mask)
      ensures fresh(data) && mask.field == old(mask.field)
    {
      data := new T[0];
      alloc, size := 0, 0;
    }

    /**
      `realloc(request)`: `request` must be at least the capacity. The capacity becomes
      `request` rounded up to a multiple of 8, the mask is resized to match, and every
      present element is moved into fresh storage; the slots are unchanged.
    */
    method Realloc(request: nat)
      requires Valid() && request >= alloc
      modifies this, mask
      ensures Valid() && Slots() == old(Slots())
      ensures alloc == RoundUp8(request) && mask == old(mask)
      ensures fresh(data) && (mask.field == null || fresh(mask.field))
    {
      var newAlloc := RoundUp8(request);
      var newData := Relocate(newAlloc);
      data, alloc := newData, newAlloc;
    }

    /**
      The work of `realloc` before the new storage is installed: the mask is resized to
      `newAlloc` bits and the present elements are copied into fresh storage of that length.
    */
    method Relocate(newAlloc: nat) returns (newData: array<T>)
      requires Valid() && newAlloc >= alloc && newAlloc % 8 == 0
      modifies mask
      ensures fresh(newData) && newData.Length == newAlloc
      ensures mask.Valid() && 8 * mask.alloc == newAlloc && (mask.field == null || fresh(mask.field))
      ensures newData as object? != mask.field as object?
      ensures SlotsOf(newData[..], mask.Bits(), size) == old(Slots())
    {
      ghost var d0, c0 := data[..], mask.Contents();
      mask.Resize(newAlloc);
      newData := new T[newAlloc];
      CopyPresent(data, mask, newData, size);
      ReallocKeepsSlots(d0, c0, newData[..], newAlloc / 8, size);
    }

    /** `destruct_elem(idx)`: `idx` must be below `size`; a present slot is made vacant. */
    method DestructElem(idx: nat)
      requires Valid() && idx < size
      modifies mask.field
      ensures Valid() && Slots() == old(Slots())[idx := None]
      ensures mask.Bits() == old(mask.Bits())[idx := false]
    {
      SlotsOfClear(data[..], mask.Bits(), size, idx);
      if mask.Get(idx) {
        mask.Set(idx, false);
      } else {
        assert mask.Bits()[idx := false] == mask.Bits();
      }
    }

    /**
      The element-copying loop shared by `realloc` and the copy operations: every index
      below `count` whose bit is set in `m` gets the element of `src`.
    */
    static method CopyPresent(src: array<T>, m: Bitfield, dst: array<T>, count: nat)
      requires m.Valid() && count <= src.Length && count <= dst.Length && count <= m.Size()
      requires dst != src && dst as object? != m.field as object?
      modifies dst
      ensures forall j :: 0 <= j < count && m.Bits()[j] ==> dst[j] == old(src[j])
    {
      for i := 0 to count
        invariant forall j :: 0 <= j < i && m.Bits()[j] ==> dst[j] == old(src[j])
      {
        if m.Get(i) {
          dst[i] := src[i];
        }
      }
    }
  }
}
