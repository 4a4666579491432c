/** The memory card of the Nervi kernel: a byte array whose size is fixed at
    construction, with per-cell write-locking kept as a list of indexes. */
module MemoryCard {
  import opened Kernel
  import LockList

  class NMemoryCard {
    /** Number of cells; never changes after construction. */
    const size: Int64
    /** The cells. */
    const storage: array<Byte>
    /** Indexes of the write-locked cells, in locking order; an index may repeat. */
    var locked: seq<Int64>

    /** The card's invariant: the array has `size` cells and every locked index names one of them. */
    ghost predicate Valid()
      reads this
    {
      0 <= size && storage.Length == size as int &&
      forall x :: x in locked ==> 0 <= x < size
    }

    /** Creates a card of `size` zeroed cells with no cell locked. */
    constructor (size: Int64)
      requires 0 <= size
      ensures Valid() && fresh(storage)
      ensures this.size == size && locked == []
      ensures forall k :: 0 <= k < storage.Length ==> storage[k] == 0
    {
      this.size := size;
      storage := new Byte[size](_ => 0);
      locked := [];
    }

    /** Whether `index` is locked; an index outside the card is an error. */
    method IsLocked(index: Int64) returns (r: Result<bool>)
      requires Valid()
      ensures r == if 0 <= index < size then Ok(index in locked) else Err(InvalidIndex)
    {
      if index < 0 || index > size - 1 {
        return Err(InvalidIndex);
      }
      var i := 0;
      while i < |locked|
        invariant 0 <= i <= |locked|
        invariant index !in locked[..i]
      {
        if locked[i] == index {
          return Ok(true);
        }
        i := i + 1;
      }
      assert locked[..i] == locked;
      return Ok(false);
    }

    /** Appends `index` to the locked list, even when it is already there. */
    method LockCell(index: Int64) returns (o: Outcome)
      requires Valid()
      modifies this`locked
      ensures Valid()
      ensures o == if 0 <= index < size then Pass else Fail(InvalidIndex)
      ensures locked == if o.Pass? then old(locked) + [index] else old(locked)
    {
      if index < 0 || index > size - 1 {
        return Fail(InvalidIndex);
      }
      locked := locked + [index];
      return Pass;
    }

    /** Erases the first occurrence of `index` from the locked list; nothing happens if it is absent. */
    method UnlockCell(index: Int64) returns (o: Outcome)
      requires Valid()
      modifies this`locked
      ensures Valid()
      ensures o == if 0 <= index < size then Pass else Fail(InvalidIndex)
      ensures locked == if o.Pass? then LockList.RemoveFirst(old(locked), index) else old(locked)
    {
      if index < 0 || index > size - 1 {
        return Fail(InvalidIndex);
      }
      LockList.RemoveFirstSubset(locked, index);
      var i := 0;
      while i < |locked|
        invariant 0 <= i <= |locked|
        invariant index !in locked[..i]
      {
        if locked[i] == index {
          LockList.RemoveFirstAt(locked, index, i);
          locked := locked[..i] + locked[i + 1..];
          return Pass;
        }
        i := i + 1;
      }
      assert locked[..i] == locked;
      LockList.RemoveFirstAbsent(locked, index);
      return Pass;
    }

    /** The number of cells, as fixed at construction. */
    method GetSize() returns (r: Int64)
      requires Valid()
      ensures r == size && r as int == storage.Length
    {
      return size;
    }

    /** Writes `value` to cell `index` unless the index is outside the card or the cell is locked. */
    method SetValueAt(index: Int64, value: Byte) returns (o: Outcome)
      requires Valid()
      modifies storage
      ensures Valid()
      ensures o == if !(0 <= index < size) then Fail(InvalidIndex)
                   else if index in locked then Fail(LockedAddress)
                   else Pass
      ensures storage[..] == if o.Pass? then old(storage[..])[index := value] else old(storage[..])
    {
      if index < 0 || index > size {
        return Fail(InvalidIndex);
      }
      // At index == size the bounds check above passes and the lock lookup rejects it.
      var l := IsLocked(index);
      match l
      case Err(f) =>
        return Fail(f);
      case Ok(isLocked) =>
        if isLocked {
          return Fail(LockedAddress);
        }
        storage[index] := value;
        return Pass;
    }

    /** Reads cell `index`, locked or not. The bounds check lets `index == size` through to
        a read past the array, so that index is excluded here. */
    method GetValueAt(index: Int64) returns (r: Result<Byte>)
      requires Valid()
      requires index != size
      ensures r == if 0 <= index < size then Ok(storage[index]) else Err(InvalidIndex)
    {
      if index < 0 || index > size {
        return Err(InvalidIndex);
      }
      return Ok(storage[index]);
    }
  }

  /** A write to an unlocked cell is read back, and no other cell changes. */
  method WriteThenRead(card: NMemoryCard, index: Int64, value: Byte) returns (r: Result<Byte>)
    requires card.Valid()
    requires 0 <= index < card.size && index !in card.locked
    modifies card.storage
    ensures r == Ok(value)
    ensures forall k :: 0 <= k < card.storage.Length && k != index as int ==> card.storage[k] == old(card.storage[k])
  {
    var o := card.SetValueAt(index, value);
    r := card.GetValueAt(index);
  }

  /** Locking a cell twice and unlocking it once leaves it locked, so a write still fails. */
  method RelockedCellRejectsWrite(card: NMemoryCard, index: Int64, value: Byte) returns (o: Outcome)
    requires card.Valid()
    requires 0 <= index < card.size
    modifies card`locked, card.storage
    ensures card.Valid() && index in card.locked
    ensures multiset(card.locked) == multiset(old(card.locked)) + multiset{index}
    ensures o == Fail(LockedAddress) && card.storage[..] == old(card.storage[..])
  {
    var a := card.LockCell(index);
    var b := card.LockCell(index);
    LockList.LockTwiceUnlockOnce(old(card.locked), index);
    var c := card.UnlockCell(index);
    LockList.RemoveFirstMultiset(old(card.locked) + [index] + [index], index);
    o := card.SetValueAt(index, value);
  }
}
