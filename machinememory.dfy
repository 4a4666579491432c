/** The older, self-contained storage device of the Nervi namespace: cells with
    write-locking but no bounds checks on the lock list, and byte registers with a
    separate last-interrupt field, written without any error report. */
module LegacyStorage {
  import opened Kernel
  import LockList

  class NVirtualMachineStorage {
    /** Number of cells; never changes after construction. */
    const size: Int64
    /** The cells. */
    const storage: array<Byte>
    /** Indexes of the write-locked cells, in locking order; any value may appear, repeatedly. */
    var locked: seq<Int64>
    /** The byte registers, indexed by register name. */
    const charRegs: array<Byte>
    /** The last-interrupt register, kept apart from the byte registers. */
    var lastIntr: Byte

    /** The storage's invariant: the array has `size` cells and the registers their own array. */
    ghost predicate Valid()
    {
      0 <= size && storage.Length == size as int &&
      charRegs.Length == REGISTER_SLOTS && charRegs != storage
    }

    /** Creates a storage of `size` zeroed cells with no cell locked; registers are not initialised. */
    constructor (size: Int64)
      requires 0 <= size
      ensures Valid() && fresh(storage) && fresh(charRegs)
      ensures this.size == size && locked == []
      ensures forall k :: 0 <= k < storage.Length ==> storage[k] == 0
    {
      this.size := size;
      storage := new Byte[size](_ => 0);
      locked := [];
      charRegs := new Byte[REGISTER_SLOTS];
    }

    /** Whether `index` is in the locked list; there is no bounds check. */
    method IsLocked(index: Int64) returns (r: bool)
      requires Valid()
      ensures r <==> index in locked
    {
      var i := 0;
      while i < |locked|
        invariant 0 <= i <= |locked|
        invariant index !in locked[..i]
      {
        if locked[i] == index {
          return true;
        }
        i := i + 1;
      }
      assert locked[..i] == locked;
      return false;
    }

    /** Appends `index` to the locked list, with no bounds and no duplicate check. */
    method LockCell(index: Int64)
      requires Valid()
      modifies this`locked
      ensures Valid()
      ensures locked == old(locked) + [index]
    {
      locked := locked + [index];
    }

    /** Erases the first occurrence of `index` from the locked list; nothing happens if it is absent. */
    method UnlockCell(index: Int64)
      requires Valid()
      modifies this`locked
      ensures Valid()
      ensures locked == LockList.RemoveFirst(old(locked), index)
    {
      var i := 0;
      while i < |locked|
        invariant 0 <= i <= |locked|
        invariant index !in locked[..i]
      {
        if locked[i] == index {
          LockList.RemoveFirstAt(locked, index, i);
          locked := locked[..i] + locked[i + 1..];
          return;
        }
        i := i + 1;
      }
      assert locked[..i] == locked;
      LockList.RemoveFirstAbsent(locked, index);
    }

    /** The number of cells, as fixed at construction. */
    method GetSize() returns (r: Int64)
      requires Valid()
      ensures r == size && r as int == storage.Length
    {
      return size;
    }

    /** Writes `value` to cell `index` unless the index is outside `[0, size]` or is locked.
        Index `size` passes both checks unless it was locked, and then the write lands past
        the array, so that case is excluded here. */
    method SetValueAt(index: Int64, value: Byte) returns (o: Outcome)
      requires Valid()
      requires index == size ==> index in locked
      modifies storage
      ensures Valid()
      ensures o == if !(0 <= index <= size) then Fail(InvalidIndex)
                   else if index in locked then Fail(LockedAddress)
                   else Pass
      ensures o.Pass? ==> 0 <= index < size
      ensures storage[..] == if o.Pass? then old(storage[..])[index := value] else old(storage[..])
    {
      if index < 0 || index > size {
        return Fail(InvalidIndex);
      }
      var l := IsLocked(index);
      if l {
        return Fail(LockedAddress);
      }
      storage[index] := value;
      return Pass;
    }

    /** Reads cell `index`, locked or not. The bounds check lets `index == size` through to
        a read past the array, so that index is excluded here. */
    method GetValueAt(index: Int64) returns (r: Result<Byte>)
      requires Valid()
      requires index != size
      ensures r == if 0 <= index < size then Ok(storage[index]) else Err(InvalidIndex)
    {
      if index < 0 || index > size {
        return Err(InvalidIndex);
      }
      return Ok(storage[index]);
    }

    /** Writes register `name`: LASTINTR goes to its own field, other names to the register
        array; names above LASTINTR and IP are ignored without an error. */
    method PushToRegister(name: nat, value: Byte)
      requires Valid()
      modifies charRegs, this`lastIntr
      ensures Valid()
      ensures lastIntr == if name == LASTINTR then value else old(lastIntr)
      ensures charRegs[..] == if name < LASTINTR && name != IP then old(charRegs[..])[name := value]
                              else old(charRegs[..])
    {
      if name > 27 {
        // no error is raised
      } else if name == IP {
        // no error is raised
      } else if name == LASTINTR {
        lastIntr := value;
      } else {
        charRegs[name] := value;
      }
    }
  }
}
