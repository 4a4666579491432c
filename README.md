# Nervi kernel storage, in Dafny

A model of the memory and register layer of the Nervi virtual machine and of its one
instruction handler:

- `MemoryCard.NMemoryCard` (kernel/storage/memorycard.h): a byte array of fixed size
  with write-locking. Locked cells are kept as a list of indexes: locking appends,
  unlocking erases the first match, so a cell locked twice and unlocked once stays
  locked. Reads ignore locks; writes to a locked cell throw.
- `MachineStorage.NVirtualMachineStorage` (kernel/storage/nmachinememory.h): the machine's
  storage device. It extends the memory card (modelled by composition: the `card` field)
  with byte registers, a 64-bit instruction pointer `ip`, an operand stack of bytes and a
  return-address stack, plus `jump` and `returnJump`.
- `Commands.ByteAnd` (kernel/command/ncommands.h): `mem[first] = mem[first] & mem[second]`
  through the card's checked reads and locked write.
- `LegacyStorage.NVirtualMachineStorage` (kernel/storage/machinememory.h): the older
  self-contained storage of the `Nervi` namespace, with no bounds checks on the lock list,
  a register write that silently ignores bad names, and a separate last-interrupt field.

Shared pieces: `Kernel` holds the byte type (`bv8`, a C `char`), `Int64` (a C
`long long`), the register numbers `IP = 26` and `LASTINTR = 27`
(kernel/constant/regadresses.h) and the error kinds of kernel/error/internal.h and
kernel/error/local.h as the `Fault` datatype. Every C++ exception becomes a `Fail(fault)`
or `Err(fault)` result. `LockList` holds the specification of the lock list's erase,
`RemoveFirst`, and what unlocking does to it.

Two behaviours of the source are kept as they are. Locking is not idempotent: the list
keeps duplicates (kernel/storage/memorycard.h:86), so one unlock undoes only one lock. The
read's bounds check accepts `index == size` (kernel/storage/memorycard.h:144), an
off-by-one: it does not reject every offset at or beyond the size.

## Model

| member | source | states |
|---|---|---|
| `MemoryCard.NMemoryCard.constructor` | kernel/storage/memorycard.h:60-64 | the card has `size` cells, all 0, and no lock |
| `MemoryCard.NMemoryCard.IsLocked` | kernel/storage/memorycard.h:41-53 | an index outside `[0, size)` is InvalidIndex; otherwise the answer is membership in the lock list |
| `MemoryCard.NMemoryCard.LockCell` | kernel/storage/memorycard.h:81-88 | a bad index is InvalidIndex and leaves the list; a good one is appended even if present; every locked index stays inside the card |
| `MemoryCard.NMemoryCard.UnlockCell` | kernel/storage/memorycard.h:97-109 | a bad index is InvalidIndex and leaves the list; a good one has its first occurrence erased, a no-op if absent |
| `MemoryCard.NMemoryCard.GetSize` | kernel/storage/memorycard.h:115-117 | returns the size fixed at construction, the number of cells |
| `MemoryCard.NMemoryCard.SetValueAt` | kernel/storage/memorycard.h:126-135 | an index outside the card (`size` itself via the lock lookup) is InvalidIndex, a locked cell LockedAddress, both with memory unchanged; otherwise exactly cell `index` becomes `value` |
| `MemoryCard.NMemoryCard.GetValueAt` | kernel/storage/memorycard.h:143-149 | returns the cell, whatever its lock state, or InvalidIndex for a negative or above-size index; changes nothing |
| `MemoryCard.WriteThenRead` | kernel/storage/memorycard.h:126-149 | a write to an unlocked valid cell is read back, and no other cell changes |
| `MemoryCard.RelockedCellRejectsWrite` | kernel/storage/memorycard.h:81-135 | lock, lock, unlock leaves the cell locked, so a write then fails with LockedAddress and memory is unchanged |
| `LockList.RemoveFirst` | kernel/storage/memorycard.h:102-107 | erasing the first match shortens the list by one exactly when the index is present |
| `LockList.RemoveFirstAt` | kernel/storage/memorycard.h:102-107 | erasing at the first match keeps everything before and after it, in order |
| `LockList.RemoveFirstAbsent` | kernel/storage/memorycard.h:102-107 | unlocking an index that is not locked changes nothing |
| `LockList.RemoveFirstMultiset` | kernel/storage/memorycard.h:102-107 | unlock removes exactly one occurrence of the index and nothing else |
| `LockList.StillLockedIffLockedTwice` | kernel/storage/memorycard.h:102-107 | after one unlock a cell is still locked if and only if it was in the list at least twice |
| `LockList.OtherLocksKept` | kernel/storage/memorycard.h:102-107 | unlocking one cell does not change whether any other cell is locked |
| `LockList.RemoveFirstSubset` | kernel/storage/memorycard.h:102-107 | unlocking never adds an index to the list |
| `LockList.LockTwiceUnlockOnce` | kernel/storage/memorycard.h:86-107 | two appends of an index and one erase leave it locked |
| `MachineStorage.NVirtualMachineStorage.constructor` | kernel/storage/nmachinememory.h:64-68 | a zeroed card of `size` cells, registers below LASTINTR zeroed, IP 0, both stacks empty |
| `MachineStorage.NVirtualMachineStorage.PushToRegister` | kernel/storage/nmachinememory.h:91-102 | a name above 27 is InvalidRegister, IP is IPMisuse, both changing nothing; otherwise exactly that register becomes `value` |
| `MachineStorage.NVirtualMachineStorage.GetRegister` | kernel/storage/nmachinememory.h:114-125 | a name above 27 is InvalidRegister, IP is IPMisuse; otherwise the register's value |
| `MachineStorage.NVirtualMachineStorage.GetIP` | kernel/storage/nmachinememory.h:137-139 | returns IP and changes nothing |
| `MachineStorage.NVirtualMachineStorage.PushToStack` | kernel/storage/nmachinememory.h:151-153 | the value goes on top of the operand stack; nothing else changes |
| `MachineStorage.NVirtualMachineStorage.PushReturnAddress` | kernel/storage/nmachinememory.h:165-167 | the address goes on top of the return stack; nothing else changes |
| `MachineStorage.NVirtualMachineStorage.PopStack` | kernel/storage/nmachinememory.h:179-183 | on a non-empty operand stack, returns and removes its top |
| `MachineStorage.NVirtualMachineStorage.PopReturn` | kernel/storage/nmachinememory.h:195-199 | on a non-empty return stack, returns and removes its top |
| `MachineStorage.NVirtualMachineStorage.ReturnJump` | kernel/storage/nmachinememory.h:211-213 | IP becomes the top of the return stack, which is popped |
| `MachineStorage.NVirtualMachineStorage.Jump` | kernel/storage/nmachinememory.h:225-227 | IP becomes the destination; nothing else changes |
| `MachineStorage.StackRoundTrip` | kernel/storage/nmachinememory.h:151-183 | push then pop returns the pushed byte and restores the operand stack |
| `MachineStorage.ReturnStackRoundTrip` | kernel/storage/nmachinememory.h:165-199 | push then pop returns the pushed address and restores the return stack, operand stack untouched |
| `MachineStorage.RegisterRoundTrip` | kernel/storage/nmachinememory.h:91-125 | a register write is read back, no other register changes |
| `MachineStorage.CallAndReturn` | kernel/storage/nmachinememory.h:137-227 | saving IP, jumping and returning restores IP and the return stack |
| `Commands.AndInto` | kernel/command/ncommands.h:12 | cell `first` becomes the AND of cells `first` and `second`; every other cell keeps its value |
| `Commands.AndIntoSameCell` | kernel/command/ncommands.h:12 | AND of a cell with itself leaves memory unchanged |
| `Commands.ByteAnd` | kernel/command/ncommands.h:11-13 | a bad index of either operand is InvalidIndex, a locked `first` LockedAddress, memory unchanged in both; otherwise `first` gets `old[first] & old[second]`; lock list, registers, stacks and IP are untouched |
| `Commands.AndOnLockedCell` | kernel/command/ncommands.h:12 | after locking `first`, the AND fails with LockedAddress and the cell keeps its value |
| `LegacyStorage.NVirtualMachineStorage.constructor` | kernel/storage/machinememory.h:58-62 | `size` zeroed cells and no lock |
| `LegacyStorage.NVirtualMachineStorage.IsLocked` | kernel/storage/machinememory.h:43-51 | plain membership in the lock list, with no bounds check |
| `LegacyStorage.NVirtualMachineStorage.LockCell` | kernel/storage/machinememory.h:78-81 | appends any index, with no bounds or duplicate check |
| `LegacyStorage.NVirtualMachineStorage.UnlockCell` | kernel/storage/machinememory.h:87-95 | erases the first occurrence of the index; a no-op if absent |
| `LegacyStorage.NVirtualMachineStorage.GetSize` | kernel/storage/machinememory.h:101-103 | returns the size fixed at construction, the number of cells |
| `LegacyStorage.NVirtualMachineStorage.SetValueAt` | kernel/storage/machinememory.h:112-121 | an index outside `[0, size]` is InvalidIndex, a locked index LockedAddress, memory unchanged; otherwise exactly cell `index` becomes `value` |
| `LegacyStorage.NVirtualMachineStorage.GetValueAt` | kernel/storage/machinememory.h:129-135 | returns the cell or InvalidIndex for a negative or above-size index; changes nothing |
| `LegacyStorage.NVirtualMachineStorage.PushToRegister` | kernel/storage/machinememory.h:137-156 | a name above 27 or IP changes nothing and raises nothing; LASTINTR writes its own field; any other name writes exactly that register |

## Left out

- Destructors and raw memory management (`new[]`, `delete[]`, `memset`); the subclass in
  nmachinememory.h redeclares `storage`, `size` and `locked`, which only its destructor
  touches, so those shadow fields are not modelled.
- A negative size at construction: `new char[size]` then throws an allocation error
  outside the kernel's error kinds; the constructors require `size >= 0`.
- `MemoryCard.NMemoryCard.GetValueAt`: requires `index != size`, because the bounds check lets that index through to a read past the array (undefined behaviour).
- `LegacyStorage.NVirtualMachineStorage.GetValueAt`: requires `index != size`, for the same reason.
- `LegacyStorage.NVirtualMachineStorage.SetValueAt`: requires that `index == size` be locked, because otherwise the write lands past the array (undefined behaviour).
- `Commands.ByteAnd`: requires neither operand to be `size`, for the same read past the array; the handler's missing `return` value is not modelled (it returns only the outcome).
- `MachineStorage.NVirtualMachineStorage.PopStack`: requires a non-empty operand stack; popping an empty `std::stack` is undefined behaviour.
- `MachineStorage.NVirtualMachineStorage.PopReturn`: requires a non-empty return stack, for the same reason.
- `MachineStorage.NVirtualMachineStorage.ReturnJump`: requires a non-empty return stack, since it pops it.
- `MachineStorage.NVirtualMachineStorage.constructor`: says nothing about register LASTINTR, which the 27-byte `memset` leaves uninitialised; the legacy constructor initialises no register at all and says nothing about any.
- The register layout (kernel/storage/registers.h is not part of this model): the byte registers are assumed to be an array of 28 slots, indexed by name; register names are natural numbers, as the enumeration's values are.
- Exception message strings and the `DeveloperTestException` class, which nothing in the core throws.
- The command records and token strings of kernel/command/ncommand.h and kernel/command/ntokens.h, and the handler table of kernel/command/ncommandlist.h, whose entries other than `byteAnd` have no definition here.
