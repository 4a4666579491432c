/** The bitwise instruction handler of the Nervi kernel: AND of two memory cells,
    written back into the first through the card's locked-write discipline. */
module Commands {
  import opened Kernel
  import opened MemoryCard
  import opened MachineStorage

  /** The cells after `first` receives the AND of cells `first` and `second`, both read beforehand. */
  function AndInto(cells: seq<Byte>, first: nat, second: nat): (r: seq<Byte>)
    requires first < |cells| && second < |cells|
    ensures |r| == |cells|
    ensures r[first] == cells[first] & cells[second]
    ensures forall k :: 0 <= k < |cells| && k != first ==> r[k] == cells[k]
  {
    cells[first := cells[first] & cells[second]]
  }

  /** AND of a cell with itself leaves the memory unchanged. */
  lemma AndIntoSameCell(cells: seq<Byte>, cell: nat)
    requires cell < |cells|
    ensures AndInto(cells, cell, cell) == cells
  {
  }

  /** `byteAnd`: reads cells `first` and `second`, then writes their AND into `first`.
      A bad index of either operand throws InvalidIndex, a locked `first` throws
      LockedAddress; in both cases memory is untouched, and nothing but cell `first`
      ever changes. Index `size` is excluded: the read check lets it through to a read
      past the array. */
  method ByteAnd(vm: NVirtualMachineStorage, first: Int64, second: Int64) returns (o: Outcome)
    requires vm.Valid()
    requires first != vm.card.size && second != vm.card.size
    modifies vm.card.storage
    ensures o == if !(0 <= first < vm.card.size && 0 <= second < vm.card.size) then Fail(InvalidIndex)
                 else if first in vm.card.locked then Fail(LockedAddress)
                 else Pass
    ensures vm.card.storage[..] == if o.Pass? then AndInto(old(vm.card.storage[..]), first as nat, second as nat)
                                   else old(vm.card.storage[..])
    ensures o.Pass? && first == second ==> vm.card.storage[..] == old(vm.card.storage[..])
    ensures unchanged(vm, vm.card, vm.charRegs)
  {
    var a := vm.card.GetValueAt(first);
    if a.Err? {
      return Fail(a.fault);
    }
    var b := vm.card.GetValueAt(second);
    if b.Err? {
      return Fail(b.fault);
    }
    o := vm.card.SetValueAt(first, a.value & b.value);
  }

  /** An AND whose destination is locked fails and leaves the destination cell as it was. */
  method AndOnLockedCell(vm: NVirtualMachineStorage, first: Int64, second: Int64) returns (o: Outcome)
    requires vm.Valid()
    requires 0 <= first < vm.card.size && 0 <= second < vm.card.size
    modifies vm.card`locked, vm.card.storage
    ensures o == Fail(LockedAddress)
    ensures vm.card.storage[first] == old(vm.card.storage[first])
  {
    var l := vm.card.LockCell(first);
    o := ByteAnd(vm, first, second);
  }
}
