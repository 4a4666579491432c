/** The storage device of the Nervi virtual machine: the memory card it extends,
    the byte registers and IP, the operand stack and the return-address stack. */
module MachineStorage {
  import opened Kernel
  import opened MemoryCard

  class NVirtualMachineStorage {
    /** The memory card this storage extends; its cell and lock operations are the card's own. */
    const card: NMemoryCard
    /** The byte registers, indexed by register name. */
    const charRegs: array<Byte>
    /** The instruction pointer. */
    var ip: Int64
    /** The operand stack; its top is the last element. */
    var stack: seq<Byte>
    /** The return-address stack; its top is the last element. */
    var retStack: seq<Int64>

    /** The storage's invariant: a valid card and one register slot per name, apart from the cells. */
    ghost predicate Valid()
      reads card
    {
      card.Valid() && charRegs.Length == REGISTER_SLOTS && charRegs != card.storage
    }

    /** Creates a zeroed card of `size` cells, zeroes the registers below LASTINTR,
        sets IP to 0 and starts with both stacks empty. */
    constructor (size: Int64)
      requires 0 <= size
      ensures Valid() && fresh(card) && fresh(card.storage) && fresh(charRegs)
      ensures card.size == size && card.locked == []
      ensures forall k :: 0 <= k < card.storage.Length ==> card.storage[k] == 0
      ensures forall r :: 0 <= r < LASTINTR ==> charRegs[r] == 0
      ensures ip == 0 && stack == [] && retStack == []
    {
      card := new NMemoryCard(size);
      charRegs := new Byte[REGISTER_SLOTS](_ => 0);
      ip := 0;
      stack := [];
      retStack := [];
    }

    /** Writes `value` to register `name`; names above LASTINTR and IP are refused. */
    method PushToRegister(name: nat, value: Byte) returns (o: Outcome)
      requires Valid()
      modifies charRegs
      ensures Valid()
      ensures o == if name > LASTINTR then Fail(InvalidRegister)
                   else if name == IP then Fail(IPMisuse)
                   else Pass
      ensures charRegs[..] == if o.Pass? then old(charRegs[..])[name := value] else old(charRegs[..])
    {
      if name > 27 {
        return Fail(InvalidRegister);
      }
      if name == IP {
        return Fail(IPMisuse);
      }
      charRegs[name] := value;
      return Pass;
    }

    /** Reads register `name`; names above LASTINTR and IP are refused. */
    method GetRegister(name: nat) returns (r: Result<Byte>)
      requires Valid()
      ensures r == if name > LASTINTR then Err(InvalidRegister)
                   else if name == IP then Err(IPMisuse)
                   else Ok(charRegs[name])
    {
      if name > 27 {
        return Err(InvalidRegister);
      }
      if name == IP {
        return Err(IPMisuse);
      }
      return Ok(charRegs[name]);
    }

    /** The instruction pointer. */
    method GetIP() returns (r: Int64)
      requires Valid()
      ensures r == ip
    {
      return ip;
    }

    /** Pushes `value` on the operand stack. */
    method PushToStack(value: Byte)
      requires Valid()
      modifies this`stack
      ensures Valid()
      ensures stack == old(stack) + [value]
    {
      stack := stack + [value];
    }

    /** Pushes `address` on the return-address stack. */
    method PushReturnAddress(address: Int64)
      requires Valid()
      modifies this`retStack
      ensures Valid()
      ensures retStack == old(retStack) + [address]
    {
      retStack := retStack + [address];
    }

    /** Pops and returns the top of the operand stack; the stack must not be empty. */
    method PopStack() returns (value: Byte)
      requires Valid()
      requires stack != []
      modifies this`stack
      ensures Valid()
      ensures value == old(stack)[|old(stack)| - 1] && stack == old(stack)[..|old(stack)| - 1]
    {
      value := stack[|stack| - 1];
      stack := stack[..|stack| - 1];
    }

    /** Pops and returns the top of the return-address stack; the stack must not be empty. */
    method PopReturn() returns (address: Int64)
      requires Valid()
      requires retStack != []
      modifies this`retStack
      ensures Valid()
      ensures address == old(retStack)[|old(retStack)| - 1] && retStack == old(retStack)[..|old(retStack)| - 1]
    {
      address := retStack[|retStack| - 1];
      retStack := retStack[..|retStack| - 1];
    }

    /** Pops the return-address stack and jumps to the popped address. */
    method ReturnJump()
      requires Valid()
      requires retStack != []
      modifies this`retStack, this`ip
      ensures Valid()
      ensures ip == old(retStack)[|old(retStack)| - 1] && retStack == old(retStack)[..|old(retStack)| - 1]
    {
      var address := PopReturn();
      Jump(address);
    }

    /** Sets the instruction pointer to `destination`. */
    method Jump(destination: Int64)
      requires Valid()
      modifies this`ip
      ensures Valid()
      ensures ip == destination
    {
      ip := destination;
    }
  }

  /** A value pushed on the operand stack is the next one popped, and the stack is back as it was. */
  method StackRoundTrip(vm: NVirtualMachineStorage, value: Byte) returns (r: Byte)
    requires vm.Valid()
    modifies vm`stack
    ensures r == value && vm.stack == old(vm.stack)
  {
    vm.PushToStack(value);
    assert (old(vm.stack) + [value])[..|old(vm.stack)|] == old(vm.stack);
    r := vm.PopStack();
  }

  /** The return-address stack works apart from the operand stack: a pushed address is the next popped. */
  method ReturnStackRoundTrip(vm: NVirtualMachineStorage, address: Int64) returns (r: Int64)
    requires vm.Valid()
    modifies vm`retStack
    ensures r == address && vm.retStack == old(vm.retStack)
  {
    vm.PushReturnAddress(address);
    assert (old(vm.retStack) + [address])[..|old(vm.retStack)|] == old(vm.retStack);
    r := vm.PopReturn();
  }

  /** A write to a byte register is read back, and no other register changes. */
  method RegisterRoundTrip(vm: NVirtualMachineStorage, name: nat, value: Byte) returns (r: Result<Byte>)
    requires vm.Valid()
    requires name <= LASTINTR && name != IP
    modifies vm.charRegs
    ensures r == Ok(value)
    ensures forall k :: 0 <= k < REGISTER_SLOTS && k != name ==> vm.charRegs[k] == old(vm.charRegs[k])
  {
    var o := vm.PushToRegister(name, value);
    r := vm.GetRegister(name);
  }

  /** Saving IP on the return stack, jumping away and returning restores IP and the return stack. */
  method CallAndReturn(vm: NVirtualMachineStorage, destination: Int64)
    requires vm.Valid()
    modifies vm`retStack, vm`ip
    ensures vm.ip == old(vm.ip) && vm.retStack == old(vm.retStack)
  {
    var here := vm.GetIP();
    vm.PushReturnAddress(here);
    vm.Jump(destination);
    assert (old(vm.retStack) + [here])[..|old(vm.retStack)|] == old(vm.retStack);
    vm.ReturnJump();
  }
}
