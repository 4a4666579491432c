/** Shared vocabulary of the Nervi kernel: machine value types, the register
    numbering and the error kinds the storage classes throw. */
module Kernel {

  /** A memory cell or byte register (a C `char`, 8 bits). */
  type Byte = bv8

  /** A C `long long`: cell indexes, memory sizes, return addresses, IP. */
  type Int64 = x: int | -0x8000_0000_0000_0000 <= x <= 0x7FFF_FFFF_FFFF_FFFF

  /** Register number of the instruction pointer. */
  const IP: nat := 26
  /** Register number of the last-interrupt register; also the highest valid name. */
  const LASTINTR: nat := 27
  /** Slots of the byte register array: every name up to LASTINTR indexes it. */
  const REGISTER_SLOTS: nat := LASTINTR + 1

  /** The exception kinds of the kernel; their message strings are not modelled. */
  datatype Fault =
    | InvalidIndex      // InvalidIndexException
    | LockedAddress     // LockedAddressException (LockedAdressException in the older class)
    | InvalidRegister   // InvalidRegisterException
    | IPMisuse          // InstructionPointerInterruptionPushException

  /** Outcome of an operation that returns nothing: it completes or throws. */
  datatype Outcome = Pass | Fail(fault: Fault)

  /** Outcome of an operation that returns a value or throws. */
  datatype Result<T> = Ok(value: T) | Err(fault: Fault)
}
