/** The file-scope state of axireg's front end: the integer widths it uses,
    the UNSET sentinel, the output-mode bits, and the four globals that
    command-line parsing fills in. */
module AxiRegState {

  /** C's uint64_t and uint32_t, as ranges of the unbounded integers. */
  type U64 = x: int | 0 <= x < 0x1_0000_0000_0000_0000
  type U32 = x: int | 0 <= x < 0x1_0000_0000

  datatype Option<+T> = None | Some(value: T)

  /** The address value that means "no address was given". */
  const UNSET: U64 := 0xFFFF_FFFF_FFFF_FFFF

  /** The output-mode bits. `output_mode` is a C int that is only ever
      OR-ed with these, so it is modelled as a 32-bit vector. */
  const OM_NONE: bv32 := 0
  const OM_DEC: bv32 := 1
  const OM_HEX: bv32 := 2
  const OM_BOTH: bv32 := 3

  /** The baud rate the front end asks the serial link for. */
  const BAUD_RATE: nat := 115200

  /** The assignment of an unsigned long to a uint32_t: keeps the low 32 bits. */
  function Truncate32(x: U64): (r: U32)
    ensures x < 0x1_0000_0000 ==> r == x
    ensures (x - r) % 0x1_0000_0000 == 0
  {
    x % 0x1_0000_0000
  }

  /** A snapshot of the globals `output_mode`, `address`, `data` and `isAxiWrite`. */
  datatype Globals = Globals(outputMode: bv32, address: U64, data: U32, isAxiWrite: bool)

  /** The globals as the program starts: the explicit initialisers, and
      zero for the two globals that have none (static storage). */
  const Initial: Globals := Globals(OM_NONE, UNSET, 0, false)
}
