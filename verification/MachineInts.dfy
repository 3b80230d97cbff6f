/** Go's fixed-width unsigned integers, with their wrap-around written out. */
module MachineInts {

  type Byte = x: nat | x < 0x100
  type uint16 = x: nat | x < 0x1_0000
  type uint32 = x: nat | x < 0x1_0000_0000

  function Add16(x: uint16, y: uint16): uint16 {
    (x + y) % 0x1_0000
  }

  function Sub16(x: uint16, y: uint16): uint16 {
    (x - y) % 0x1_0000
  }

  function Mul16(x: uint16, y: uint16): uint16 {
    (x * y) % 0x1_0000
  }

  function Inc32(x: uint32): uint32 {
    (x + 1) % 0x1_0000_0000
  }

  datatype Option<+T> = None | Some(value: T)
}
