// Machine integers of the ESP8266 port, the source's uint8, uint16 and uint32 with
// their wrap-around written out, and Option for its NULL arguments.

module Machine {

  const TWO_8 := 0x100
  const TWO_16 := 0x1_0000
  const TWO_31 := 0x8000_0000
  const TWO_32 := 0x1_0000_0000

  type byte = x: int | 0 <= x < TWO_8
  type uint16 = x: int | 0 <= x < TWO_16
  type uint32 = x: int | 0 <= x < TWO_32

  datatype Option<+T> = None | Some(value: T)
}
