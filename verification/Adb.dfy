/** The ADB message and the command words it carries. */
module Adb {
  import opened Bytes

  const A_OPEN: u32 := 0x4E45_504F
  const A_WRTE: u32 := 0x4554_5257
  const A_OKAY: u32 := 0x5941_4B4F
  const A_CLSE: u32 := 0x4553_4C43
  const MAX_PAYLOAD: nat := 1048576
  const ADB_HEADER_SIZE: nat := 24
  const USB_READ_BUF: nat := 16384

  /** Commands are spelled in ASCII on the wire. */
  lemma NamesOfCommands()
    ensures Le32(A_OPEN) == Ascii("OPEN")
    ensures Le32(A_WRTE) == Ascii("WRTE") && Le32(A_OKAY) == Ascii("OKAY") && Le32(A_CLSE) == Ascii("CLSE")
  {
  }

  datatype Message = Message(command: u32, arg0: u32, arg1: u32, data: seq<byte>)
}
