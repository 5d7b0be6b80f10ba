/** Reading and writing the parts of a 32-bit register: `getReg` and `setReg` of
    src/cpu.js. */
module SubRegisters {
  import opened Words
  import opened Alu

  function GetLow(r: U32, w: Width): U32 { Truncate(r, w) }

  function SetLow(r: U32, w: Width, v: int): U32 {
    match w
    case W8 => assert r / 0x100 <= 0xff_ffff; 0x100 * (r / 0x100) + v % 0x100
    case W16 => assert r / 0x1_0000 <= 0xffff; 0x1_0000 * (r / 0x1_0000) + v % 0x1_0000
    case W32 => Wrap(v)
  }

  /** AH, the second byte of EAX. */
  function GetHigh8(r: U32): U8 { r / 0x100 % 0x100 }

  function SetHigh8(r: U32, v: int): U32 {
    0x1_0000 * (r / 0x1_0000) + 0x100 * (v % 0x100) + r % 0x100
  }
}
