/** Fixed-width integers and the fixed-size byte arrays of the BLE stack. */
module Bytes {
  /** uint8_t */
  type uint8 = x: int | 0 <= x < 0x100

  /** uint16_t */
  type uint16 = x: int | 0 <= x < 0x1_0000

  /** esp_bd_addr_t: a 6-byte device address. */
  type Address = s: seq<uint8> | |s| == 6 witness [0, 0, 0, 0, 0, 0]

  /** esp_bt_octet16_t: a 16-byte key such as an Identity Resolving Key. */
  type Irk = s: seq<uint8> | |s| == 16 witness [0, 0, 0, 0, 0, 0, 0, 0, 0, 0, 0, 0, 0, 0, 0, 0]

  /** The C++ conversion `(uint16_t)n` of a non-negative int: keeps the low 16 bits. */
  function ToUint16(n: nat): (r: uint16)
    ensures n < 0x1_0000 ==> r == n
    ensures (n - r) % 0x1_0000 == 0
  {
    n % 0x1_0000
  }
}
