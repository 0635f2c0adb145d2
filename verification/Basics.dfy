/**
 * What several components share: optional values, bytes and the sizes of machine words.
 */
module Basics {
  datatype Option<+T> = None | Some(value: T)

  type byte = b: int | 0 <= b < 256

  type Bytes = seq<byte>

  const U16: nat := 0x1_0000
  const U32: nat := 0x1_0000_0000
  const U64: nat := 0x1_0000_0000_0000_0000

  type Word32 = n: nat | n < U32

  function Min(a: nat, b: nat): nat {
    if a <= b then a else b
  }

  function Max(a: nat, b: nat): nat {
    if a <= b then b else a
  }

  /** The big-endian form of a 16-bit word. */
  function Be16(v: nat): (bytes: Bytes)
    requires v < U16
    ensures |bytes| == 2 && 256 * (bytes[0] as nat) + bytes[1] as nat == v
  {
    [v / 256, v % 256]
  }

  /** A DNS message under another transaction ID; a single byte has no room for one. */
  function UnderId(message: Bytes, id: Bytes): (r: Bytes)
    requires |id| == 2
    ensures |r| == |message|
    ensures |message| >= 2 ==> r[0] == id[0] && r[1] == id[1] && r[2..] == message[2..]
    ensures |message| < 2 ==> r == message
  {
    if |message| < 2 then message else id + message[2..]
  }
}
