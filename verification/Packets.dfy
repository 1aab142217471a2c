/** What the two transfer engines put on the wire and report to their callers. */
module Packets {
  import opened Netascii
  import opened BlockNumber

  /** A packet of at least four bytes by opcode; everything the engines skip
      (shorter packets, other opcodes) is Other. */
  datatype Packet =
    | Data(block: u16, data: seq<byte>)
    | Ack(block: u16)
    | Oack
    | Error
    | Other

  datatype Status =
    | Ok
    | SendError
    | RecvError
    | ReadError
    | WriteError
    | BadData
    | SizeExceeded
    | PeerError

  /** Byte counts are uintmax_t. */
  const WORD: int := 0x1_0000_0000_0000_0000

  function Add64(a: int, b: int): (r: nat)
    ensures r < WORD
  {
    (a + b) % WORD
  }

  function Sub64(a: int, b: int): (r: nat)
    ensures r < WORD
  {
    (a - b) % WORD
  }

  /** The number of payload bytes in a run of blocks. */
  function Bytes(blocks: seq<seq<byte>>): nat {
    |Flatten(blocks)|
  }
}
