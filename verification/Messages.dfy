/** Values shared by the slots, the logs and the nodes. */
module Messages {

  type byte = x: int | 0 <= x < 256
  type word = x: int | 0 <= x < 0x1_0000_0000

  const MSG_NONE: byte := 0x00
  const MSG_ACK: byte := 0x01
  const MSG_PURE: byte := 0x02
  const MSG_WAIT: byte := 0x04
  const MSG_HDRONLY: byte := 0x08

  /** What a caller hands to `write_request`.  The payload is taken at the call.
      `id` numbers the proposal it stems from; it is history, no field of the program. */
  datatype Request = Request(hashv: word, payload: seq<byte>, msg: byte, id: nat)

  /** The arguments in a wiped slot. */
  const NO_REQUEST := Request(0, [], MSG_NONE, 0)
}
