/** Outcomes, and the shapes of the protocol data units that Modbus peers exchange. */
module Replies {
  import opened Bytes

  datatype Error =
    | Io
    | TransactionMismatch
    | UnitMismatch
    | BadLength
    | BadChecksum
    | BadText
    | UnsupportedFunction
    | Exception(code: byte)
    | InvalidReply
    | TooManyRegisters
    | InvalidAddress
    | InvalidLength

  datatype Result<+T> = Ok(value: T) | Err(error: Error)

  /** The last test of every framing: a reply with the top bit of its function code set is an error. */
  function Classify(pdu: seq<byte>): Result<seq<byte>> {
    if |pdu| >= 2 && pdu[0] >= 0x80 then Err(Exception(pdu[1])) else Ok(pdu)
  }

  /** The reply shapes that section 6 of the MODBUS Application Protocol V1.1b3 gives these function codes. */
  predicate WellFormedReply(pdu: seq<byte>) {
    && |pdu| >= 2
    && (|| (pdu[0] >= 0x80 && |pdu| == 2)
        || (pdu[0] in {0x01, 0x02, 0x03, 0x04} && |pdu| == pdu[1] as int + 2)
        || (pdu[0] in {0x05, 0x06, 0x0F, 0x10} && |pdu| == 5))
  }
}
