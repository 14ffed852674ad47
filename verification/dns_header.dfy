/** The header of a DNS message (RFC 1035, section 4.1.1), as far as the resolver reads it. */
module DnsHeader {
  import opened RustInt
  import opened Text
  import opened Wire

  datatype MessageType = Query | Reply
  datatype OpCode = Standard | Inverse | Status | Other

  datatype QueryHeader = QueryHeader(
    transactionId: u16, messageType: MessageType, recursionDesired: bool, opcode: OpCode, numQuestions: u16)

  const LENGTH := 12

  /** `None` is the error `TooShort`. The masks of the third byte pick its top bit, the four bits
      below it, and its lowest bit. */
  function FromBytes(bytes: Bytes): Option<QueryHeader> {
    if |bytes| < 12 then None
    else
      var messageType := if bytes[2] / 128 == 0 then Query else Reply;
      var opcode := match bytes[2] / 8 % 16 case 0 => Standard case 1 => Inverse case 2 => Status case _ => Other;
      Some(QueryHeader(U16At(bytes, 0), messageType, bytes[2] % 2 == 1, opcode, U16At(bytes, 4)))
  }
}
