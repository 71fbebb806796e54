/**
  The opcodes of requests and responses. Models the tables of
  scylla-cql/src/frame/request/mod.rs and scylla-cql/src/frame/response/mod.rs.
 */
module Opcodes {
  import opened Wire

  datatype RequestOpcode = Startup | Options | Query | Prepare | Execute | Register | Batch | AuthResponse

  datatype ResponseOpcode =
    | Error | Ready | Authenticate | Supported | Result | Event | AuthChallenge | AuthSuccess

  datatype FrameOpcode = Request(request: RequestOpcode) | Response(response: ResponseOpcode)

  function OpcodeByte(op: FrameOpcode): (b: byte) {
    match op
    case Request(r) =>
      (match r
       case Startup => 0x01
       case Options => 0x05
       case Query => 0x07
       case Prepare => 0x09
       case Execute => 0x0a
       case Register => 0x0b
       case Batch => 0x0d
       case AuthResponse => 0x0f)
    case Response(r) =>
      match r
      case Error => 0x00
      case Ready => 0x02
      case Authenticate => 0x03
      case Supported => 0x06
      case Result => 0x08
      case Event => 0x0c
      case AuthChallenge => 0x0e
      case AuthSuccess => 0x10
  }

  function RequestOpcodeOf(b: byte): (op: Option<FrameOpcode>)
    ensures op.Some? ==> op.value.Request? && OpcodeByte(op.value) == b
  {
    match b
    case 0x01 => Some(Request(Startup))
    case 0x05 => Some(Request(Options))
    case 0x07 => Some(Request(Query))
    case 0x09 => Some(Request(Prepare))
    case 0x0a => Some(Request(Execute))
    case 0x0b => Some(Request(Register))
    case 0x0d => Some(Request(Batch))
    case 0x0f => Some(Request(AuthResponse))
    case _ => None
  }

  function ResponseOpcodeOf(b: byte): (op: Option<FrameOpcode>)
    ensures op.Some? ==> op.value.Response? && OpcodeByte(op.value) == b
  {
    match b
    case 0x00 => Some(Response(Error))
    case 0x02 => Some(Response(Ready))
    case 0x03 => Some(Response(Authenticate))
    case 0x06 => Some(Response(Supported))
    case 0x08 => Some(Response(ResponseOpcode.Result))
    case 0x0c => Some(Response(Event))
    case 0x0e => Some(Response(AuthChallenge))
    case 0x10 => Some(Response(AuthSuccess))
    case _ => None
  }

  /** Each opcode is read back, and in no other direction. */
  lemma OpcodeRoundTrip(op: FrameOpcode)
    ensures RequestOpcodeOf(OpcodeByte(op)) == (if op.Request? then Some(op) else None)
    ensures ResponseOpcodeOf(OpcodeByte(op)) == (if op.Response? then Some(op) else None)
  {
  }
}
