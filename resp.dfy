/** The values of the protocol (`RespValue`), the commands of the server
    (`RedisCommand`), and how a command's reply is written on the wire
    (`RedisCommand::encode`). */
module Resp {
  import opened Ascii
  import opened Utf8

  /** One decoded frame. Text is kept as bytes. */
  datatype RespValue =
    | SimpleString(text: seq<byte>)
    | Error(message: seq<byte>)
    | Integer(n: i64)
    | BulkString(bytes: seq<byte>)
    | Array(elements: seq<RespValue>)

  /** The type tag that starts the frame of each kind of value. */
  function TagOf(v: RespValue): byte {
    match v
    case SimpleString(_) => PLUS
    case Error(_) => MINUS
    case Integer(_) => COLON
    case BulkString(_) => DOLLAR
    case Array(_) => STAR
  }

  predicate IsTag(b: byte) {
    b == PLUS || b == MINUS || b == COLON || b == DOLLAR || b == STAR
  }

  /** A command the server understands. The payload of `Echo` is a Rust
      `String`, so it is well-formed UTF-8. */
  datatype Command = Ping | Echo(text: Utf8String) | Unknown

  const PONG: seq<byte> := Bytes("PONG")
  const ERROR_UNKNOWN_COMMAND: seq<byte> := Bytes("ERROR_UNKNOWN_COMMAND")
  /** `+PONG\r\n` */
  const PONG_REPLY: seq<byte> := [PLUS] + PONG + CRLF
  /** `-ERROR_UNKNOWN_COMMAND\r\n` */
  const UNKNOWN_REPLY: seq<byte> := [MINUS] + ERROR_UNKNOWN_COMMAND + CRLF

  /** `RedisCommand::encode`: the reply to send for a command. `Ping` and
      `Unknown` have fixed replies; `Echo` is a bulk-string frame whose
      header is the byte length of the payload. Encoding never fails. */
  function Encode(cmd: Command): (wire: seq<byte>)
    ensures |wire| >= 4 && wire[|wire| - 2..] == CRLF
    ensures wire[0] == (match cmd case Ping => PLUS case Echo(_) => DOLLAR case Unknown => MINUS)
  {
    match cmd
    case Ping => PONG_REPLY
    case Echo(text) => [DOLLAR] + Decimal(|text|) + CRLF + text + CRLF
    case Unknown => UNKNOWN_REPLY
  }

  /** The canonical frame of a value: the partner of the decoder, used to
      state what the decoder accepts. Not part of the server, which only
      encodes commands. */
  function EncodeValue(v: RespValue): (wire: seq<byte>)
    ensures |wire| > 0 && wire[0] == TagOf(v)
    decreases v
  {
    match v
    case SimpleString(text) => [PLUS] + text + CRLF
    case Error(message) => [MINUS] + message + CRLF
    case Integer(n) => [COLON] + SignedDecimal(n as int) + CRLF
    case BulkString(bytes) => [DOLLAR] + Decimal(|bytes|) + CRLF + bytes + CRLF
    case Array(elements) => [STAR] + Decimal(|elements|) + CRLF + EncodeAll(elements)
  }

  /** The frames of `vs`, back to back. */
  function EncodeAll(vs: seq<RespValue>): seq<byte>
    decreases vs
  {
    if vs == [] then [] else EncodeValue(vs[0]) + EncodeAll(vs[1..])
  }

  /** Text that a `+`/`-` line can carry and give back unchanged: well-formed
      UTF-8, no LF (which would end the line) and no trailing white space
      (which trimming would remove). */
  predicate LineText(t: seq<byte>) {
    ValidUtf8(t) && (forall i | 0 <= i < |t| :: t[i] != LF) && TrailingSpaceLen(t) == 0
  }

  /** The values the decoder can produce: exactly those that survive a trip
      through their canonical frame. */
  predicate WellFormed(v: RespValue)
    decreases v
  {
    match v
    case SimpleString(text) => LineText(text)
    case Error(message) => LineText(message)
    case Integer(_) => true
    case BulkString(bytes) => |bytes| <= USIZE_MAX
    case Array(elements) => |elements| <= USIZE_MAX && forall i | 0 <= i < |elements| :: WellFormed(elements[i])
  }

  /** Each reply is the canonical frame of a value: a simple string, an
      error or a bulk string (well-formed as long as an `Echo` payload is no
      longer than a `usize` can count, as every Rust `String` is). */
  function ReplyValue(cmd: Command): (v: RespValue)
    ensures EncodeValue(v) == Encode(cmd)
    ensures (cmd.Echo? ==> |cmd.text| <= USIZE_MAX) ==> WellFormed(v)
  {
    match cmd
    case Ping => PongFrame(); SimpleString(PONG)
    case Echo(text) => BulkString(text)
    case Unknown => UnknownFrame(); Error(ERROR_UNKNOWN_COMMAND)
  }

  /** An ASCII literal without LF that does not end in white space is text
      a `+`/`-` line can carry. */
  lemma LiteralLineText(s: string)
    requires forall i | 0 <= i < |s| :: s[i] < 128 as char && s[i] != '\n'
    requires |s| > 0 && s[|s| - 1] != ' ' && !('\t' <= s[|s| - 1] <= '\r')
    ensures LineText(Bytes(s))
  {
    AsciiValid(Bytes(s));
  }

  /** The fixed reply to `PING` is the simple string `PONG`. */
  lemma PongFrame()
    ensures LineText(PONG)
    ensures EncodeValue(SimpleString(PONG)) == PONG_REPLY
  {
    LiteralLineText("PONG");
  }

  /** The fixed reply to an unknown command is the error
      `ERROR_UNKNOWN_COMMAND`. */
  lemma UnknownFrame()
    ensures LineText(ERROR_UNKNOWN_COMMAND)
    ensures EncodeValue(Error(ERROR_UNKNOWN_COMMAND)) == UNKNOWN_REPLY
  {
    LiteralLineText("ERROR_UNKNOWN_COMMAND");
  }
}
