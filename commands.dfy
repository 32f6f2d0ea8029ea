/** The command layer end to end: what each reply decodes back to, the
    request frames that interpret to each command, the case-insensitive
    dispatch, the arity of `echo`, and the request/reply exchanges of the
    protocol with their literal bytes. */
module Commands {
  import opened Wrappers
  import opened Ascii
  import opened Utf8
  import opened Resp
  import opened Decoder
  import opened Interpreter
  import opened Framing

  /** Every reply frame decodes, whatever follows it, to the value it is
      the frame of: `+PONG`, the bulk string of the `Echo` payload, or the
      error `ERROR_UNKNOWN_COMMAND`. */
  lemma {:induction false} ReplyDecodes(cmd: Command, data: seq<byte>, pos: nat)
    requires cmd.Echo? ==> |cmd.text| <= USIZE_MAX
    requires HasAt(data, pos, Encode(cmd))
    ensures Decode(data, pos) == Success(Decoded(ReplyValue(cmd), pos + |Encode(cmd)|))
  {
    var v := ReplyValue(cmd);
    DecodeEncoded(v, data, pos);
  }

  /** The reply to `ECHO` is the bulk-string frame of its payload: it
      decodes to exactly the payload's bytes. */
  lemma EchoReplyDecodes(text: Utf8String, data: seq<byte>, pos: nat)
    requires |text| <= USIZE_MAX
    requires HasAt(data, pos, Encode(Echo(text)))
    ensures Decode(data, pos) == Success(Decoded(BulkString(text), pos + |Encode(Echo(text))|))
  {
    ReplyDecodes(Echo(text), data, pos);
  }

  /** The reply to an unknown command is itself an error frame, which the
      interpreter downgrades to `Unknown` again. */
  lemma UnknownReplyIsUnknown(data: seq<byte>, pos: nat)
    requires HasAt(data, pos, Encode(Unknown))
    ensures Decode(data, pos).Success?
    ensures Interpret(Decode(data, pos).value.value) == Success(Unknown)
  {
    ReplyDecodes(Unknown, data, pos);
  }

  const PING_REQUEST_NAME: seq<byte> := Bytes("PING")
  const ECHO_REQUEST_NAME: seq<byte> := Bytes("ECHO")

  /** A request a client sends for each command: an array naming `PING`,
      an array naming `ECHO` with the payload as a bulk string, and for
      `Unknown` an error frame. */
  function Request(cmd: Command): (v: RespValue)
    ensures v.Array? <==> !cmd.Unknown?
    ensures v.Error? <==> cmd.Unknown?
  {
    match cmd
    case Ping => Array([BulkString(PING_REQUEST_NAME)])
    case Echo(text) => Array([BulkString(ECHO_REQUEST_NAME), BulkString(text)])
    case Unknown => Error(ERROR_UNKNOWN_COMMAND)
  }

  /** Upper-case `PING` and `ECHO` are the names of their commands. */
  lemma RequestNames()
    ensures EqualsIgnoreCase(PING_REQUEST_NAME, PING_NAME)
    ensures EqualsIgnoreCase(ECHO_REQUEST_NAME, ECHO_NAME)
  {
    assert ToLower(PING_REQUEST_NAME[0]) == PING_NAME[0];
    assert ToLower(ECHO_REQUEST_NAME[0]) == ECHO_NAME[0];
  }

  /** The request for a command interprets to that command: the payload of
      `Echo` is well-formed UTF-8, so lossy decoding gives it back. */
  lemma InterpretRequest(cmd: Command)
    ensures Interpret(Request(cmd)) == Success(cmd)
  {
    RequestNames();
    match cmd
    case Ping =>
    case Echo(text) => LossyOfValid(text);
    case Unknown =>
  }

  /** Every request is a value the decoder can give back. */
  lemma RequestWellFormed(cmd: Command)
    requires cmd.Echo? ==> |cmd.text| <= USIZE_MAX
    ensures WellFormed(Request(cmd))
  {
    var v := Request(cmd);
    match cmd {
      case Ping =>
        assert WellFormed(v.elements[0]);
      case Echo(text) =>
        assert WellFormed(v.elements[0]);
        assert WellFormed(v.elements[1]);
      case Unknown =>
        UnknownFrame();
    }
  }

  /** The request round trip: the frame of the request for a command
      decodes, whatever follows it, to that request, and interprets to that
      command. */
  lemma RequestRoundTrip(cmd: Command, data: seq<byte>, pos: nat)
    requires cmd.Echo? ==> |cmd.text| <= USIZE_MAX
    requires HasAt(data, pos, EncodeValue(Request(cmd)))
    ensures Decode(data, pos) == Success(Decoded(Request(cmd), pos + |EncodeValue(Request(cmd))|))
    ensures Interpret(Decode(data, pos).value.value) == Success(cmd)
  {
    var v := Request(cmd);
    RequestWellFormed(cmd);
    FrameDecodes(v, data, pos, pos + |EncodeValue(v)|);
    InterpretRequest(cmd);
  }

  /** Case insensitivity: two names that differ only in ASCII case dispatch
      identically, whatever arguments follow them. */
  lemma DispatchIgnoresCase(a: seq<byte>, b: seq<byte>, args: seq<RespValue>)
    requires SameIgnoringCase(a, b)
    ensures ProcessArray([BulkString(a)] + args) == ProcessArray([BulkString(b)] + args)
  {
    var x, y := [BulkString(a)] + args, [BulkString(b)] + args;
    assert EqualsIgnoreCase(a, PING_NAME) <==> EqualsIgnoreCase(b, PING_NAME);
    assert EqualsIgnoreCase(a, ECHO_NAME) <==> EqualsIgnoreCase(b, ECHO_NAME);
    assert x[1..] == args == y[1..];
  }

  /** The arity of `echo`: it succeeds exactly with one bulk-string
      argument; with none, or with more than one, it is an arity error. */
  lemma EchoArity(name: seq<byte>, args: seq<RespValue>)
    requires EqualsIgnoreCase(name, ECHO_NAME)
    ensures ProcessArray([BulkString(name)] + args).Success? <==> |args| == 1 && args[0].BulkString?
    ensures |args| == 0 ==> ProcessArray([BulkString(name)] + args) == Failure(EchoWithoutArgument)
    ensures |args| > 1 ==> ProcessArray([BulkString(name)] + args) == Failure(EchoWithTooManyArguments)
  {
    var x := [BulkString(name)] + args;
    assert |x| == |args| + 1 && x[0] == BulkString(name);
    assert |args| > 0 ==> x[1] == args[0];
    PingIsNotEcho(name);
  }

  /** A well-formed value whose frame is all of `data` decodes from it. */
  lemma DecodesWhole(v: RespValue, data: seq<byte>)
    requires WellFormed(v) && EncodeValue(v) == data
    ensures Decode(data, 0) == Success(Decoded(v, |data|))
  {
    assert HasAt(data, 0, EncodeValue(v)) by {
      assert data[0..|data|] == data;
    }
    FrameDecodes(v, data, 0, |data|);
  }

  /** The frames of two values back to back. */
  lemma EncodePair(a: RespValue, b: RespValue)
    ensures EncodeAll([a, b]) == EncodeValue(a) + EncodeValue(b)
  {
    assert [a, b][1..] == [b];
    assert EncodeAll([b]) == EncodeValue(b) + EncodeAll([]);
  }

  // The frames of the exchanges below, byte for byte.
  const PING_FRAME: seq<byte> := Bytes("*1\r\n$4\r\nPING\r\n")
  const HEY: seq<byte> := Bytes("hey")
  const ECHO_HEY_FRAME: seq<byte> := Bytes("*2\r\n$4\r\nECHO\r\n$3\r\nhey\r\n")
  const HEY_REPLY: seq<byte> := Bytes("$3\r\nhey\r\n")
  const ECHO_ALONE_FRAME: seq<byte> := Bytes("*1\r\n$4\r\nECHO\r\n")
  const UNKNOWN_NAME: seq<byte> := Bytes("UNKNOWN")
  const X: seq<byte> := Bytes("x")
  const UNKNOWN_FRAME: seq<byte> := Bytes("*2\r\n$7\r\nUNKNOWN\r\n$1\r\nx\r\n")
  const SOME_ERROR: seq<byte> := Bytes("some error")
  const ERROR_FRAME: seq<byte> := Bytes("-some error\r\n")

  // Each frame below is the wire form of the value it is paired with.

  lemma PingFrameBytes()
    ensures EncodeValue(Array([BulkString(PING_REQUEST_NAME)])) == PING_FRAME
  {
    assert EncodeAll([BulkString(PING_REQUEST_NAME)]) == EncodeValue(BulkString(PING_REQUEST_NAME)) + EncodeAll([]);
  }

  lemma EchoHeyFrameBytes()
    ensures EncodeValue(BulkString(HEY)) == HEY_REPLY
    ensures EncodeValue(Array([BulkString(ECHO_REQUEST_NAME), BulkString(HEY)])) == ECHO_HEY_FRAME
  {
    assert EncodeValue(BulkString(HEY)) == HEY_REPLY;
    EncodePair(BulkString(ECHO_REQUEST_NAME), BulkString(HEY));
  }

  lemma EchoAloneFrameBytes()
    ensures EncodeValue(Array([BulkString(ECHO_REQUEST_NAME)])) == ECHO_ALONE_FRAME
  {
    assert EncodeAll([BulkString(ECHO_REQUEST_NAME)]) == EncodeValue(BulkString(ECHO_REQUEST_NAME)) + EncodeAll([]);
  }

  lemma UnknownFrameBytes()
    ensures EncodeValue(Array([BulkString(UNKNOWN_NAME), BulkString(X)])) == UNKNOWN_FRAME
  {
    EncodePair(BulkString(UNKNOWN_NAME), BulkString(X));
  }

  lemma ErrorFrameBytes()
    ensures EncodeValue(Error(SOME_ERROR)) == ERROR_FRAME
  {
  }

  /** `some error` survives the trimming of a `-` line. */
  lemma SomeErrorIsLineText()
    ensures LineText(SOME_ERROR)
  {
    LiteralLineText("some error");
  }

  /** `*1\r\n$4\r\nPING\r\n` is the request for `PING`, and its reply is
      `+PONG\r\n`. */
  lemma PingExchange()
    ensures Decode(PING_FRAME, 0) == Success(Decoded(Array([BulkString(PING_REQUEST_NAME)]), |PING_FRAME|))
    ensures Interpret(Array([BulkString(PING_REQUEST_NAME)])) == Success(Ping)
    ensures Encode(Ping) == PONG_REPLY
  {
    var v := Request(Ping);
    assert WellFormed(v.elements[0]);
    PingFrameBytes();
    DecodesWhole(v, PING_FRAME);
    InterpretRequest(Ping);
  }

  /** `*2\r\n$4\r\nECHO\r\n$3\r\nhey\r\n` is the request to echo `hey`,
      and its reply is `$3\r\nhey\r\n`. */
  lemma EchoExchange()
    ensures ValidUtf8(HEY)
    ensures Decode(ECHO_HEY_FRAME, 0) ==
              Success(Decoded(Array([BulkString(ECHO_REQUEST_NAME), BulkString(HEY)]), |ECHO_HEY_FRAME|))
    ensures Interpret(Array([BulkString(ECHO_REQUEST_NAME), BulkString(HEY)])) == Success(Echo(HEY))
    ensures Encode(Echo(HEY)) == HEY_REPLY
  {
    AsciiValid(HEY);
    var v := Request(Echo(HEY));
    assert WellFormed(v.elements[0]) && WellFormed(v.elements[1]);
    EchoHeyFrameBytes();
    DecodesWhole(v, ECHO_HEY_FRAME);
    InterpretRequest(Echo(HEY));
  }

  /** `*1\r\n$4\r\nECHO\r\n` decodes, but `ECHO` without its argument is
      an arity error: no command, so no reply. */
  lemma EchoWithoutArgumentExchange()
    ensures Decode(ECHO_ALONE_FRAME, 0) ==
              Success(Decoded(Array([BulkString(ECHO_REQUEST_NAME)]), |ECHO_ALONE_FRAME|))
    ensures Interpret(Array([BulkString(ECHO_REQUEST_NAME)])) == Failure(EchoWithoutArgument)
  {
    var v := Array([BulkString(ECHO_REQUEST_NAME)]);
    assert WellFormed(v.elements[0]);
    EchoAloneFrameBytes();
    DecodesWhole(v, ECHO_ALONE_FRAME);
    RequestNames();
  }

  /** `*2\r\n$7\r\nUNKNOWN\r\n$1\r\nx\r\n` decodes, but names no
      command the server knows: an error, so no reply. */
  lemma UnknownCommandExchange()
    ensures Decode(UNKNOWN_FRAME, 0) ==
              Success(Decoded(Array([BulkString(UNKNOWN_NAME), BulkString(X)]), |UNKNOWN_FRAME|))
    ensures Interpret(Array([BulkString(UNKNOWN_NAME), BulkString(X)])) == Failure(UnknownCommand)
  {
    var v := Array([BulkString(UNKNOWN_NAME), BulkString(X)]);
    assert WellFormed(v.elements[0]) && WellFormed(v.elements[1]);
    UnknownFrameBytes();
    DecodesWhole(v, UNKNOWN_FRAME);
  }

  /** `-some error\r\n` from the peer is an error frame: it is downgraded
      to `Unknown`, whose reply is the error `ERROR_UNKNOWN_COMMAND`. */
  lemma ErrorFrameExchange()
    ensures Decode(ERROR_FRAME, 0) == Success(Decoded(Error(SOME_ERROR), |ERROR_FRAME|))
    ensures Interpret(Error(SOME_ERROR)) == Success(Unknown)
    ensures Encode(Unknown) == UNKNOWN_REPLY
  {
    ErrorFrameBytes();
    SomeErrorIsLineText();
    assert WellFormed(Error(SOME_ERROR));
    DecodesWhole(Error(SOME_ERROR), ERROR_FRAME);
  }
}
