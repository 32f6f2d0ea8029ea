/** `interpret_redis_command` and `process_redis_array`: how a decoded value
    becomes a command. Dispatch is on the first element of an array, a bulk
    string compared with the command names without regard to ASCII case. */
module Interpreter {
  import opened Wrappers
  import opened Ascii
  import opened Utf8
  import opened Resp

  /** Why a value is not a command. `EmptyArray` is a panic in the source
      (`array[0]` on an empty array) rather than an `Err`; it ends the
      request all the same. */
  datatype InterpretError =
    | NotACommand          // a top-level simple string, integer or bulk string
    | EmptyArray           // an array with no elements: indexing panics
    | NameNotBulkString    // the first element is not a bulk string
    | UnknownCommand       // a name other than `ping` and `echo`
    | EchoWithoutArgument  // `echo` alone
    | EchoWithTooManyArguments // `echo` with two or more arguments
    | ArgumentNotBulkString    // the argument of `echo` is not a bulk string

  const PING_NAME: seq<byte> := Bytes("ping")
  const ECHO_NAME: seq<byte> := Bytes("echo")

  /** The first element of `elements` is a bulk string that names `word` in
      any mix of ASCII case. */
  predicate Names(elements: seq<RespValue>, word: seq<byte>) {
    |elements| > 0 && elements[0].BulkString? && EqualsIgnoreCase(elements[0].bytes, word)
  }

  /** No name is both `ping` and `echo`, whatever its case. */
  lemma PingIsNotEcho(name: seq<byte>)
    ensures !(EqualsIgnoreCase(name, PING_NAME) && EqualsIgnoreCase(name, ECHO_NAME))
  {
    if EqualsIgnoreCase(name, PING_NAME) {
      assert ToLower(name[0]) == PING_NAME[0] != ECHO_NAME[0];
    }
  }

  /** `interpret_redis_command`: an array is dispatched, an error frame from
      the peer is downgraded to `Unknown`, and any other value is not a
      command. Only an error frame yields `Unknown`. */
  function Interpret(v: RespValue): (r: Result<Command, InterpretError>)
    ensures v.Array? ==> r == ProcessArray(v.elements)
    ensures v.SimpleString? || v.Integer? || v.BulkString? ==> r == Failure(NotACommand)
    ensures r == Success(Unknown) <==> v.Error?
  {
    match v
    case Array(elements) => ProcessArray(elements)
    case Error(_) => Success(Unknown)
    case _ => Failure(NotACommand)
  }

  /** `process_redis_array`: `ping` in any case is `Ping` whatever follows
      it; `echo` in any case is `Echo` of its one bulk-string argument, with
      that argument's bytes read as lossy UTF-8; every other array is an
      error, and which one depends on the first check that fails. */
  function ProcessArray(elements: seq<RespValue>): (r: Result<Command, InterpretError>)
    ensures r == Success(Ping) <==> Names(elements, PING_NAME)
    ensures r.Success? && r.value.Echo? <==>
              Names(elements, ECHO_NAME) && |elements| == 2 && elements[1].BulkString?
    ensures r.Success? && r.value.Echo? ==> r.value.text == Lossy(elements[1].bytes)
    ensures r != Success(Unknown)
    ensures |elements| == 0 ==> r == Failure(EmptyArray)
    ensures |elements| > 0 && !elements[0].BulkString? ==> r == Failure(NameNotBulkString)
    ensures Names(elements, ECHO_NAME) && |elements| < 2 ==> r == Failure(EchoWithoutArgument)
    ensures Names(elements, ECHO_NAME) && |elements| > 2 ==> r == Failure(EchoWithTooManyArguments)
    ensures Names(elements, ECHO_NAME) && |elements| == 2 && !elements[1].BulkString? ==> r == Failure(ArgumentNotBulkString)
    ensures |elements| > 0 && elements[0].BulkString? && !Names(elements, PING_NAME) && !Names(elements, ECHO_NAME) ==>
              r == Failure(UnknownCommand)
  {
    if |elements| == 0 then Failure(EmptyArray)
    else match elements[0]
      case BulkString(name) =>
        if EqualsIgnoreCase(name, PING_NAME) then
          PingIsNotEcho(name);
          Success(Ping)
        else if EqualsIgnoreCase(name, ECHO_NAME) then
          if |elements| < 2 then Failure(EchoWithoutArgument)
          else if |elements| > 2 then Failure(EchoWithTooManyArguments)
          else match elements[1]
            case BulkString(payload) => Success(Echo(Lossy(payload)))
            case _ => Failure(ArgumentNotBulkString)
        else Failure(UnknownCommand)
      case _ => Failure(NameNotBulkString)
  }
}
