# RESP codec and command interpreter

A Dafny model of the protocol layer of a small Redis-compatible server
written in Rust (`src/resp.rs`). The layer has three parts:

- **The decoder** (`decode_value`) reads one RESP frame from a buffered byte
  stream. It reads a type tag byte, then a `+` simple string or `-` error
  line, a `:` integer, a `$` bulk string, or a `*` array of nested frames.
- **The interpreter** (`interpret_redis_command`, `process_redis_array`)
  turns a decoded value into a command: `PING`, `ECHO <text>`, or `UNKNOWN`
  for an error frame from the peer.
- **The encoder** (`RedisCommand::encode`) writes the reply to a command.

The modules follow that structure:

| file | module | what it holds |
|---|---|---|
| `wrappers.dfy` | `Wrappers` | `Option` and `Result` |
| `ascii.dfy` | `Ascii` | bytes, the protocol's ASCII characters, `i64`/`usize`, decimal rendering and parsing, ASCII case folding |
| `utf8.dfy` | `Utf8` | UTF-8 well-formedness, `String::from_utf8_lossy`, `str::trim_end` |
| `reader.dfy` | `Reader` | the `BufRead` stream: a class with a position, `read_exact` and `read_until(b'\n')` |
| `resp.dfy` | `Resp` | `RespValue`, `RedisCommand` and `encode`; the canonical frame of a value |
| `decoder.dfy` | `Decoder` | `decode_value`: a pure specification `Decode` and the imperative decoder proved to compute it |
| `framing.dfy` | `Framing` | what the decoder accepts: exact framing, the round trip, the error cases |
| `interpreter.dfy` | `Interpreter` | `interpret_redis_command` and `process_redis_array` |
| `commands.dfy` | `Commands` | replies and requests end to end, with the protocol's literal exchanges |

How the model represents the source:

- **The stream.** It is a `BufferedReader` object whose position advances
  as it reads. `DecodeValue` and the methods for each branch of
  `decode_value` change that position step by step, like the Rust code.
  Their contracts tie the result and the new position to the pure function
  `Decode(data, pos)`. Properties of the decoder are then lemmas about
  `Decode`.
- **Text.** It is kept as bytes. The payload of `Echo`, a Rust `String`,
  has the type `Utf8String` of well-formed UTF-8 bytes. The text of
  `SimpleString` and `Error` is plain bytes. That it is well-formed UTF-8
  is carried by `WellFormed` (through `LineText`), which every decoded value
  satisfies (`DecodedIsWellFormed`).
- **Errors.** Each error path of the source is a variant of `DecodeError` or
  `InterpretError`. Three of them are panics in the source, not `Err`
  results:
  - `HeaderTooShort`: a numeric header line shorter than two bytes, where
    `len() - 2` underflows.
  - `DumpPanic`: a `.expect` on the dump of an unknown tag's line, when that
    line is not UTF-8.
  - `EmptyArray`: `array[0]` on an empty array.

  Either way the request produces no command.

Behaviour of the code that shapes the lemmas:

- **Replies are not requests.** `encode` writes replies, not requests.
  `+PONG` and the `ECHO` reply decode to a simple string and a bulk string,
  which `interpret_redis_command` rejects as `NotACommand`. Only the
  `UNKNOWN` reply interprets back to its command (`UnknownReplyIsUnknown`).
  - Every reply decodes to the value it is the frame of (`ReplyDecodes`).
  - The client's request for each command decodes and interprets back to
    that command (`RequestRoundTrip`).
- **Trimming.** `+` and `-` lines are trimmed of *all* trailing Unicode
  white space (`trim_end`), not just of the CR LF terminator.
- **Error names.** `InterpretError` has one variant per `anyhow!` message in
  `process_redis_array`, plus `EmptyArray` for the `array[0]` panic on an
  empty array and `NotACommand` for the catch-all of
  `interpret_redis_command`.

## Model

| member | source | states |
|---|---|---|
| Ascii.Decimal | src/resp.rs:26-27 | The length header of an `ECHO` reply is the shortest decimal form of the byte length: all digits, worth exactly `n`, with a leading `0` only for zero, which is the single digit `0`. |
| Ascii.ParseI64 | src/resp.rs:56-57 | `parse::<i64>` accepts only a non-empty header. A negative result comes from a header that starts with `-`. |
| Ascii.ParseUsize | src/resp.rs:64-65 | `parse::<usize>` yields at most `USIZE_MAX` and rejects every header that starts with `-`. |
| Ascii.ParseUsizeDecimal | src/resp.rs:64-65 | The decimal form of any `usize` parses back to it. |
| Ascii.ParseI64SignedDecimal | src/resp.rs:56-57 | The decimal form of any `i64`, negative ones included, parses back to it. |
| Ascii.ToLower | src/resp.rs:117 | Lower-casing never yields an upper-case letter, keeps letters letters, and leaves every byte that is not an upper-case letter alone. |
| Ascii.ToLowerMatches | src/resp.rs:117 | Two bytes fold to the same byte exactly when they are equal or are the two cases of one ASCII letter. |
| Utf8.NextChunk | src/resp.rs:116 | The chunking of `from_utf8_lossy` takes 1 to 4 bytes. A valid chunk is a lead byte and continuation bytes, and it is one byte long exactly for ASCII. |
| Utf8.Lossy | src/resp.rs:128 | `from_utf8_lossy` always yields well-formed UTF-8, and yields nothing only for empty input. |
| Utf8.LossyOfValid | src/resp.rs:128 | `from_utf8_lossy` returns well-formed UTF-8 unchanged. |
| Utf8.LossyChangesInvalid | src/resp.rs:116 | `from_utf8_lossy` changes every input that is not well-formed. |
| Utf8.TrimEnd | src/resp.rs:45 | `trim_end` never lengthens its input. |
| Utf8.TrimEndSpec | src/resp.rs:45 | `trim_end` returns a prefix that does not end in white space. What it removes is white space only. It keeps well-formed text well-formed. |
| Utf8.TrimEndLine | src/resp.rs:45 | Text that does not end in white space, followed by CR LF, trims back to the text. |
| Reader.LineEnd | src/resp.rs:43 | A line read ends at the end of the data or just past an LF, never before its start. |
| Reader.LineEndNoLf | src/resp.rs:55 | Only the last byte of a line read up to LF can be an LF. |
| Reader.BufferedReader.ReadExact | src/resp.rs:38 | `read_exact` yields exactly the next `n` bytes and advances past them, or fails on an unexpected end of file. |
| Reader.BufferedReader.ReadLine | src/resp.rs:55 | `read_until(b'\n')` yields the bytes up to and including the next LF (or to the end) and advances exactly past them. |
| Resp.Encode | src/resp.rs:20-33 | Every reply ends in CR LF and starts with `+` for `PING`, `$` for `ECHO` and `-` for `UNKNOWN`. |
| Resp.EncodeValue | src/resp.rs:40-92 | The canonical frame of a value starts with the tag byte that `decode_value` dispatches on. |
| Resp.ReplyValue | src/resp.rs:20-33 | Each reply is exactly the canonical frame of a simple string, an error or a bulk string, and that value is one the decoder accepts. |
| Resp.PongFrame | src/resp.rs:23 | `+PONG\r\n` is the frame of the simple string `PONG`. |
| Resp.UnknownFrame | src/resp.rs:30 | `-ERROR_UNKNOWN_COMMAND\r\n` is the frame of the error `ERROR_UNKNOWN_COMMAND`. |
| Decoder.Header | src/resp.rs:63-64 | A header ends with its line, at least two bytes after it starts, and its only error is `HeaderTooShort`. |
| Decoder.HeaderIsLine | src/resp.rs:63-64 | A header is the line minus its last two bytes, unchecked, and it fails exactly when the line is under two bytes, where `len() - 2` underflows. |
| Decoder.Decode | src/resp.rs:36-93 | A decoded frame consumes at least its tag, stays within the data, and has the kind its tag names. An empty stream is an unexpected end of file. A byte that is no tag is a panic exactly when the line after it is not UTF-8, and `UnknownType` otherwise. |
| Decoder.DecodeLine | src/resp.rs:41-52 | A `+` line gives a simple string and a `-` line an error, ending within the data. |
| Decoder.DecodeInteger | src/resp.rs:53-60 | A `:` frame gives an integer. |
| Decoder.DecodeBulk | src/resp.rs:61-72 | A `$` frame gives a bulk string. |
| Decoder.DecodeArray | src/resp.rs:73-85 | A `*` frame gives an array. |
| Decoder.DecodeElements | src/resp.rs:79-82 | Decoding `count` elements gives exactly `count` values and advances past them. |
| Decoder.ErrorStop | src/resp.rs:53-92 | Where a failed frame leaves the reader, when the source fixes it: just past the line that an unknown tag's dump or a rejected `:`, `$` or `*` header consumed, always past the tag and within the data. |
| Decoder.ArrayErrorStop | src/resp.rs:73-84 | For a `*` frame: just past a rejected count header, or where the first failing element stopped. |
| Decoder.ElementsErrorStop | src/resp.rs:79-82 | Where the first of `count` elements to fail stopped, past the elements' start. |
| Decoder.ReadHeader | src/resp.rs:55-56 | Reading a header returns the line without its last two bytes and leaves the reader at the line's end, or reports `HeaderTooShort`. |
| Decoder.DecodeValue | src/resp.rs:36-93 | The imperative decoder returns the value `Decode` describes and leaves the reader just past the frame, or returns `Decode`'s error. After an unknown tag, or a `:`, `$` or `*` header line that is too short or not a number, the reader is just past that line. After any error whose position the source fixes, including one inside an array element, the reader is where `ErrorStop` says. |
| Decoder.ReadLineFrame | src/resp.rs:41-52 | The `+`/`-` branch computes `DecodeLine`. |
| Decoder.ReadInteger | src/resp.rs:53-60 | The `:` branch computes `DecodeInteger`. When the header is rejected, the reader is just past the header line. |
| Decoder.ReadBulk | src/resp.rs:61-72 | The `$` branch computes `DecodeBulk`, skipping two unchecked bytes after the payload. When the header is rejected, the reader is just past the header line. |
| Decoder.ReadArray | src/resp.rs:73-85 | The `*` branch computes `DecodeArray`. When the header is rejected, the reader is just past the header line. After a failing element, it is where that element stopped (`ArrayErrorStop`). |
| Decoder.ReadElements | src/resp.rs:79-82 | The `for` loop pushes exactly the elements `DecodeElements` decodes, in stream order, and stops at the first error, leaving the reader where that element stopped (`ElementsErrorStop`). |
| Framing.HeaderAt | src/resp.rs:55-56 | A header line `h` followed by CR LF is read as `h`. |
| Framing.TrimSlice | src/resp.rs:45 | A line of line text and CR LF is well-formed and trims back to the text. |
| Framing.LineFrame | src/resp.rs:41-52 | `+`/`-` followed by line text and CR LF decodes to that text and ends just past the LF. |
| Framing.IntegerFrame | src/resp.rs:53-60 | `:` followed by the decimal form of an `i64` and CR LF decodes to that integer. |
| Framing.BulkFrameExact | src/resp.rs:61-72 | Bulk-string exactness: `$`, the length of `b`, CR LF and `b` decode to exactly `b`, even when `b` contains CR, LF or invalid UTF-8. The two bytes after `b` are skipped unchecked. |
| Framing.BulkFrame | src/resp.rs:61-72 | The canonical frame of a bulk string decodes to it. |
| Framing.ArrayFrame | src/resp.rs:73-85 | The frame of an array decodes to that array. |
| Framing.FramesDecode | src/resp.rs:80-82 | The frames of values placed back to back decode to those values, in order. |
| Framing.FrameDecodes | src/resp.rs:36-93 | The canonical frame of a well-formed value decodes to it and ends where the frame ends (induction on the value). |
| Framing.DecodeEncoded | src/resp.rs:36-93 | Round trip: the frame of a well-formed value decodes to that value, whatever follows it in the stream. |
| Framing.NegativeLengthRejected | src/resp.rs:64-65 | A `$` or `*` header that starts with `-` is always an error: null bulk strings and arrays are not supported. |
| Framing.NumericHeaderErrors | src/resp.rs:56-57 | A header line under two bytes is `HeaderTooShort`. Otherwise a header that is not an `i64` (for `:`) is `BadInteger`, and one that is not a `usize` (for `$` and `*`) is `BadLength`. |
| Framing.ElementErrorAborts | src/resp.rs:80-82 | No partial array: when the first `k` elements decode and the next fails, the whole array fails with that element's error, and the reader stops where that element stopped. |
| Framing.TrimmedLineIsText | src/resp.rs:45 | A well-formed line whose only LF is its last byte trims to line text. |
| Framing.DecodedLineIsText | src/resp.rs:41-52 | The text of every decoded `+`/`-` frame is line text. |
| Framing.DecodedIsWellFormed | src/resp.rs:36-93 | Every value the decoder produces is well-formed, so `DecodeEncoded` covers all of them. |
| Framing.DecodedElementsAreWellFormed | src/resp.rs:79-82 | Every element the decoder produces for an array is well-formed. |
| Framing.Redecode | src/resp.rs:36-93 | Re-encoding whatever the decoder read gives a frame that decodes back to the same value. |
| Interpreter.PingIsNotEcho | src/resp.rs:117-121 | No name matches both `ping` and `echo`. |
| Interpreter.Interpret | src/resp.rs:95-112 | An array is dispatched. An error frame yields `Unknown`, and only an error frame does. Any other value is `NotACommand`. |
| Interpreter.ProcessArray | src/resp.rs:114-140 | `Ping` exactly when the first element is a bulk string naming `ping` in any case. `Echo` exactly when it names `echo` and has one bulk-string argument, whose text is the argument read as lossy UTF-8. Otherwise the error for the first check that fails: empty array, name not a bulk string, unknown name, or echo arity or argument type. Never `Unknown`. |
| Commands.ReplyDecodes | src/resp.rs:20-33 | Every reply frame decodes to the value it is the frame of. |
| Commands.EchoReplyDecodes | src/resp.rs:25-28 | The `ECHO` reply decodes to a bulk string of exactly the payload's bytes. |
| Commands.UnknownReplyIsUnknown | src/resp.rs:105-107 | The `UNKNOWN` reply decodes to an error frame, which interprets to `Unknown` again. |
| Commands.RequestNames | src/resp.rs:117-121 | The upper-case names `PING` and `ECHO` match their commands. |
| Commands.InterpretRequest | src/resp.rs:95-140 | The request for each command interprets to that command. |
| Commands.RequestRoundTrip | src/resp.rs:36-140 | The frame of the request for a command decodes to that request and interprets to that command. |
| Commands.DispatchIgnoresCase | src/resp.rs:116-117 | Two names that differ only in ASCII case dispatch identically, whatever arguments follow. |
| Commands.EchoArity | src/resp.rs:121-133 | `echo` succeeds exactly with one bulk-string argument. With none it is `EchoWithoutArgument`, and with more than one `EchoWithTooManyArguments`. |
| Commands.PingExchange | src/resp.rs:118-119 | `*1\r\n$4\r\nPING\r\n` decodes to the request for `PING`, which interprets to `Ping`, whose reply is `+PONG\r\n`. |
| Commands.EchoExchange | src/resp.rs:121-129 | `*2\r\n$4\r\nECHO\r\n$3\r\nhey\r\n` decodes and interprets to `Echo("hey")`, whose reply is `$3\r\nhey\r\n`. |
| Commands.EchoWithoutArgumentExchange | src/resp.rs:122-123 | `*1\r\n$4\r\nECHO\r\n` decodes, and interpreting it fails with `EchoWithoutArgument`. |
| Commands.UnknownCommandExchange | src/resp.rs:135 | `*2\r\n$7\r\nUNKNOWN\r\n$1\r\nx\r\n` decodes, and interpreting it fails with `UnknownCommand`. |
| Commands.ErrorFrameExchange | src/resp.rs:105-107 | `-some error\r\n` decodes to an error frame, which interprets to `Unknown`, whose reply is `-ERROR_UNKNOWN_COMMAND\r\n`. |

## Left out

- **The server loop** in `src/main.rs` is not part of this model: the TCP
  listener, one thread per connection, the fixed 1024-byte read buffer, and
  writing the reply. So is what the loop does with an error, which is to
  send no reply.
- **Diagnostics** are not modelled:
  - the `eprintln!` of an error frame;
  - the text of the `anyhow!` messages, which are distinct error variants
    here;
  - the dump of an unknown tag's line, whose only modelled effect is the
    panic when it is not UTF-8.
- **I/O errors** other than running out of bytes and `read_line`'s UTF-8
  check are not modelled, because the stream is an in-memory buffer.
- Reader.BufferedReader.ReadExact: when too few bytes remain, it consumes
  all of them. Rust leaves unspecified how much a failed `read_exact`
  consumes.
- Decoder.DecodeValue: the reader's position after an error is stated, by
  `ErrorStop`, for an unknown tag and for a `:`, `$` or `*` header line that
  is rejected, at any depth of nesting. In these cases `read_line` or
  `read_until` has already consumed the line. It is not stated for the two
  errors whose position Rust's standard library leaves open:
  - `UnexpectedEof` from a failed `read_exact`;
  - `InvalidUtf8` from `read_line`.
- Interpreter.ProcessArray: the command name is compared after ASCII case
  folding of its raw bytes, not after `from_utf8_lossy` and Unicode
  `to_lowercase`. For matching `ping` and `echo` the two agree:
  - bytes that are not UTF-8 become U+FFFD, which matches neither;
  - the only non-ASCII characters that lower-case to ASCII letters are
    U+212A (to `k`) and U+0130 (to `i` plus a combining dot), and neither
    can produce `ping` or `echo`.
- **Allocation** is not modelled: `vec![0; length]` and
  `Vec::with_capacity` can abort for huge lengths before anything is read.
  Here a huge bulk length is an unexpected end of file, and a huge array
  count fails when the elements run out.
- **Recursion depth** is not modelled: deeply nested arrays can overflow
  the Rust stack, but the model has unbounded recursion.
- **Integer widths:** `usize` is taken to be 64 bits wide.
- **Parse errors:** the model does not distinguish the kinds of
  `ParseIntError` (empty, invalid digit, overflow). All of them are
  `BadInteger` or `BadLength`.
