/** `decode_value`: the recursive-descent decoder of one RESP frame. `Decode`
    is its meaning as a function of the buffer and a position; the method
    `DecodeValue` is the decoder itself, advancing a reader step by step,
    and is proved to compute `Decode`. */
module Decoder {
  import opened Wrappers
  import opened Ascii
  import opened Utf8
  import opened Resp
  import opened Reader

  /** Why a frame could not be decoded. The last three are panics in the
      source rather than `Err` results; they end the frame all the same. */
  datatype DecodeError =
    | UnexpectedEof          // `read_exact` ran out of bytes
    | InvalidUtf8            // `read_line` of a `+`/`-` line that is not UTF-8
    | BadInteger             // a `:` header that is not an `i64`
    | BadLength              // a `$` or `*` header that is not a `usize`
    | UnknownType(tag: byte) // a type tag outside `+ - : $ *`
    | HeaderTooShort         // a header line under two bytes: `len() - 2` underflows
    | DumpPanic(tag: byte)   // an unknown tag whose rest of line is not UTF-8: `expect` fails

  /** A decoded value and the position just past its frame. */
  datatype Decoded = Decoded(value: RespValue, end: nat)

  /** Decoded array elements and the position just past the last one. */
  datatype DecodedList = DecodedList(values: seq<RespValue>, end: nat)

  /** The header of a `:`, `$` or `*` frame starting at `from`: the line up
      to the next LF with its last two bytes dropped (they are assumed to be
      CR LF and not checked), and where the line ends. */
  function Header(data: seq<byte>, from: nat): (r: Result<(seq<byte>, nat), DecodeError>)
    requires from <= |data|
    ensures r.Success? ==> r.value.1 == LineEnd(data, from) && from + 2 <= r.value.1
    ensures r.Failure? ==> r.error == HeaderTooShort
  {
    var e := LineEnd(data, from);
    if e - from < 2 then Failure(HeaderTooShort) else Success((data[from..e - 2], e))
  }

  /** A header is the line up to the next LF minus its last two bytes, and
      it fails exactly when that line is under two bytes. */
  lemma HeaderIsLine(data: seq<byte>, from: nat)
    requires from <= |data|
    ensures Header(data, from).Failure? <==> LineEnd(data, from) - from < 2
    ensures Header(data, from).Success? ==>
              Header(data, from).value.0 == data[from..LineEnd(data, from) - 2]
  {
  }

  /** The header line of a `:` (`signed`) or `$`/`*` frame starting at
      `start` is rejected: too short, or not an `i64` (`usize`). */
  predicate HeaderRejected(data: seq<byte>, start: nat, signed: bool)
    requires start <= |data|
  {
    match Header(data, start)
    case Failure(_) => true
    case Success((h, _)) => if signed then ParseI64(h).None? else ParseUsize(h).None?
  }

  /** The frame that starts at `pos`. A result consumes at least the tag
      byte, never reads past the data, and its kind is the one the tag
      names; a byte that is no tag is an error. */
  function Decode(data: seq<byte>, pos: nat): (r: Result<Decoded, DecodeError>)
    requires pos <= |data|
    ensures r.Success? ==> pos < r.value.end <= |data| && TagOf(r.value.value) == data[pos]
    ensures pos == |data| ==> r == Failure(UnexpectedEof)
    ensures pos < |data| && !IsTag(data[pos]) ==>
              r == Failure(UnknownType(data[pos])) || r == Failure(DumpPanic(data[pos]))
    ensures pos < |data| && !IsTag(data[pos]) ==>
              (r == Failure(DumpPanic(data[pos])) <==> !ValidUtf8(data[pos + 1..LineEnd(data, pos + 1)]))
    decreases |data| - pos, 1
  {
    if pos == |data| then Failure(UnexpectedEof)
    else
      var tag := data[pos];
      if tag == PLUS || tag == MINUS then DecodeLine(data, pos + 1, tag == PLUS)
      else if tag == COLON then DecodeInteger(data, pos + 1)
      else if tag == DOLLAR then DecodeBulk(data, pos + 1)
      else if tag == STAR then DecodeArray(data, pos + 1)
      else if ValidUtf8(data[pos + 1..LineEnd(data, pos + 1)]) then Failure(UnknownType(tag))
      else Failure(DumpPanic(tag))
  }

  /** The rest of a `+` (`simple`) or `-` frame: its line, which must be
      UTF-8, with trailing white space (the CR LF among it) trimmed. */
  function DecodeLine(data: seq<byte>, start: nat, simple: bool): (r: Result<Decoded, DecodeError>)
    requires start <= |data|
    ensures r.Success? ==> start <= r.value.end <= |data|
    ensures r.Success? ==> if simple then r.value.value.SimpleString? else r.value.value.Error?
  {
    var e := LineEnd(data, start);
    var line := data[start..e];
    if !ValidUtf8(line) then Failure(InvalidUtf8)
    else
      var text := TrimEnd(line);
      Success(Decoded(if simple then SimpleString(text) else Error(text), e))
  }

  /** The rest of a `:` frame: a header that is an `i64`. */
  function DecodeInteger(data: seq<byte>, start: nat): (r: Result<Decoded, DecodeError>)
    requires start <= |data|
    ensures r.Success? ==> start < r.value.end <= |data| && r.value.value.Integer?
  {
    match Header(data, start)
    case Failure(err) => Failure(err)
    case Success((h, e)) =>
      match ParseI64(h)
      case None => Failure(BadInteger)
      case Some(n) => Success(Decoded(Integer(n), e))
  }

  /** The rest of a `$` frame: a `usize` length header, exactly that many
      bytes, then two more bytes that are skipped unchecked. */
  function DecodeBulk(data: seq<byte>, start: nat): (r: Result<Decoded, DecodeError>)
    requires start <= |data|
    ensures r.Success? ==> start < r.value.end <= |data| && r.value.value.BulkString?
  {
    match Header(data, start)
    case Failure(err) => Failure(err)
    case Success((h, e)) =>
      match ParseUsize(h)
      case None => Failure(BadLength)
      case Some(len) =>
        if e + len + 2 > |data| then Failure(UnexpectedEof)
        else Success(Decoded(BulkString(data[e..e + len]), e + len + 2))
  }

  /** The rest of a `*` frame: a `usize` count header, then that many
      frames. */
  function DecodeArray(data: seq<byte>, start: nat): (r: Result<Decoded, DecodeError>)
    requires start <= |data|
    ensures r.Success? ==> start < r.value.end <= |data| && r.value.value.Array?
    decreases |data| - start, 0
  {
    match Header(data, start)
    case Failure(err) => Failure(err)
    case Success((h, e)) =>
      match ParseUsize(h)
      case None => Failure(BadLength)
      case Some(count) =>
        match DecodeElements(data, e, count)
        case Failure(err) => Failure(err)
        case Success(list) => Success(Decoded(Array(list.values), list.end))
  }

  /** `count` frames back to back from `pos`, in stream order; the first
      error ends the whole sequence. */
  function DecodeElements(data: seq<byte>, pos: nat, count: nat): (r: Result<DecodedList, DecodeError>)
    requires pos <= |data|
    ensures r.Success? ==> |r.value.values| == count && pos <= r.value.end <= |data|
    ensures r.Success? && count > 0 ==> pos < r.value.end
    decreases |data| - pos, 2, count
  {
    if count == 0 then Success(DecodedList([], pos))
    else
      match Decode(data, pos)
      case Failure(err) => Failure(err)
      case Success(first) =>
        match DecodeElements(data, first.end, count - 1)
        case Failure(err) => Failure(err)
        case Success(rest) => Success(DecodedList([first.value] + rest.values, rest.end))
  }

  /** Where the reader stops when the frame at `pos` fails, for the errors
      whose position the source fixes: the line an unknown tag's dump or a
      rejected header has consumed, or the stop of the failing element of an
      array. `None` for the two errors whose position Rust's standard library
      leaves open: end of file in `read_exact` and a `read_line` that is not
      UTF-8. */
  function ErrorStop(data: seq<byte>, pos: nat): (r: Option<nat>)
    requires pos <= |data|
    ensures r.Some? ==> pos < r.value <= |data|
    decreases |data| - pos, 0
  {
    if pos == |data| then None
    else
      var tag := data[pos];
      if tag == PLUS || tag == MINUS then None
      else if tag == COLON || tag == DOLLAR then
        if HeaderRejected(data, pos + 1, tag == COLON) then Some(LineEnd(data, pos + 1)) else None
      else if tag == STAR then ArrayErrorStop(data, pos + 1)
      else Some(LineEnd(data, pos + 1))
  }

  /** `ErrorStop` for the rest of a `*` frame starting at `start`. */
  function ArrayErrorStop(data: seq<byte>, start: nat): (r: Option<nat>)
    requires start <= |data|
    ensures r.Some? ==> start <= r.value <= |data|
    decreases |data| - start, 2
  {
    match Header(data, start)
    case Failure(_) => Some(LineEnd(data, start))
    case Success((h, e)) =>
      match ParseUsize(h)
      case None => Some(e)
      case Some(count) => ElementsErrorStop(data, e, count)
  }

  /** `ErrorStop` of the first of `count` frames from `pos` that fails. */
  function ElementsErrorStop(data: seq<byte>, pos: nat, count: nat): (r: Option<nat>)
    requires pos <= |data|
    ensures r.Some? ==> pos < r.value <= |data|
    decreases |data| - pos, 1, count
  {
    if count == 0 then None
    else
      match Decode(data, pos)
      case Failure(_) => ErrorStop(data, pos)
      case Success(first) => ElementsErrorStop(data, first.end, count - 1)
  }

  /** Elements already decoded, in front of the outcome for the rest. */
  function Prepend(prefix: seq<RespValue>, r: Result<DecodedList, DecodeError>): Result<DecodedList, DecodeError> {
    match r
    case Failure(err) => Failure(err)
    case Success(list) => Success(DecodedList(prefix + list.values, list.end))
  }

  lemma PrependNothing(r: Result<DecodedList, DecodeError>)
    ensures Prepend([], r) == r
  {
    if r.Success? {
      assert [] + r.value.values == r.value.values;
    }
  }

  lemma PrependTwice(a: seq<RespValue>, b: seq<RespValue>, r: Result<DecodedList, DecodeError>)
    ensures Prepend(a, Prepend(b, r)) == Prepend(a + b, r)
  {
    if r.Success? {
      assert a + (b + r.value.values) == (a + b) + r.value.values;
    }
  }

  /** Reads the header line of a `:`, `$` or `*` frame and drops its last
      two bytes, as `Header` describes. */
  method ReadHeader(reader: BufferedReader) returns (r: Result<seq<byte>, DecodeError>)
    requires reader.Valid()
    modifies reader
    ensures reader.Valid() && reader.pos == LineEnd(reader.data, old(reader.pos))
    ensures var spec := Header(reader.data, old(reader.pos));
            && (spec.Success? ==> r == Success(spec.value.0))
            && (spec.Failure? ==> r == Failure(spec.error))
  {
    ghost var from := reader.pos;
    var line := reader.ReadLine();
    assert line == reader.data[from..reader.pos];
    if |line| < 2 {
      return Failure(HeaderTooShort);
    }
    assert line[..|line| - 2] == reader.data[from..reader.pos - 2];
    r := Success(line[..|line| - 2]);
  }

  /** The result `r` of a reader method and the position `end` it left the
      reader at are what `spec` describes: the value and the end of the
      frame, or the error. */
  predicate Follows<T(==)>(r: Result<T, DecodeError>, end: nat, spec: Result<(T, nat), DecodeError>) {
    && (spec.Success? ==> r == Success(spec.value.0) && end == spec.value.1)
    && (spec.Failure? ==> r == Failure(spec.error))
  }

  /** A decoded frame as a value and its end. */
  function AsPair(d: Result<Decoded, DecodeError>): Result<(RespValue, nat), DecodeError> {
    match d
    case Success(x) => Success((x.value, x.end))
    case Failure(e) => Failure(e)
  }

  /** `decode_value`: reads one frame from `reader`. On success the reader
      is left just past the frame; a byte that is no tag leaves it just past
      the rest of that line. */
  method DecodeValue(reader: BufferedReader) returns (r: Result<RespValue, DecodeError>)
    requires reader.Valid()
    modifies reader
    ensures reader.Valid()
    ensures Follows(r, reader.pos, AsPair(Decode(reader.data, old(reader.pos))))
    ensures old(reader.pos) < |reader.data| && !IsTag(reader.data[old(reader.pos)]) ==>
              reader.pos == LineEnd(reader.data, old(reader.pos) + 1)
    ensures var tag := if old(reader.pos) < |reader.data| then reader.data[old(reader.pos)] else 0;
            && (tag == COLON || tag == DOLLAR || tag == STAR)
            && HeaderRejected(reader.data, old(reader.pos) + 1, tag == COLON) ==>
              reader.pos == LineEnd(reader.data, old(reader.pos) + 1)
    ensures var stop := ErrorStop(reader.data, old(reader.pos));
            r.Failure? && stop.Some? ==> reader.pos == stop.value
    decreases |reader.data| - reader.pos, 0
  {
    var tagByte := reader.ReadExact(1);
    if tagByte.None? {
      return Failure(UnexpectedEof);
    }
    var tag := tagByte.value[0];
    if tag == PLUS || tag == MINUS {
      r := ReadLineFrame(reader, tag == PLUS);
    } else if tag == COLON {
      r := ReadInteger(reader);
    } else if tag == DOLLAR {
      r := ReadBulk(reader);
    } else if tag == STAR {
      r := ReadArray(reader);
    } else {
      var dump := reader.ReadLine();
      if !ValidUtf8(dump) {
        return Failure(DumpPanic(tag));
      }
      r := Failure(UnknownType(tag));
    }
  }

  /** The `+` and `-` arms: the rest of the line, checked for UTF-8 and
      trimmed. */
  method ReadLineFrame(reader: BufferedReader, simple: bool) returns (r: Result<RespValue, DecodeError>)
    requires reader.Valid()
    modifies reader
    ensures reader.Valid()
    ensures Follows(r, reader.pos, AsPair(DecodeLine(reader.data, old(reader.pos), simple)))
  {
    var line := reader.ReadLine();
    if !ValidUtf8(line) {
      return Failure(InvalidUtf8);
    }
    var text := TrimEnd(line);
    r := Success(if simple then SimpleString(text) else Error(text));
  }

  /** The `:` arm: a header parsed as an `i64`. */
  method ReadInteger(reader: BufferedReader) returns (r: Result<RespValue, DecodeError>)
    requires reader.Valid()
    modifies reader
    ensures reader.Valid()
    ensures Follows(r, reader.pos, AsPair(DecodeInteger(reader.data, old(reader.pos))))
    ensures HeaderRejected(reader.data, old(reader.pos), true) ==> reader.pos == LineEnd(reader.data, old(reader.pos))
  {
    var header := ReadHeader(reader);
    if header.Failure? {
      return Failure(header.error);
    }
    var n := ParseI64(header.value);
    if n.None? {
      return Failure(BadInteger);
    }
    r := Success(Integer(n.value));
  }

  /** The `$` arm: a length header parsed as a `usize`, that many bytes,
      then two bytes read and dropped. */
  method ReadBulk(reader: BufferedReader) returns (r: Result<RespValue, DecodeError>)
    requires reader.Valid()
    modifies reader
    ensures reader.Valid()
    ensures Follows(r, reader.pos, AsPair(DecodeBulk(reader.data, old(reader.pos))))
    ensures HeaderRejected(reader.data, old(reader.pos), false) ==> reader.pos == LineEnd(reader.data, old(reader.pos))
  {
    var header := ReadHeader(reader);
    if header.Failure? {
      return Failure(header.error);
    }
    var len := ParseUsize(header.value);
    if len.None? {
      return Failure(BadLength);
    }
    var bytes := reader.ReadExact(len.value);
    if bytes.None? {
      return Failure(UnexpectedEof);
    }
    var terminator := reader.ReadExact(2);
    if terminator.None? {
      return Failure(UnexpectedEof);
    }
    r := Success(BulkString(bytes.value));
  }

  /** The `*` arm: a count header parsed as a `usize`, then that many
      frames. */
  method ReadArray(reader: BufferedReader) returns (r: Result<RespValue, DecodeError>)
    requires reader.Valid()
    modifies reader
    ensures reader.Valid()
    ensures Follows(r, reader.pos, AsPair(DecodeArray(reader.data, old(reader.pos))))
    ensures HeaderRejected(reader.data, old(reader.pos), false) ==> reader.pos == LineEnd(reader.data, old(reader.pos))
    ensures var stop := ArrayErrorStop(reader.data, old(reader.pos));
            r.Failure? && stop.Some? ==> reader.pos == stop.value
    decreases |reader.data| - reader.pos, 2
  {
    var header := ReadHeader(reader);
    if header.Failure? {
      return Failure(header.error);
    }
    var count := ParseUsize(header.value);
    if count.None? {
      return Failure(BadLength);
    }
    var elements := ReadElements(reader, count.value);
    if elements.Failure? {
      return Failure(elements.error);
    }
    r := Success(Array(elements.value));
  }

  /** The `for` loop of the array case: decodes `count` frames in turn,
      pushing each onto the array, and stops at the first error. */
  method ReadElements(reader: BufferedReader, count: nat) returns (r: Result<seq<RespValue>, DecodeError>)
    requires reader.Valid()
    modifies reader
    ensures reader.Valid()
    ensures var spec := DecodeElements(reader.data, old(reader.pos), count);
            && (spec.Success? ==> r == Success(spec.value.values) && reader.pos == spec.value.end)
            && (spec.Failure? ==> r == Failure(spec.error))
    ensures var stop := ElementsErrorStop(reader.data, old(reader.pos), count);
            r.Failure? && stop.Some? ==> reader.pos == stop.value
    decreases |reader.data| - reader.pos, 1
  {
    var elements: seq<RespValue> := [];
    PrependNothing(DecodeElements(reader.data, reader.pos, count));
    for i := 0 to count
      invariant reader.Valid() && old(reader.pos) <= reader.pos
      invariant DecodeElements(reader.data, old(reader.pos), count)
                == Prepend(elements, DecodeElements(reader.data, reader.pos, count - i))
      invariant ElementsErrorStop(reader.data, old(reader.pos), count)
                == ElementsErrorStop(reader.data, reader.pos, count - i)
    {
      var element := DecodeValue(reader);
      if element.Failure? {
        return Failure(element.error);
      }
      PrependTwice(elements, [element.value], DecodeElements(reader.data, reader.pos, count - i - 1));
      elements := elements + [element.value];
    }
    assert elements + [] == elements;
    r := Success(elements);
  }
}
