/** What the decoder accepts and rejects: exact bulk strings, integers,
    rejected lengths, arrays that fail as a whole, and the round trip
    between the decoder and the canonical frames of values. */
module Framing {
  import opened Wrappers
  import opened Ascii
  import opened Utf8
  import opened Resp
  import opened Reader
  import opened Decoder

  predicate NoLf(h: seq<byte>) {
    forall i | 0 <= i < |h| :: h[i] != LF
  }

  /** `data` holds `frame` at `pos`. */
  predicate HasAt(data: seq<byte>, pos: nat, frame: seq<byte>) {
    pos + |frame| <= |data| && data[pos..pos + |frame|] == frame
  }

  /** `Decode` reads `v` from the frame at `pos`, which ends at `end`. */
  predicate DecodesTo(data: seq<byte>, pos: nat, v: RespValue, end: nat) {
    pos <= |data| && Decode(data, pos) == Success(Decoded(v, end))
  }

  /** `DecodeElements` reads the values `vs` from `pos`, ending at `end`. */
  predicate ElementsDecodeTo(data: seq<byte>, pos: nat, vs: seq<RespValue>, end: nat) {
    pos <= |data| && DecodeElements(data, pos, |vs|) == Success(DecodedList(vs, end))
  }

  lemma HasAtSplit(data: seq<byte>, pos: nat, a: seq<byte>, b: seq<byte>)
    requires HasAt(data, pos, a + b)
    ensures HasAt(data, pos, a) && HasAt(data, pos + |a|, b)
  {
    assert data[pos..pos + |a|] == (a + b)[..|a|];
    assert data[pos + |a|..pos + |a| + |b|] == (a + b)[|a|..];
  }

  /** A line of text without LF, then CR LF, ends just after the LF. */
  lemma LineEndAt(data: seq<byte>, from: nat, h: seq<byte>)
    requires HasAt(data, from, h + CRLF) && NoLf(h)
    ensures LineEnd(data, from) == from + |h + CRLF| == from + |h| + 2
  {
    forall i | from <= i < from + |h| + 1 ensures data[i] != LF {
      assert data[i] == (h + CRLF)[i - from];
    }
    LineEndSkips(data, from, from + |h| + 1);
    assert data[from + |h| + 1] == (h + CRLF)[|h| + 1] == LF;
  }

  lemma DecimalNoLf(n: nat)
    ensures NoLf(Decimal(n))
  {
    var d := Decimal(n);
    assert forall i | 0 <= i < |d| :: IsDigit(d[i]);
  }

  lemma SignedDecimalNoLf(i: int)
    ensures NoLf(SignedDecimal(i))
  {
    DecimalNoLf(if i < 0 then -i else i);
  }

  /** The header `h` followed by CR LF at `from` is read as the header `h`. */
  lemma HeaderAt(data: seq<byte>, from: nat, h: seq<byte>)
    requires HasAt(data, from, h + CRLF) && NoLf(h)
    ensures Header(data, from) == Success((h, from + |h| + 2))
  {
    LineEndAt(data, from, h);
    assert data[from..from + |h|] == (h + CRLF)[..|h|];
  }

  /** A tag, a header line `h` and CR LF at `pos`. */
  lemma TagLine(data: seq<byte>, pos: nat, tag: byte, h: seq<byte>)
    requires HasAt(data, pos, [tag] + h + CRLF) && NoLf(h)
    ensures pos < |data| && data[pos] == tag
    ensures Header(data, pos + 1) == Success((h, pos + |[tag] + h + CRLF|))
  {
    assert [tag] + h + CRLF == [tag] + (h + CRLF);
    HasAtSplit(data, pos, [tag], h + CRLF);
    HeaderAt(data, pos + 1, h);
  }

  /** A tag, a header line `h` and CR LF at `pos`, followed by `rest`. */
  lemma TagLineParts(data: seq<byte>, pos: nat, tag: byte, h: seq<byte>, rest: seq<byte>)
    requires HasAt(data, pos, [tag] + h + CRLF + rest) && NoLf(h)
    ensures pos < |data| && data[pos] == tag
    ensures Header(data, pos + 1) == Success((h, pos + |[tag] + h + CRLF|))
    ensures HasAt(data, pos + |[tag] + h + CRLF|, rest)
  {
    HasAtSplit(data, pos, [tag] + h + CRLF, rest);
    TagLine(data, pos, tag, h);
  }

  /** A line that is line text followed by CR LF is valid UTF-8 and
      trims back to that text. */
  lemma TrimSlice(line: seq<byte>, t: seq<byte>)
    requires line == t + CRLF && LineText(t)
    ensures ValidUtf8(line) && TrimEnd(line) == t
  {
    AsciiValid(CRLF);
    ConcatValid(t, CRLF);
    TrimEndLine(t);
  }

  /** The text a `+` or `-` line carries. */
  function LineOf(v: RespValue): seq<byte>
    requires v.SimpleString? || v.Error?
  {
    if v.SimpleString? then v.text else v.message
  }

  // Each `...Step` lemma below says when `Decode` yields a given value from
  // facts about `data` alone; each `...Parts` lemma derives those facts
  // from a frame laid out in `data`. Keeping the two apart keeps each
  // proof small.

  lemma TextStep(data: seq<byte>, pos: nat, v: RespValue, end: nat)
    requires (v.SimpleString? || v.Error?) && WellFormed(v)
    requires pos < |data| && data[pos] == TagOf(v)
    requires pos + 1 <= end <= |data| && LineEnd(data, pos + 1) == end
    requires data[pos + 1..end] == LineOf(v) + CRLF
    ensures Decode(data, pos) == Success(Decoded(v, end))
  {
    TrimSlice(data[pos + 1..end], LineOf(v));
  }

  lemma TextParts(v: RespValue, data: seq<byte>, pos: nat)
    requires (v.SimpleString? || v.Error?) && HasAt(data, pos, EncodeValue(v))
    requires forall i | 0 <= i < |LineOf(v)| :: LineOf(v)[i] != LF
    ensures pos < |data| && data[pos] == TagOf(v)
    ensures pos + 1 <= pos + |EncodeValue(v)| <= |data| && LineEnd(data, pos + 1) == pos + |EncodeValue(v)|
    ensures data[pos + 1..pos + |EncodeValue(v)|] == LineOf(v) + CRLF
  {
    var t := LineOf(v);
    assert EncodeValue(v) == [TagOf(v)] + (t + CRLF);
    HasAtSplit(data, pos, [TagOf(v)], t + CRLF);
    LineEndAt(data, pos + 1, t);
  }

  lemma IntegerStep(data: seq<byte>, pos: nat, v: RespValue, h: seq<byte>, end: nat)
    requires v.Integer? && pos < |data| && data[pos] == COLON
    requires Header(data, pos + 1) == Success((h, end)) && ParseI64(h) == Some(v.n)
    ensures Decode(data, pos) == Success(Decoded(v, end))
  {
  }

  lemma IntegerParts(v: RespValue, data: seq<byte>, pos: nat)
    requires v.Integer? && HasAt(data, pos, EncodeValue(v))
    ensures pos < |data| && data[pos] == COLON
    ensures Header(data, pos + 1) == Success((SignedDecimal(v.n as int), pos + |EncodeValue(v)|))
    ensures ParseI64(SignedDecimal(v.n as int)) == Some(v.n)
  {
    var d := SignedDecimal(v.n as int);
    SignedDecimalNoLf(v.n as int);
    TagLine(data, pos, COLON, d);
    ParseI64SignedDecimal(v.n);
  }

  lemma BulkStep(data: seq<byte>, pos: nat, v: RespValue, h: seq<byte>, e: nat, end: nat)
    requires v.BulkString? && pos < |data| && data[pos] == DOLLAR
    requires Header(data, pos + 1) == Success((h, e)) && ParseUsize(h) == Some(|v.bytes|)
    requires end == e + |v.bytes| + 2 <= |data| && data[e..e + |v.bytes|] == v.bytes
    ensures DecodesTo(data, pos, v, end)
  {
  }

  /** The bulk frame of `b` without its last two bytes at `pos`. */
  lemma BulkParts(data: seq<byte>, pos: nat, b: seq<byte>)
    requires |b| <= USIZE_MAX && HasAt(data, pos, [DOLLAR] + Decimal(|b|) + CRLF + b)
    ensures pos < |data| && data[pos] == DOLLAR
    ensures Header(data, pos + 1) == Success((Decimal(|b|), pos + |[DOLLAR] + Decimal(|b|) + CRLF|))
    ensures ParseUsize(Decimal(|b|)) == Some(|b|)
    ensures var e := pos + |[DOLLAR] + Decimal(|b|) + CRLF|;
            e + |b| <= |data| && data[e..e + |b|] == b
  {
    DecimalNoLf(|b|);
    TagLineParts(data, pos, DOLLAR, Decimal(|b|), b);
    ParseUsizeDecimal(|b|);
  }

  lemma ArrayStep(data: seq<byte>, pos: nat, v: RespValue, h: seq<byte>, e: nat, end: nat)
    requires v.Array? && pos < |data| && data[pos] == STAR
    requires Header(data, pos + 1) == Success((h, e)) && ParseUsize(h) == Some(|v.elements|)
    requires e <= |data| && DecodeElements(data, e, |v.elements|) == Success(DecodedList(v.elements, end))
    ensures Decode(data, pos) == Success(Decoded(v, end))
  {
  }

  lemma ArrayParts(v: RespValue, data: seq<byte>, pos: nat)
    requires v.Array? && WellFormed(v) && HasAt(data, pos, EncodeValue(v))
    ensures pos < |data| && data[pos] == STAR
    ensures Header(data, pos + 1) == Success((Decimal(|v.elements|), pos + |[STAR] + Decimal(|v.elements|) + CRLF|))
    ensures ParseUsize(Decimal(|v.elements|)) == Some(|v.elements|)
    ensures var e := pos + |[STAR] + Decimal(|v.elements|) + CRLF|;
            && e <= |data| && HasAt(data, e, EncodeAll(v.elements))
            && e + |EncodeAll(v.elements)| == pos + |EncodeValue(v)|
  {
    var d := Decimal(|v.elements|);
    assert EncodeValue(v) == [STAR] + d + CRLF + EncodeAll(v.elements);
    DecimalNoLf(|v.elements|);
    TagLineParts(data, pos, STAR, d, EncodeAll(v.elements));
    ParseUsizeDecimal(|v.elements|);
  }

  /** Where the elements of an array frame start, and that they end where
      the frame ends. */
  lemma ArrayBody(v: RespValue, data: seq<byte>, pos: nat, end: nat) returns (e: nat)
    requires v.Array? && WellFormed(v) && HasAt(data, pos, EncodeValue(v))
    requires end == pos + |EncodeValue(v)|
    ensures e == pos + |[STAR] + Decimal(|v.elements|) + CRLF| <= |data|
    ensures HasAt(data, e, EncodeAll(v.elements)) && end == e + |EncodeAll(v.elements)|
    ensures forall i | 0 <= i < |v.elements| :: WellFormed(v.elements[i])
  {
    ArrayParts(v, data, pos);
    e := pos + |[STAR] + Decimal(|v.elements|) + CRLF|;
  }

  /** An array frame whose elements decode from `e` to `end` decodes to
      the array. */
  lemma ArrayHeader(v: RespValue, data: seq<byte>, pos: nat, e: nat, end: nat)
    requires v.Array? && WellFormed(v) && HasAt(data, pos, EncodeValue(v))
    requires e == pos + |[STAR] + Decimal(|v.elements|) + CRLF| <= |data|
    requires ElementsDecodeTo(data, e, v.elements, end)
    ensures DecodesTo(data, pos, v, end)
  {
    ArrayParts(v, data, pos);
    ArrayStep(data, pos, v, Decimal(|v.elements|), e, end);
  }

  /** The frames of a non-empty list: the first element's frame, then the
      frames of the rest from `mid`. */
  lemma EncodeAllParts(vs: seq<RespValue>, data: seq<byte>, pos: nat, end: nat) returns (mid: nat)
    requires |vs| > 0 && HasAt(data, pos, EncodeAll(vs)) && end == pos + |EncodeAll(vs)|
    requires forall i | 0 <= i < |vs| :: WellFormed(vs[i])
    ensures mid == pos + |EncodeValue(vs[0])|
    ensures HasAt(data, pos, EncodeValue(vs[0])) && HasAt(data, mid, EncodeAll(vs[1..]))
    ensures end == mid + |EncodeAll(vs[1..])|
    ensures WellFormed(vs[0]) && forall i | 0 <= i < |vs[1..]| :: WellFormed(vs[1..][i])
  {
    assert EncodeAll(vs) == EncodeValue(vs[0]) + EncodeAll(vs[1..]);
    HasAtSplit(data, pos, EncodeValue(vs[0]), EncodeAll(vs[1..]));
    mid := pos + |EncodeValue(vs[0])|;
  }

  /** A first element and the rest after it. */
  lemma ElementsStep(data: seq<byte>, pos: nat, vs: seq<RespValue>, mid: nat, end: nat)
    requires |vs| > 0 && DecodesTo(data, pos, vs[0], mid)
    requires ElementsDecodeTo(data, mid, vs[1..], end)
    ensures ElementsDecodeTo(data, pos, vs, end)
  {
    assert |vs[1..]| == |vs| - 1;
    assert [vs[0]] + vs[1..] == vs;
  }

  /** A `+` or `-` line carrying line text decodes to that text. */
  lemma LineFrame(data: seq<byte>, pos: nat, v: RespValue, end: nat)
    requires (v.SimpleString? || v.Error?) && WellFormed(v) && HasAt(data, pos, EncodeValue(v))
    requires end == pos + |EncodeValue(v)|
    ensures DecodesTo(data, pos, v, end)
  {
    TextParts(v, data, pos);
    TextStep(data, pos, v, end);
  }

  /** Bulk-string exactness: `$`, the decimal length of `b`, CR LF, the bytes
      of `b` and any two bytes decode to exactly `b`, whatever `b` holds
      (CR, LF, nothing at all), and the frame ends after those two bytes,
      which are not checked. */
  lemma BulkFrameExact(data: seq<byte>, pos: nat, b: seq<byte>)
    requires |b| <= USIZE_MAX
    requires HasAt(data, pos, [DOLLAR] + Decimal(|b|) + CRLF + b)
    requires pos + |[DOLLAR] + Decimal(|b|) + CRLF + b| + 2 <= |data|
    ensures Decode(data, pos) == Success(Decoded(BulkString(b), pos + |[DOLLAR] + Decimal(|b|) + CRLF + b| + 2))
  {
    var d := Decimal(|b|);
    var e := pos + |d| + 3;
    assert |[DOLLAR] + d + CRLF + b| == |d| + 3 + |b|;
    assert DecodesTo(data, pos, BulkString(b), e + |b| + 2) by {
      BulkParts(data, pos, b);
      BulkStep(data, pos, BulkString(b), d, e, e + |b| + 2);
    }
  }

  /** The canonical frame of a bulk string decodes to it. */
  lemma BulkFrame(data: seq<byte>, pos: nat, v: RespValue, end: nat)
    requires v.BulkString? && WellFormed(v) && HasAt(data, pos, EncodeValue(v))
    requires end == pos + |EncodeValue(v)|
    ensures DecodesTo(data, pos, v, end)
  {
    var b := v.bytes;
    assert EncodeValue(v) == ([DOLLAR] + Decimal(|b|) + CRLF + b) + CRLF;
    HasAtSplit(data, pos, [DOLLAR] + Decimal(|b|) + CRLF + b, CRLF);
    BulkFrameExact(data, pos, b);
  }

  /** `:` followed by the decimal form of an `i64` and CR LF decodes to
      that integer. */
  lemma IntegerFrame(data: seq<byte>, pos: nat, v: RespValue, end: nat)
    requires v.Integer? && HasAt(data, pos, EncodeValue(v))
    requires end == pos + |EncodeValue(v)|
    ensures DecodesTo(data, pos, v, end)
  {
    IntegerParts(v, data, pos);
    IntegerStep(data, pos, v, SignedDecimal(v.n as int), end);
  }

  /** A length that starts with `-` is never accepted: a negative bulk
      string or array length is an error (the "null" frames of RESP are not
      supported). */
  lemma NegativeLengthRejected(data: seq<byte>, pos: nat)
    requires pos + 1 < |data| && (data[pos] == DOLLAR || data[pos] == STAR) && data[pos + 1] == MINUS
    ensures Decode(data, pos) == Failure(BadLength) || Decode(data, pos) == Failure(HeaderTooShort)
  {
    match Header(data, pos + 1)
    case Failure(_) =>
    case Success((h, e)) =>
      if |h| > 0 {
        assert h[0] == data[pos + 1];
      }
  }

  /** A numeric header line shorter than two bytes is a failure of its
      own, and a header that is not a number is rejected: an `i64` for `:`,
      a `usize` for `$` and `*`. */
  lemma NumericHeaderErrors(data: seq<byte>, pos: nat)
    requires pos < |data| && (data[pos] == COLON || data[pos] == DOLLAR || data[pos] == STAR)
    ensures LineEnd(data, pos + 1) < pos + 3 ==> Decode(data, pos) == Failure(HeaderTooShort)
    ensures LineEnd(data, pos + 1) >= pos + 3 ==>
              var h := data[pos + 1..LineEnd(data, pos + 1) - 2];
              && (data[pos] == COLON && ParseI64(h).None? ==> Decode(data, pos) == Failure(BadInteger))
              && (data[pos] != COLON && ParseUsize(h).None? ==> Decode(data, pos) == Failure(BadLength))
  {
  }

  /** No partial array: when the first `k` of `n` elements decode and the
      next one fails, the whole sequence fails with that element's error. */
  lemma {:induction false} ElementErrorAborts(data: seq<byte>, pos: nat, n: nat, k: nat, mid: nat, prefix: seq<RespValue>, err: DecodeError)
    requires pos <= |data| && k < n
    requires DecodeElements(data, pos, k) == Success(DecodedList(prefix, mid))
    requires Decode(data, mid) == Failure(err)
    ensures DecodeElements(data, pos, n) == Failure(err)
    ensures ElementsErrorStop(data, pos, n) == ErrorStop(data, mid)
    decreases k
  {
    if k > 0 {
      var first := Decode(data, pos).value;
      var rest := DecodeElements(data, first.end, k - 1).value;
      ElementErrorAborts(data, first.end, n - 1, k - 1, mid, rest.values, err);
    }
  }

  /** The canonical frame of a well-formed value decodes to that value and
      ends exactly where the frame ends, whatever follows it. */
  lemma DecodeEncoded(v: RespValue, data: seq<byte>, pos: nat)
    requires WellFormed(v) && HasAt(data, pos, EncodeValue(v))
    ensures Decode(data, pos) == Success(Decoded(v, pos + |EncodeValue(v)|))
  {
    FrameDecodes(v, data, pos, pos + |EncodeValue(v)|);
  }

  /** `DecodeEncoded`, by induction on the value, with the end of the frame
      named. */
  lemma {:induction false} FrameDecodes(v: RespValue, data: seq<byte>, pos: nat, end: nat)
    requires WellFormed(v) && HasAt(data, pos, EncodeValue(v))
    requires end == pos + |EncodeValue(v)|
    ensures DecodesTo(data, pos, v, end)
    decreases v, 1
  {
    match v
    case SimpleString(_) => LineFrame(data, pos, v, end);
    case Error(_) => LineFrame(data, pos, v, end);
    case Integer(_) => IntegerFrame(data, pos, v, end);
    case BulkString(_) => BulkFrame(data, pos, v, end);
    case Array(_) => ArrayFrame(data, pos, v, end);
  }

  /** The frame of an array decodes to the array: its elements' frames
      decode back to back. */
  lemma {:induction false} ArrayFrame(data: seq<byte>, pos: nat, v: RespValue, end: nat)
    requires v.Array? && WellFormed(v) && HasAt(data, pos, EncodeValue(v))
    requires end == pos + |EncodeValue(v)|
    ensures DecodesTo(data, pos, v, end)
    decreases v, 0
  {
    var e := ArrayBody(v, data, pos, end);
    FramesDecode(v.elements, data, e, end);
    ArrayHeader(v, data, pos, e, end);
  }

  /** The frames of well-formed values, back to back, decode to those
      values in order. */
  lemma {:induction false} FramesDecode(vs: seq<RespValue>, data: seq<byte>, pos: nat, end: nat)
    requires forall i | 0 <= i < |vs| :: WellFormed(vs[i])
    requires HasAt(data, pos, EncodeAll(vs)) && end == pos + |EncodeAll(vs)|
    ensures ElementsDecodeTo(data, pos, vs, end)
    decreases vs, 2
  {
    if vs != [] {
      var mid := EncodeAllParts(vs, data, pos, end);
      FrameDecodes(vs[0], data, pos, mid);
      FramesDecode(vs[1..], data, mid, end);
      ElementsStep(data, pos, vs, mid, end);
    }
  }

  /** A well-formed line whose only possible LF is its last byte trims to
      line text. */
  lemma TrimmedLineIsText(line: seq<byte>)
    requires ValidUtf8(line)
    requires forall i | 0 <= i < |line| - 1 :: line[i] != LF
    ensures LineText(TrimEnd(line))
  {
    var t := TrimEnd(line);
    TrimEndSpec(line);
    if |line| > 0 && line[|line| - 1] == LF {
      assert TrailingSpaceLen(line) > 0;
      assert t != line;
    }
    assert forall i | 0 <= i < |t| :: t[i] == line[i];
  }

  /** The text of a decoded `+` or `-` line is line text: the converse of
      `LineFrame`. */
  lemma DecodedLineIsText(data: seq<byte>, start: nat, simple: bool)
    requires start <= |data|
    ensures var r := DecodeLine(data, start, simple);
            r.Success? ==> LineText(LineOf(r.value.value))
  {
    var line := data[start..LineEnd(data, start)];
    if ValidUtf8(line) {
      LineEndNoLf(data, start);
      TrimmedLineIsText(line);
    }
  }

  /** Every value the decoder produces is well-formed, so its canonical
      frame decodes back to it (`DecodeEncoded`): the converse direction. */
  lemma {:induction false} DecodedIsWellFormed(data: seq<byte>, pos: nat)
    requires pos <= |data|
    ensures Decode(data, pos).Success? ==> WellFormed(Decode(data, pos).value.value)
    decreases |data| - pos, 1
  {
    if pos < |data| {
      var tag := data[pos];
      if tag == PLUS || tag == MINUS {
        DecodedLineIsText(data, pos + 1, tag == PLUS);
      } else if tag == STAR {
        match Header(data, pos + 1)
        case Failure(_) =>
        case Success((h, e)) =>
          match ParseUsize(h)
          case None =>
          case Some(count) =>
            assert Decode(data, pos) == DecodeArray(data, pos + 1);
            DecodedElementsAreWellFormed(data, e, count);
      }
    }
  }

  /** Every element the decoder produces for an array is well-formed. */
  lemma {:induction false} DecodedElementsAreWellFormed(data: seq<byte>, pos: nat, count: nat)
    requires pos <= |data|
    ensures var r := DecodeElements(data, pos, count);
            r.Success? ==> forall i | 0 <= i < |r.value.values| :: WellFormed(r.value.values[i])
    decreases |data| - pos, 2, count
  {
    if count > 0 {
      DecodedIsWellFormed(data, pos);
      match Decode(data, pos)
      case Failure(_) =>
      case Success(first) =>
        DecodedElementsAreWellFormed(data, first.end, count - 1);
    }
  }

  /** Whatever the decoder reads from a stream, re-encoding it gives a
      frame that decodes back to the same value. */
  lemma Redecode(data: seq<byte>, pos: nat)
    requires pos <= |data| && Decode(data, pos).Success?
    ensures var v := Decode(data, pos).value.value;
            Decode(EncodeValue(v), 0) == Success(Decoded(v, |EncodeValue(v)|))
  {
    var v := Decode(data, pos).value.value;
    var w := EncodeValue(v);
    DecodedIsWellFormed(data, pos);
    assert HasAt(w, 0, w) by {
      assert w[0..|w|] == w;
    }
    FrameDecodes(v, w, 0, |w|);
  }
}
