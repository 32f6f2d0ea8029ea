/** UTF-8 as Rust's `str` sees it: well-formedness (what `read_line` checks),
    `String::from_utf8_lossy`, and `str::trim_end`. Text is kept as its
    UTF-8 bytes. */
module Utf8 {
  import opened Ascii

  /** Bytes 0x80..0xBF, which continue a multi-byte sequence. */
  predicate IsContinuation(b: byte) {
    0x80 <= b <= 0xBF
  }

  predicate ContinuationAt(s: seq<byte>, i: nat) {
    i < |s| && IsContinuation(s[i])
  }

  /** The second byte allowed after a three- or four-byte lead byte
      (Table 3-7 of the Unicode Standard: no overlong forms, no surrogates,
      nothing above U+10FFFF). */
  predicate SecondByteOk(lead: byte, b: byte) {
    if lead == 0xE0 then 0xA0 <= b <= 0xBF
    else if lead == 0xED then 0x80 <= b <= 0x9F
    else if lead == 0xF0 then 0x90 <= b <= 0xBF
    else if lead == 0xF4 then 0x80 <= b <= 0x8F
    else IsContinuation(b)
  }

  /** The first piece of a byte string: a well-formed character, or the
      maximal prefix of one that cannot be completed (at least one byte). */
  datatype Chunk = Chunk(len: nat, valid: bool)

  /** The chunk at the head of `s`, found as Rust's `Utf8Chunks` does: a
      valid chunk is one whole character; an invalid one stops before the
      first byte that does not fit. */
  function NextChunk(s: seq<byte>): (c: Chunk)
    requires |s| > 0
    ensures 1 <= c.len <= |s| && c.len <= 4
    ensures c.valid ==> !IsContinuation(s[0])
    ensures c.valid ==> forall i | 1 <= i < c.len :: IsContinuation(s[i])
    ensures c.valid && c.len == 1 <==> s[0] < 0x80
  {
    var lead := s[0];
    if lead < 0x80 then Chunk(1, true)
    else if 0xC2 <= lead <= 0xDF then
      if ContinuationAt(s, 1) then Chunk(2, true) else Chunk(1, false)
    else if 0xE0 <= lead <= 0xEF then
      if !(|s| > 1 && SecondByteOk(lead, s[1])) then Chunk(1, false)
      else if !ContinuationAt(s, 2) then Chunk(2, false)
      else Chunk(3, true)
    else if 0xF0 <= lead <= 0xF4 then
      if !(|s| > 1 && SecondByteOk(lead, s[1])) then Chunk(1, false)
      else if !ContinuationAt(s, 2) then Chunk(2, false)
      else if !ContinuationAt(s, 3) then Chunk(3, false)
      else Chunk(4, true)
    else Chunk(1, false)
  }

  /** Well-formed UTF-8: the bytes split into valid characters. */
  predicate ValidUtf8(s: seq<byte>)
    decreases |s|
  {
    s == [] || (NextChunk(s).valid && ValidUtf8(s[NextChunk(s).len..]))
  }

  /** Rust's `String`: bytes that are well-formed UTF-8. */
  type Utf8String = s: seq<byte> | ValidUtf8(s) witness []

  /** U+FFFD REPLACEMENT CHARACTER. */
  const REPLACEMENT: seq<byte> := [0xEF, 0xBF, 0xBD]

  /** A valid chunk is decided by its own bytes: whatever follows it does not
      change it. */
  lemma ValidChunkOfPrefix(s: seq<byte>, t: seq<byte>)
    requires |s| > 0 && NextChunk(s).valid
    requires |t| >= NextChunk(s).len && t[..NextChunk(s).len] == s[..NextChunk(s).len]
    ensures NextChunk(t) == NextChunk(s)
  {
    var k := NextChunk(s).len;
    assert t[0] == t[..k][0] == s[..k][0] == s[0];
    if k > 1 { assert t[1] == t[..k][1] == s[..k][1] == s[1]; }
    if k > 2 { assert t[2] == t[..k][2] == s[..k][2] == s[2]; }
    if k > 3 { assert t[3] == t[..k][3] == s[..k][3] == s[3]; }
  }

  /** A valid chunk at the head of `a` is still the head chunk of `a + b`. */
  lemma ChunkOfConcat(a: seq<byte>, b: seq<byte>)
    requires |a| > 0 && NextChunk(a).valid
    ensures NextChunk(a + b) == NextChunk(a)
    ensures (a + b)[NextChunk(a).len..] == a[NextChunk(a).len..] + b
  {
    var k := NextChunk(a).len;
    assert (a + b)[..k] == a[..k];
    ValidChunkOfPrefix(a, a + b);
  }

  /** Putting one whole character in front of well-formed text keeps it
      well-formed. */
  lemma PrependChar(c: seq<byte>, rest: seq<byte>)
    requires |c| > 0 && NextChunk(c) == Chunk(|c|, true)
    requires ValidUtf8(rest)
    ensures ValidUtf8(c + rest)
  {
    var s := c + rest;
    assert s[..|c|] == c[..|c|];
    ValidChunkOfPrefix(c, s);
    assert s[|c|..] == rest;
  }

  /** Well-formed text concatenates to well-formed text. */
  lemma {:induction false} ConcatValid(a: seq<byte>, b: seq<byte>)
    requires ValidUtf8(a) && ValidUtf8(b)
    ensures ValidUtf8(a + b)
    decreases |a|
  {
    if a == [] {
      assert a + b == b;
    } else {
      ChunkOfConcat(a, b);
      ConcatValid(a[NextChunk(a).len..], b);
    }
  }

  /** ASCII text is well-formed UTF-8. */
  lemma {:induction false} AsciiValid(s: seq<byte>)
    requires forall i | 0 <= i < |s| :: s[i] < 0x80
    ensures ValidUtf8(s)
    decreases |s|
  {
    if s != [] {
      AsciiValid(s[1..]);
    }
  }

  /** `String::from_utf8_lossy`: every valid character is kept, every
      invalid chunk becomes one U+FFFD. The result is always well-formed. */
  function Lossy(s: seq<byte>): (r: Utf8String)
    ensures r == [] <==> s == []
    decreases |s|
  {
    if s == [] then []
    else
      var c := NextChunk(s);
      var piece := if c.valid then s[..c.len] else REPLACEMENT;
      var rest := Lossy(s[c.len..]);
      assert NextChunk(piece) == Chunk(|piece|, true) by {
        if c.valid { ValidChunkOfPrefix(s, piece); }
      }
      PrependChar(piece, rest);
      piece + rest
  }

  /** Lossy decoding changes nothing in text that is already well-formed. */
  lemma {:induction false} LossyOfValid(s: seq<byte>)
    requires ValidUtf8(s)
    ensures Lossy(s) == s
    decreases |s|
  {
    if s != [] {
      var k := NextChunk(s).len;
      LossyOfValid(s[k..]);
      assert Lossy(s) == s[..k] + Lossy(s[k..]);
      assert s == s[..k] + s[k..];
    }
  }

  /** Lossy decoding changes every input that is not well-formed. */
  lemma LossyChangesInvalid(s: seq<byte>)
    requires !ValidUtf8(s)
    ensures Lossy(s) != s
  {
  }

  /** One of the multi-byte characters with the Unicode White_Space
      property, as its three UTF-8 bytes: U+1680, U+2000..U+200A, U+2028,
      U+2029, U+202F, U+205F, U+3000. */
  predicate IsWideSpace(a: byte, b: byte, c: byte) {
    || (a == 0xE1 && b == 0x9A && c == 0x80)
    || (a == 0xE2 && b == 0x80 && (0x80 <= c <= 0x8A || c == 0xA8 || c == 0xA9 || c == 0xAF))
    || (a == 0xE2 && b == 0x81 && c == 0x9F)
    || (a == 0xE3 && b == 0x80 && c == 0x80)
  }

  /** The byte length of the White_Space character that ends `s`, or 0 when
      `s` does not end in one. One byte: TAB, LF, VT, FF, CR, SPACE; two:
      U+0085, U+00A0; three: see `IsWideSpace`. */
  function TrailingSpaceLen(s: seq<byte>): (k: nat)
    ensures k <= |s| && k <= 3
  {
    var n := |s|;
    if n >= 1 && (s[n - 1] == 0x20 || 0x09 <= s[n - 1] <= 0x0D) then 1
    else if n >= 2 && s[n - 2] == 0xC2 && (s[n - 1] == 0x85 || s[n - 1] == 0xA0) then 2
    else if n >= 3 && IsWideSpace(s[n - 3], s[n - 2], s[n - 1]) then 3
    else 0
  }

  /** Text made only of White_Space characters. */
  predicate IsSpaceRun(w: seq<byte>)
    decreases |w|
  {
    w == [] || (TrailingSpaceLen(w) > 0 && IsSpaceRun(w[..|w| - TrailingSpaceLen(w)]))
  }

  /** A White_Space character after a run of them is a longer run. */
  lemma ExtendSpaceRun(x: seq<byte>, w: seq<byte>)
    requires IsSpaceRun(x)
    requires |w| > 0 && TrailingSpaceLen(w) == |w|
    ensures IsSpaceRun(x + w)
  {
    var s := x + w;
    assert s[|s| - |w|..] == w;
    assert s[..|s| - |w|] == x;
  }

  /** The character that `TrailingSpaceLen` finds is one whole, valid
      character. */
  lemma TrailingSpaceIsChar(s: seq<byte>)
    requires TrailingSpaceLen(s) > 0
    ensures var k := TrailingSpaceLen(s);
            NextChunk(s[|s| - k..]) == Chunk(k, true) && TrailingSpaceLen(s[|s| - k..]) == k
  {
  }

  /** Dropping a whole character from the end of well-formed text leaves
      well-formed text. */
  lemma {:induction false} DropLastChar(x: seq<byte>, c: seq<byte>)
    requires |c| > 0 && NextChunk(c) == Chunk(|c|, true)
    requires ValidUtf8(x + c)
    ensures ValidUtf8(x)
    decreases |x|
  {
    if x != [] {
      var s := x + c;
      var k := NextChunk(s).len;
      // otherwise the chunk of `s` would take c[0] as a continuation byte
      assert k <= |x|;
      assert s[..k] == x[..k];
      ValidChunkOfPrefix(s, x);
      assert s[k..] == x[k..] + c;
      DropLastChar(x[k..], c);
    }
  }

  /** `str::trim_end`: removes every trailing White_Space character, one
      character at a time from the end. */
  function TrimEnd(s: seq<byte>): (r: seq<byte>)
    ensures |r| <= |s|
    decreases |s|
  {
    var k := TrailingSpaceLen(s);
    if k == 0 then s else TrimEnd(s[..|s| - k])
  }

  /** What `TrimEnd` promises: the result is a prefix of `s` that does not
      end in white space, only white space was removed, and well-formed text
      stays well-formed. */
  lemma {:induction false} TrimEndSpec(s: seq<byte>)
    ensures TrimEnd(s) <= s
    ensures TrailingSpaceLen(TrimEnd(s)) == 0
    ensures IsSpaceRun(s[|TrimEnd(s)|..])
    ensures ValidUtf8(s) ==> ValidUtf8(TrimEnd(s))
    decreases |s|
  {
    var k := TrailingSpaceLen(s);
    if k == 0 {
      assert s[|s|..] == [];
    } else {
      var front := s[..|s| - k];
      var r := TrimEnd(front);
      assert TrimEnd(s) == r;
      TrimEndSpec(front);
      TrimEndStepRun(s, r);
      TrimEndStepValid(s, r);
    }
  }

  /** One step of `TrimEnd` removes a whole White_Space character: what the
      front trims to is still a prefix of `s` followed by white space only. */
  lemma TrimEndStepRun(s: seq<byte>, r: seq<byte>)
    requires TrailingSpaceLen(s) > 0
    requires var front := s[..|s| - TrailingSpaceLen(s)];
             r <= front && IsSpaceRun(front[|r|..])
    ensures r <= s && IsSpaceRun(s[|r|..])
  {
    var k := TrailingSpaceLen(s);
    var front := s[..|s| - k];
    var w := s[|s| - k..];
    assert s[|r|..] == front[|r|..] + w;
    TrailingSpaceIsChar(s);
    ExtendSpaceRun(front[|r|..], w);
  }

  /** One step of `TrimEnd` keeps well-formed text well-formed. */
  lemma TrimEndStepValid(s: seq<byte>, r: seq<byte>)
    requires TrailingSpaceLen(s) > 0
    requires ValidUtf8(s[..|s| - TrailingSpaceLen(s)]) ==> ValidUtf8(r)
    ensures ValidUtf8(s) ==> ValidUtf8(r)
  {
    var k := TrailingSpaceLen(s);
    var front := s[..|s| - k];
    var w := s[|s| - k..];
    if ValidUtf8(s) {
      assert s == front + w;
      TrailingSpaceIsChar(s);
      DropLastChar(front, w);
    }
  }

  /** A line whose text does not end in white space trims back to that
      text once its CRLF is removed. */
  lemma TrimEndLine(t: seq<byte>)
    requires TrailingSpaceLen(t) == 0
    ensures TrimEnd(t + CRLF) == t
  {
    var s := t + CRLF;
    assert s[..|s| - 1] == t + [CR];
    assert (t + [CR])[..|t|] == t;
    assert TrimEnd(t + [CR]) == t;
  }
}
