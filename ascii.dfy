/** Byte-level text helpers that the codec borrows from Rust's standard
    library: the byte type, the ASCII characters of the wire format, decimal
    rendering of integers (`Display` for `usize`/`i64`), decimal parsing
    (`str::parse::<i64>` and `str::parse::<usize>`), and ASCII case folding. */
module Ascii {
  import opened Wrappers

  newtype byte = b: int | 0 <= b < 256

  const CR: byte := 13
  const LF: byte := 10
  const PLUS: byte := '+' as byte
  const MINUS: byte := '-' as byte
  const COLON: byte := ':' as byte
  const DOLLAR: byte := '$' as byte
  const STAR: byte := '*' as byte
  const ZERO: byte := '0' as byte
  const NINE: byte := '9' as byte

  /** The line terminator of the protocol. */
  const CRLF: seq<byte> := [CR, LF]

  const I64_MIN: int := -0x8000_0000_0000_0000
  const I64_MAX: int := 0x7FFF_FFFF_FFFF_FFFF
  /** `usize` on a 64-bit target. */
  const USIZE_MAX: int := 0xFFFF_FFFF_FFFF_FFFF

  /** Rust's `i64`. */
  newtype i64 = x: int | I64_MIN <= x <= I64_MAX

  /** The bytes of an ASCII string literal. */
  function Bytes(s: string): (r: seq<byte>)
    requires forall i | 0 <= i < |s| :: s[i] < 128 as char
    ensures |r| == |s|
    ensures forall i | 0 <= i < |s| :: r[i] as int == s[i] as int && r[i] < 0x80
  {
    seq(|s|, i requires 0 <= i < |s| => s[i] as byte)
  }

  predicate IsDigit(b: byte) {
    ZERO <= b <= NINE
  }

  predicate AllDigits(s: seq<byte>) {
    forall i | 0 <= i < |s| :: IsDigit(s[i])
  }

  /** The value of a run of decimal digits, most significant first
      (empty digits are worth 0). */
  function DigitsValue(s: seq<byte>): nat
    requires AllDigits(s)
  {
    if s == [] then 0 else DigitsValue(s[..|s| - 1]) * 10 + (s[|s| - 1] - ZERO) as int
  }

  function DigitOf(d: nat): (b: byte)
    requires d < 10
    ensures IsDigit(b) && (b - ZERO) as int == d
  {
    (ZERO as int + d) as byte
  }

  /** Rust's `Display` for an unsigned integer: shortest decimal form. */
  function Decimal(n: nat): (r: seq<byte>)
    ensures |r| > 0 && AllDigits(r)
    ensures DigitsValue(r) == n
    ensures r[0] == ZERO <==> n == 0
    ensures n == 0 ==> r == [ZERO]
  {
    if n < 10 then [DigitOf(n)]
    else
      var front := Decimal(n / 10);
      var r := front + [DigitOf(n % 10)];
      assert r[..|r| - 1] == front;
      r
  }

  /** Rust's `Display` for a signed integer: a `-` before the magnitude of a
      negative value. */
  function SignedDecimal(i: int): (r: seq<byte>)
    ensures |r| > 0
    ensures r[0] == MINUS <==> i < 0
  {
    if i < 0 then [MINUS] + Decimal(-i) else Decimal(i)
  }

  /** The optional leading sign accepted by Rust's integer `from_str`: `+`
      always, `-` only for a signed target. A sign alone is no number.
      Yields the sign (true for negative) and the digits after it. */
  function SplitSign(s: seq<byte>, signed: bool): Option<(bool, seq<byte>)>
  {
    if s == [] then None
    else if (s[0] == PLUS || s[0] == MINUS) && |s| == 1 then None
    else if s[0] == PLUS then Some((false, s[1..]))
    else if s[0] == MINUS && signed then Some((true, s[1..]))
    else Some((false, s))
  }

  /** `str::parse::<i64>`: optional sign, one or more decimal digits, value
      within the range of `i64`. Any other text is an error. */
  function ParseI64(s: seq<byte>): (r: Option<i64>)
    ensures r.Some? ==> |s| > 0 && (r.value < 0 ==> s[0] == MINUS)
  {
    match SplitSign(s, true)
    case None => None
    case Some((negative, digits)) =>
      if !AllDigits(digits) then None
      else
        var magnitude: int := DigitsValue(digits);
        var v := if negative then -magnitude else magnitude;
        if I64_MIN <= v <= I64_MAX then Some(v as i64) else None
  }

  /** `str::parse::<usize>`: optional `+`, one or more decimal digits, value
      at most `USIZE_MAX`. A `-` sign is an error. */
  function ParseUsize(s: seq<byte>): (r: Option<nat>)
    ensures r.Some? ==> r.value <= USIZE_MAX
    ensures |s| > 0 && s[0] == MINUS ==> r == None
  {
    match SplitSign(s, false)
    case None => None
    case Some((_, digits)) =>
      if AllDigits(digits) && DigitsValue(digits) <= USIZE_MAX then Some(DigitsValue(digits)) else None
  }

  /** The shortest decimal form of a length parses back to that length. */
  lemma ParseUsizeDecimal(n: nat)
    requires n <= USIZE_MAX
    ensures ParseUsize(Decimal(n)) == Some(n)
  {
    var d := Decimal(n);
    assert IsDigit(d[0]);
  }

  /** The decimal form of an `i64` parses back to it. */
  lemma ParseI64SignedDecimal(i: i64)
    ensures ParseI64(SignedDecimal(i as int)) == Some(i)
  {
    var s := SignedDecimal(i as int);
    if i < 0 {
      var d := Decimal(-(i as int));
      assert IsDigit(d[0]);
      assert s[1..] == d;
    } else {
      assert IsDigit(s[0]);
    }
  }

  predicate IsUpper(b: byte) {
    'A' as byte <= b <= 'Z' as byte
  }

  predicate IsLower(b: byte) {
    'a' as byte <= b <= 'z' as byte
  }

  /** ASCII lower-casing of one byte: the result is never an upper-case
      letter, letters stay letters, and every other byte is left alone. */
  function ToLower(b: byte): (r: byte)
    ensures !IsUpper(r)
    ensures IsLower(r) <==> IsUpper(b) || IsLower(b)
    ensures !IsUpper(b) ==> r == b
  {
    if IsUpper(b) then b + 32 else b
  }

  /** Two bytes fold to the same byte exactly when they are equal or are
      the upper- and lower-case forms of one ASCII letter. */
  lemma ToLowerMatches(a: byte, b: byte)
    ensures ToLower(a) == ToLower(b) <==>
              || a == b
              || (IsUpper(a) && b as int == a as int + 32)
              || (IsUpper(b) && a as int == b as int + 32)
  {
  }

  /** `name`, lower-cased, equals the lower-case word `word`. */
  predicate EqualsIgnoreCase(name: seq<byte>, word: seq<byte>) {
    |name| == |word| && forall i | 0 <= i < |name| :: ToLower(name[i]) == word[i]
  }

  /** Two names that agree up to ASCII case. */
  predicate SameIgnoringCase(a: seq<byte>, b: seq<byte>) {
    |a| == |b| && forall i | 0 <= i < |a| :: ToLower(a[i]) == ToLower(b[i])
  }
}
