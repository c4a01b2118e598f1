/** The machine-level ground the C code stands on: signed 8-bit `char`, 32-bit
    unsigned integers, and the truncating remainder of C. */
module Chars {

  /** A C `char` on the target (signed, 8 bits). */
  type Char = x: int | -128 <= x <= 127

  const U32_LIMIT := 0x1_0000_0000

  /** A C `uint32_t`. */
  type U32 = x: int | 0 <= x < 0x1_0000_0000

  const MAX_SIZE := 1024
  const ALPHABET_SIZE := 26

  const NUMBER_MIN: Char := 48
  const NUMBER_MAX: Char := 57
  const UPPER_MIN: Char := 65
  const UPPER_MAX: Char := 90
  const LOWER_MIN: Char := 97
  const LOWER_MAX: Char := 122

  predicate IsDigit(c: Char) {
    NUMBER_MIN <= c <= NUMBER_MAX
  }

  predicate IsLower(c: Char) {
    LOWER_MIN <= c <= LOWER_MAX
  }

  predicate IsUpper(c: Char) {
    UPPER_MIN <= c <= UPPER_MAX
  }

  predicate IsLetter(c: Char) {
    IsLower(c) || IsUpper(c)
  }

  predicate AllDigits(s: seq<Char>) {
    forall i :: 0 <= i < |s| ==> IsDigit(s[i])
  }

  predicate DigitFree(s: seq<Char>) {
    forall i :: 0 <= i < |s| ==> !IsDigit(s[i])
  }

  predicate AllLetters(s: seq<Char>) {
    forall i :: 0 <= i < |s| ==> IsLetter(s[i])
  }

  predicate Alphanumeric(s: seq<Char>) {
    forall i :: 0 <= i < |s| ==> IsLetter(s[i]) || IsDigit(s[i])
  }

  predicate NulFree(s: seq<Char>) {
    forall i :: 0 <= i < |s| ==> s[i] != 0
  }

  /** A string literal as C characters. */
  function Text(s: string): (r: seq<Char>)
    ensures |r| == |s|
    ensures forall i :: 0 <= i < |s| && s[i] as int < 128 ==> r[i] == s[i] as int
  {
    seq(|s|, i requires 0 <= i < |s| => ToChar(s[i] as int))
  }

  /** Storing an `int` into a `char` keeps its low 8 bits. */
  function ToChar(x: int): (r: Char)
    ensures -128 <= x <= 127 ==> r == x
  {
    (x + 128) % 256 - 128
  }

  /** The `%` of C: the result takes the sign of the dividend. */
  function CRem(a: int, n: int): int
    requires n > 0
  {
    if a >= 0 then a % n else -((-a) % n)
  }

  /** `n` copies of `c`. */
  function Rep<T>(c: T, n: nat): (r: seq<T>)
    ensures |r| == n && forall i :: 0 <= i < n ==> r[i] == c
  {
    seq(n, _ => c)
  }
}
