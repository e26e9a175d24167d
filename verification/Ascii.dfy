/** ASCII character classes. A byte of a C string is a `char`; a byte of a multi-byte UTF-8
    character is at least 0x80 and so belongs to none of these classes. */
module Ascii {
  predicate IsDigit(c: char) { '0' <= c <= '9' }
  predicate IsUpper(c: char) { 'A' <= c <= 'Z' }
  predicate IsLower(c: char) { 'a' <= c <= 'z' }
  predicate IsAlpha(c: char) { IsUpper(c) || IsLower(c) }
  predicate IsWord(c: char) { IsAlpha(c) || IsDigit(c) || c == '_' }
  predicate IsContinuation(c: char) { 0x80 <= c as int < 0xC0 }

  /** A byte whose two highest bits are one and zero. */
  lemma ContinuationBits(c: char)
    ensures IsContinuation(c) <==> c as int / 64 == 2
  {
  }

  /** From n back to the start of the UTF-8 sequence it falls in. */
  function BackUp(v: string, n: nat): (k: nat)
    requires n < |v|
    ensures k <= n && (k == 0 || !IsContinuation(v[k]))
    ensures forall j :: k < j <= n ==> IsContinuation(v[j])
    decreases n, |v|
  {
    if n > 0 && IsContinuation(v[n]) then BackUp(v, n - 1) else n
  }

  /** The number a decimal digit stands for. */
  function DigitValue(c: char): (v: nat)
    requires IsDigit(c)
    ensures v <= 9
  {
    c as int - '0' as int
  }
}
