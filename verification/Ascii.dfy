/** Byte classes and hexadecimal digits. */
module Ascii {
  import opened Text

  const PERCENT: Byte := 37
  const SLASH: Byte := 47
  const COLON: Byte := 58
  const QUESTION: Byte := 63
  const HASH: Byte := 35
  const DOT: Byte := 46
  const PLUS: Byte := 43
  const MINUS: Byte := 45
  const AMPERSAND: Byte := 38
  const EQUALS: Byte := 61
  const AT: Byte := 64
  const OPEN_BRACKET: Byte := 91
  const CLOSE_BRACKET: Byte := 93
  const SPACE: Byte := 32

  predicate IsDigit(b: Byte) { 48 <= b <= 57 }

  predicate IsAlpha(b: Byte) { 65 <= b <= 90 || 97 <= b <= 122 }

  predicate IsAlphanumeric(b: Byte) { IsDigit(b) || 65 <= b <= 90 || 97 <= b <= 122 }

  predicate IsHex(b: Byte) { IsDigit(b) || 65 <= b <= 70 || 97 <= b <= 102 }

  /** Unreserved characters, section 2.3 of RFC 3986. */
  predicate IsUnreserved(b: Byte) {
    IsAlphanumeric(b) || b == 45 || b == 46 || b == 95 || b == 126
  }

  predicate IsFormUnescaped(b: Byte) {
    IsAlphanumeric(b) || b == 42 || b == 45 || b == 46 || b == 95
  }

  predicate AllDigits(s: Str) { forall k :: 0 <= k < |s| ==> IsDigit(s[k]) }

  predicate AllHex(s: Str) { forall k :: 0 <= k < |s| ==> IsHex(s[k]) }

  function HexValue(b: Byte): (v: Byte)
    requires IsHex(b)
    ensures v < 16
  {
    if b <= 57 then b - 48 else if b <= 70 then b - 55 else b - 87
  }

  function HexDigitByte(v: Byte): (b: Byte)
    requires v < 16
    ensures IsHex(b) && HexValue(b) == v && !(97 <= b <= 102)
  {
    if v < 10 then v + 48 else v + 55
  }

  function LowerHexDigitByte(v: Byte): (b: Byte)
    requires v < 16
    ensures IsHex(b) && HexValue(b) == v && !(65 <= b <= 70)
  {
    if v < 10 then v + 48 else v + 87
  }

  function AsciiUpperHex(b: Byte): Byte {
    if 97 <= b <= 102 then b - 32 else b
  }

  function LowerByte(b: Byte): Byte {
    if 65 <= b <= 90 then b + 32 else b
  }

  function AsciiLower(s: Str): (r: Str)
    ensures |r| == |s|
    ensures forall k :: 0 <= k < |s| ==> r[k] == LowerByte(s[k])
  {
    if s == [] then [] else [LowerByte(s[0])] + AsciiLower(s[1..])
  }

  /** A percent escape of one byte, with upper-case digits. */
  function PercentByte(b: Byte): (r: Str)
    ensures |r| == 3
  {
    [PERCENT, HexDigitByte(b / 16), HexDigitByte(b % 16)]
  }

  lemma LowerIdempotent(s: Str)
    ensures AsciiLower(AsciiLower(s)) == AsciiLower(s)
  {
    assert forall k :: 0 <= k < |s| ==> AsciiLower(AsciiLower(s))[k] == AsciiLower(s)[k];
  }

  // ----- The same, as texts -----

  /** The bytes of an ASCII text. */
  function Lit(text: string): (s: Str)
    requires forall i :: 0 <= i < |text| ==> text[i] < 128 as char
    ensures |s| == |text| && forall i :: 0 <= i < |s| ==> s[i] == text[i] as int
  {
    seq(|text|, i requires 0 <= i < |text| => text[i] as int)
  }

  /** The named bytes are the marks they are named for. */
  lemma Marks()
    ensures [PERCENT, SLASH, COLON, QUESTION, HASH, DOT, PLUS, MINUS] == Lit("%/:?#.+-")
    ensures [AMPERSAND, EQUALS, AT, OPEN_BRACKET, CLOSE_BRACKET, SPACE] == Lit("&=@[] ")
  {
  }

  predicate OneOf(b: Byte, text: string) {
    b as char in text
  }

  predicate Within(b: Byte, low: char, high: char) {
    low <= b as char <= high
  }

  predicate LetterOrDigit(b: Byte) {
    Within(b, 'A', 'Z') || Within(b, 'a', 'z') || Within(b, '0', '9')
  }

  /** Which bytes each class holds. */
  lemma Classes(b: Byte)
    ensures IsDigit(b) <==> Within(b, '0', '9')
    ensures IsAlpha(b) <==> Within(b, 'A', 'Z') || Within(b, 'a', 'z')
    ensures IsAlphanumeric(b) <==> Within(b, 'A', 'Z') || Within(b, 'a', 'z') || Within(b, '0', '9')
    ensures IsHex(b) <==> Within(b, '0', '9') || Within(b, 'A', 'F') || Within(b, 'a', 'f')
    ensures IsUnreserved(b) <==> IsAlphanumeric(b) || OneOf(b, "-._~")
    ensures IsFormUnescaped(b) <==> IsAlphanumeric(b) || OneOf(b, "*-._")
  {
  }

  /** The hexadecimal digits, in both cases and both directions. */
  lemma HexTable(v: Byte)
    requires v < 16
    ensures HexDigitByte(v) == Lit("0123456789ABCDEF")[v]
    ensures LowerHexDigitByte(v) == Lit("0123456789abcdef")[v]
    ensures HexValue(HexDigitByte(v)) == v && HexValue(LowerHexDigitByte(v)) == v
    ensures AsciiUpperHex(LowerHexDigitByte(v)) == HexDigitByte(v) && AsciiUpperHex(HexDigitByte(v)) == HexDigitByte(v)
  {
  }

  /** Folding takes each capital to its small letter and leaves the other bytes. */
  lemma LowerTable(b: Byte)
    ensures Within(b, 'A', 'Z') ==> LowerByte(b) == b - 'A' as int + 'a' as int
    ensures !Within(b, 'A', 'Z') ==> LowerByte(b) == b
  {
  }
}
