/** UTF-8 and UTF-16 transcoding with the machine's own 8, 16 and 32-bit
    operations, against the definitions of RFC 3629 and RFC 2781. */
module Transcode {
  import opened Text

  type Bytes = seq<bv8>

  type Units = seq<bv16>

  // ----- The code -----

  function ToU16Wrap(x: bv32): bv16 { (x & 0xFFFF) as bv16 }

  function ToU8Wrap(x: bv32): bv8 { (x & 0xFF) as bv8 }

  function CodePoint2(b1: bv8, b2: bv8): bv32 {
    (((b1 & 0x1F) as bv32) << 6) | ((b2 & 0x3F) as bv32)
  }

  function CodePoint3(b1: bv8, b2: bv8, b3: bv8): bv32 {
    ((((b1 & 0x0F) as bv32) << 12) | (((b2 & 0x3F) as bv32) << 6)) | ((b3 & 0x3F) as bv32)
  }

  function CodePoint4(b1: bv8, b2: bv8, b3: bv8, b4: bv8): bv32 {
    (((((b1 & 0x07) as bv32) << 18) | (((b2 & 0x3F) as bv32) << 12)) | (((b3 & 0x3F) as bv32) << 6))
    | ((b4 & 0x3F) as bv32)
  }

  function HighUnit(codePoint: bv32): bv16 {
    ToU16Wrap(0xD800 + ((codePoint - 0x10000) >> 10))
  }

  function LowUnit(codePoint: bv32): bv16 {
    ToU16Wrap(0xDC00 + ((codePoint - 0x10000) & 0x3FF))
  }

  /** `None` is the crash: bytes no arm matches, or a checked subtraction of
      0x10000 that would go below zero. */
  function Utf8ToUtf16(remaining: Bytes, out: Units): Option<Units> {
    if remaining == [] then Some(out)
    else if remaining[0] < 0x80 then Utf8ToUtf16(remaining[1..], out + [remaining[0] as bv16])
    else if |remaining| >= 2 && remaining[0] < 0xE0 then
      Utf8ToUtf16(remaining[2..], out + [ToU16Wrap(CodePoint2(remaining[0], remaining[1]))])
    else if |remaining| >= 3 && remaining[0] < 0xF0 then
      Utf8ToUtf16(remaining[3..], out + [ToU16Wrap(CodePoint3(remaining[0], remaining[1], remaining[2]))])
    else if |remaining| >= 4 then
      var codePoint := CodePoint4(remaining[0], remaining[1], remaining[2], remaining[3]);
      if codePoint < 0x10000 then None
      else Utf8ToUtf16(remaining[4..], out + [HighUnit(codePoint)] + [LowUnit(codePoint)])
    else None
  }

  predicate IsHighSurrogate(unit: bv16) { 0xD800 <= unit <= 0xDBFF }

  predicate IsLowSurrogate(unit: bv16) { 0xDC00 <= unit <= 0xDFFF }

  predicate IsSurrogate(unit: bv16) { 0xD800 <= unit <= 0xDFFF }

  function AppendCodePointUtf8(out: Bytes, codePoint: bv32): Bytes {
    if codePoint < 0x80 then out + [ToU8Wrap(codePoint)]
    else if codePoint < 0x800 then
      out + [ToU8Wrap(0xC0 + (codePoint >> 6))] + [ToU8Wrap(0x80 + (codePoint & 0x3F))]
    else if codePoint < 0x10000 then
      out + [ToU8Wrap(0xE0 + (codePoint >> 12))]
      + [ToU8Wrap(0x80 + ((codePoint >> 6) & 0x3F))] + [ToU8Wrap(0x80 + (codePoint & 0x3F))]
    else
      out + [ToU8Wrap(0xF0 + (codePoint >> 18))] + [ToU8Wrap(0x80 + ((codePoint >> 12) & 0x3F))]
      + [ToU8Wrap(0x80 + ((codePoint >> 6) & 0x3F))] + [ToU8Wrap(0x80 + (codePoint & 0x3F))]
  }

  function PairCodePoint(high: bv16, low: bv16): bv32
    requires IsHighSurrogate(high) && IsLowSurrogate(low)
  {
    0x10000 + ((high as bv32 - 0xD800) << 10) + (low as bv32 - 0xDC00)
  }

  /** `Err` carries the index of the unit that is refused. */
  function Utf16ToUtf8(remaining: Units, out: Bytes, index: nat): Result<Bytes, nat> {
    if remaining == [] then Ok(out)
    else if |remaining| >= 2 && IsHighSurrogate(remaining[0]) && IsLowSurrogate(remaining[1]) then
      Utf16ToUtf8(remaining[2..], AppendCodePointUtf8(out, PairCodePoint(remaining[0], remaining[1])), index + 2)
    else if IsSurrogate(remaining[0]) then Err(index)
    else Utf16ToUtf8(remaining[1..], AppendCodePointUtf8(out, remaining[0] as bv32), index + 1)
  }

  function Utf16ToUtf8Lossy(remaining: Units, out: Bytes): Bytes {
    if remaining == [] then out
    else if |remaining| >= 2 && IsHighSurrogate(remaining[0]) && IsLowSurrogate(remaining[1]) then
      Utf16ToUtf8Lossy(remaining[2..], AppendCodePointUtf8(out, PairCodePoint(remaining[0], remaining[1])))
    else if IsSurrogate(remaining[0]) then Utf16ToUtf8Lossy(remaining[1..], AppendCodePointUtf8(out, 0xFFFD))
    else Utf16ToUtf8Lossy(remaining[1..], AppendCodePointUtf8(out, remaining[0] as bv32))
  }

  // ----- UTF-8: sections 3 and 4 of RFC 3629 -----

  /** A character number outside the surrogate range. */
  type Scalar = v: bv32 | v < 0xD800 || 0xE000 <= v <= 0x10FFFF

  predicate IsTail(b: bv8) { 0x80 <= b <= 0xBF }

  predicate Char2(a: bv8, b: bv8) { 0xC2 <= a <= 0xDF && IsTail(b) }

  predicate Char3(a: bv8, b: bv8, c: bv8) {
    && IsTail(c)
    && (   (a == 0xE0 && 0xA0 <= b <= 0xBF) || (0xE1 <= a <= 0xEC && IsTail(b))
        || (a == 0xED && 0x80 <= b <= 0x9F) || (0xEE <= a <= 0xEF && IsTail(b)))
  }

  predicate Char4(a: bv8, b: bv8, c: bv8, d: bv8) {
    && IsTail(c) && IsTail(d)
    && (   (a == 0xF0 && 0x90 <= b <= 0xBF) || (0xF1 <= a <= 0xF3 && IsTail(b))
        || (a == 0xF4 && 0x80 <= b <= 0x8F))
  }

  /** UTF8-octets of one character, by the grammar of section 4. */
  predicate Utf8Char(s: Bytes) {
    || (|s| == 1 && s[0] <= 0x7F)
    || (|s| == 2 && Char2(s[0], s[1]))
    || (|s| == 3 && Char3(s[0], s[1], s[2]))
    || (|s| == 4 && Char4(s[0], s[1], s[2], s[3]))
  }

  /** Character numbers: the payload of each octet, most significant first. */
  function Value2(a: bv8, b: bv8): bv32 { (a as bv32 - 0xC0) * 0x40 + (b as bv32 - 0x80) }

  function Value3(a: bv8, b: bv8, c: bv8): bv32 {
    (a as bv32 - 0xE0) * 0x1000 + (b as bv32 - 0x80) * 0x40 + (c as bv32 - 0x80)
  }

  function Value4(a: bv8, b: bv8, c: bv8, d: bv8): bv32 {
    (a as bv32 - 0xF0) * 0x4_0000 + (b as bv32 - 0x80) * 0x1000 + (c as bv32 - 0x80) * 0x40 + (d as bv32 - 0x80)
  }

  function Utf8Value(s: Bytes): Scalar
    requires Utf8Char(s)
  {
    if |s| == 1 then s[0] as bv32
    else if |s| == 2 then Value2(s[0], s[1])
    else if |s| == 3 then Value3(s[0], s[1], s[2])
    else Value4(s[0], s[1], s[2], s[3])
  }

  /** Octets in the character that starts with `b`, or 0 if none does. */
  function Utf8Length(b: bv8): nat {
    if b <= 0x7F then 1
    else if 0xC2 <= b <= 0xDF then 2
    else if 0xE0 <= b <= 0xEF then 3
    else if 0xF0 <= b <= 0xF4 then 4
    else 0
  }

  /** The characters a byte string encodes, if it is UTF-8. */
  function DecodeUtf8(s: Bytes): Option<seq<Scalar>> {
    if s == [] then Some([])
    else
      var n := Utf8Length(s[0]);
      if n == 0 || n > |s| || !Utf8Char(s[..n]) then None
      else
        match DecodeUtf8(s[n..])
        case None => None
        case Some(rest) => Some([Utf8Value(s[..n])] + rest)
  }

  // ----- UTF-16: sections 2.1 and 2.2 of RFC 2781 -----

  predicate Utf16Char(s: Units) {
    || (|s| == 1 && !IsSurrogate(s[0]))
    || (|s| == 2 && IsHighSurrogate(s[0]) && IsLowSurrogate(s[1]))
  }

  function PairValue(high: bv16, low: bv16): bv32 {
    0x10000 + (high as bv32 - 0xD800) * 0x400 + (low as bv32 - 0xDC00)
  }

  function Utf16Value(s: Units): Scalar
    requires Utf16Char(s)
  {
    if |s| == 1 then s[0] as bv32 else PairValue(s[0], s[1])
  }

  /** The characters a unit string encodes, if it is UTF-16. */
  function DecodeUtf16(s: Units): Option<seq<Scalar>> {
    if s == [] then Some([])
    else
      var n := if IsHighSurrogate(s[0]) then 2 else 1;
      if n > |s| || !Utf16Char(s[..n]) then None
      else
        match DecodeUtf16(s[n..])
        case None => None
        case Some(rest) => Some([Utf16Value(s[..n])] + rest)
  }

  // ----- One character at a time: the bits -----

  lemma Encode1(v: bv32)
    requires v < 0x80
    ensures ToU8Wrap(v) <= 0x7F && ToU8Wrap(v) as bv32 == v
  {
  }

  lemma Encode2(v: bv32)
    requires 0x80 <= v < 0x800
    ensures var a, b := ToU8Wrap(0xC0 + (v >> 6)), ToU8Wrap(0x80 + (v & 0x3F));
            Char2(a, b) && Value2(a, b) == v
  {
  }

  lemma Payloads3(v: bv32)
    requires 0x800 <= v < 0x10000 && !(0xD800 <= v < 0xE000)
    ensures var a, b, c := ToU8Wrap(0xE0 + (v >> 12)), ToU8Wrap(0x80 + ((v >> 6) & 0x3F)), ToU8Wrap(0x80 + (v & 0x3F));
            && a as bv32 - 0xE0 == v >> 12 && b as bv32 - 0x80 == (v >> 6) & 0x3F && c as bv32 - 0x80 == v & 0x3F
            && Char3(a, b, c)
  {
  }

  lemma Sum3(v: bv32)
    requires v < 0x10000
    ensures (v >> 12) * 0x1000 + ((v >> 6) & 0x3F) * 0x40 + (v & 0x3F) == v
  {
  }

  lemma Encode3(v: bv32)
    requires 0x800 <= v < 0x10000 && !(0xD800 <= v < 0xE000)
    ensures var a, b, c := ToU8Wrap(0xE0 + (v >> 12)), ToU8Wrap(0x80 + ((v >> 6) & 0x3F)), ToU8Wrap(0x80 + (v & 0x3F));
            Char3(a, b, c) && Value3(a, b, c) == v
  {
    hide ToU8Wrap, Char3;
    Payloads3(v);
    Sum3(v);
  }

  /** The payloads of the four octets, and their sum. */
  lemma Payloads4(v: bv32)
    requires 0x10000 <= v <= 0x10FFFF
    ensures var a, b, c, d := ToU8Wrap(0xF0 + (v >> 18)), ToU8Wrap(0x80 + ((v >> 12) & 0x3F)),
                              ToU8Wrap(0x80 + ((v >> 6) & 0x3F)), ToU8Wrap(0x80 + (v & 0x3F));
            && a as bv32 - 0xF0 == v >> 18 && b as bv32 - 0x80 == (v >> 12) & 0x3F
            && c as bv32 - 0x80 == (v >> 6) & 0x3F && d as bv32 - 0x80 == v & 0x3F
            && Char4(a, b, c, d)
  {
  }

  lemma Sum4(v: bv32)
    requires 0x10000 <= v <= 0x10FFFF
    ensures (v >> 18) * 0x4_0000 + ((v >> 12) & 0x3F) * 0x1000 + ((v >> 6) & 0x3F) * 0x40 + (v & 0x3F) == v
  {
  }

  lemma Encode4(v: bv32)
    requires 0x10000 <= v <= 0x10FFFF
    ensures var a, b, c, d := ToU8Wrap(0xF0 + (v >> 18)), ToU8Wrap(0x80 + ((v >> 12) & 0x3F)),
                              ToU8Wrap(0x80 + ((v >> 6) & 0x3F)), ToU8Wrap(0x80 + (v & 0x3F));
            Char4(a, b, c, d) && Value4(a, b, c, d) == v
  {
    hide ToU8Wrap, Char4;
    Payloads4(v);
    Sum4(v);
  }

  lemma PayloadHigh(v: bv32)
    requires 0x10000 <= v <= 0x10FFFF
    ensures IsHighSurrogate(HighUnit(v)) && HighUnit(v) as bv32 - 0xD800 == (v - 0x10000) >> 10
  {
  }

  lemma PayloadLow(v: bv32)
    requires 0x10000 <= v <= 0x10FFFF
    ensures IsLowSurrogate(LowUnit(v)) && LowUnit(v) as bv32 - 0xDC00 == (v - 0x10000) & 0x3FF
  {
  }

  lemma SumPair(v: bv32)
    requires v <= 0xFFFFF
    ensures (v >> 10) * 0x400 + (v & 0x3FF) == v
  {
  }

  lemma EncodePair(v: bv32)
    requires 0x10000 <= v <= 0x10FFFF
    ensures IsHighSurrogate(HighUnit(v)) && IsLowSurrogate(LowUnit(v)) && PairValue(HighUnit(v), LowUnit(v)) == v
  {
    hide HighUnit, LowUnit, IsHighSurrogate, IsLowSurrogate;
    PayloadHigh(v);
    PayloadLow(v);
    SumPair(v - 0x10000);
  }

  /** The code's decoding of two octets, and its re-encoding. */
  lemma Decode2(a: bv8, b: bv8)
    requires Char2(a, b)
    ensures CodePoint2(a, b) == Value2(a, b) && 0x80 <= Value2(a, b) < 0x800
    ensures var v := Value2(a, b); ToU8Wrap(0xC0 + (v >> 6)) == a && ToU8Wrap(0x80 + (v & 0x3F)) == b
  {
  }

  lemma Decode3(a: bv8, b: bv8, c: bv8)
    requires Char3(a, b, c)
    ensures CodePoint3(a, b, c) == Value3(a, b, c)
    ensures 0x800 <= Value3(a, b, c) < 0x10000 && !(0xD800 <= Value3(a, b, c) < 0xE000)
    ensures var v := Value3(a, b, c);
            ToU8Wrap(0xE0 + (v >> 12)) == a && ToU8Wrap(0x80 + ((v >> 6) & 0x3F)) == b && ToU8Wrap(0x80 + (v & 0x3F)) == c
  {
  }

  lemma Decode4(a: bv8, b: bv8, c: bv8, d: bv8)
    requires Char4(a, b, c, d)
    ensures CodePoint4(a, b, c, d) == Value4(a, b, c, d) && 0x10000 <= Value4(a, b, c, d) <= 0x10FFFF
  {
  }

  lemma Reencode4(a: bv8, b: bv8, c: bv8, d: bv8)
    requires Char4(a, b, c, d)
    ensures var v := CodePoint4(a, b, c, d);
            && ToU8Wrap(0xF0 + (v >> 18)) == a && ToU8Wrap(0x80 + ((v >> 12) & 0x3F)) == b
            && ToU8Wrap(0x80 + ((v >> 6) & 0x3F)) == c && ToU8Wrap(0x80 + (v & 0x3F)) == d
  {
  }

  lemma DecodePair(high: bv16, low: bv16)
    requires IsHighSurrogate(high) && IsLowSurrogate(low)
    ensures PairCodePoint(high, low) == PairValue(high, low) && 0x10000 <= PairValue(high, low) <= 0x10FFFF
    ensures HighUnit(PairValue(high, low)) == high && LowUnit(PairValue(high, low)) == low
  {
  }

  // ----- One character at a time: the strings -----

  function EncodeUtf8(v: Scalar): Bytes { AppendCodePointUtf8([], v) }

  function EncodeUtf16(v: Scalar): Units {
    if v < 0x10000 then [ToU16Wrap(v)] else [HighUnit(v), LowUnit(v)]
  }

  lemma AppendIsEncode(out: Bytes, v: Scalar)
    ensures AppendCodePointUtf8(out, v) == out + EncodeUtf8(v)
  {
    hide ToU8Wrap;
  }

  lemma EncodeUtf8Means(v: Scalar)
    ensures Utf8Char(EncodeUtf8(v)) && Utf8Value(EncodeUtf8(v)) == v
  {
    hide ToU8Wrap, Char2, Char3, Char4, Value2, Value3, Value4;
    if v < 0x80 {
      Encode1(v);
    } else if v < 0x800 {
      Encode2(v);
    } else if v < 0x10000 {
      Encode3(v);
    } else {
      Encode4(v);
    }
  }

  lemma EncodeUnit(v: bv32)
    requires v < 0x10000
    ensures ToU16Wrap(v) as bv32 == v
    ensures v < 0xD800 || 0xE000 <= v ==> !IsSurrogate(ToU16Wrap(v))
  {
  }

  lemma EncodeUtf16Means(v: Scalar)
    ensures Utf16Char(EncodeUtf16(v)) && Utf16Value(EncodeUtf16(v)) == v
  {
    hide HighUnit, LowUnit, PairValue;
    if v < 0x10000 { EncodeUnit(v); } else { EncodePair(v); }
  }

  lemma UnitIsScalar(unit: bv16)
    requires !IsSurrogate(unit)
    ensures var v := unit as bv32; v < 0x10000 && (v < 0xD800 || 0xE000 <= v) && ToU16Wrap(v) == unit
  {
  }

  lemma Byte1(b: bv8)
    requires b <= 0x7F
    ensures (b as bv32) < 0x80 && ToU8Wrap(b as bv32) == b && ToU16Wrap(b as bv32) == b as bv16
  {
  }

  lemma EncodeOfShort(s: Bytes)
    requires Utf8Char(s) && |s| <= 2
    ensures EncodeUtf8(Utf8Value(s)) == s
  {
    hide ToU8Wrap, Char2, Char3, Char4, Value2;
    if |s| == 1 { Byte1(s[0]); } else { Decode2(s[0], s[1]); }
  }

  function ThreeOctets(v: bv32): Bytes {
    [ToU8Wrap(0xE0 + (v >> 12)), ToU8Wrap(0x80 + ((v >> 6) & 0x3F)), ToU8Wrap(0x80 + (v & 0x3F))]
  }

  lemma EncodeMiddle(v: Scalar)
    requires 0x800 <= v < 0x10000
    ensures EncodeUtf8(v) == ThreeOctets(v)
  {
    hide ToU8Wrap;
  }

  lemma ThreeOctetsOf(a: bv8, b: bv8, c: bv8)
    requires Char3(a, b, c)
    ensures ThreeOctets(Value3(a, b, c)) == [a, b, c]
  {
    hide ToU8Wrap, Char3, Value3, CodePoint3;
    Decode3(a, b, c);
  }

  lemma EncodeOf3(s: Bytes)
    requires Utf8Char(s) && |s| == 3
    ensures EncodeUtf8(Utf8Value(s)) == s
  {
    hide EncodeUtf8, ThreeOctets, Char2, Char3, Char4, Value3;
    Decode3(s[0], s[1], s[2]);
    ThreeOctetsOf(s[0], s[1], s[2]);
    EncodeMiddle(Utf8Value(s));
    assert s == [s[0], s[1], s[2]];
  }

  function FourOctets(v: bv32): Bytes {
    [ToU8Wrap(0xF0 + (v >> 18)), ToU8Wrap(0x80 + ((v >> 12) & 0x3F)),
     ToU8Wrap(0x80 + ((v >> 6) & 0x3F)), ToU8Wrap(0x80 + (v & 0x3F))]
  }

  lemma EncodeLong(v: Scalar)
    requires v >= 0x10000
    ensures EncodeUtf8(v) == FourOctets(v)
  {
    hide ToU8Wrap;
  }

  lemma FourOctetsOf(a: bv8, b: bv8, c: bv8, d: bv8)
    requires Char4(a, b, c, d)
    ensures FourOctets(Value4(a, b, c, d)) == [a, b, c, d]
  {
    hide ToU8Wrap, Char4, Value4, CodePoint4;
    Decode4(a, b, c, d);
    Reencode4(a, b, c, d);
  }

  lemma EncodeOf4(s: Bytes)
    requires Utf8Char(s) && |s| == 4
    ensures EncodeUtf8(Utf8Value(s)) == s
  {
    hide EncodeUtf8, FourOctets, Char2, Char3, Char4, Value4;
    Decode4(s[0], s[1], s[2], s[3]);
    FourOctetsOf(s[0], s[1], s[2], s[3]);
    EncodeLong(Utf8Value(s));
    assert s == [s[0], s[1], s[2], s[3]];
  }

  /** A UTF-8 character is the encoding of its number. */
  lemma EncodeOfUtf8(s: Bytes)
    requires Utf8Char(s)
    ensures EncodeUtf8(Utf8Value(s)) == s
  {
    hide EncodeUtf8, Utf8Value;
    if |s| <= 2 { EncodeOfShort(s); } else if |s| == 3 { EncodeOf3(s); } else { EncodeOf4(s); }
  }

  lemma EncodeOfUtf16(s: Units)
    requires Utf16Char(s)
    ensures EncodeUtf16(Utf16Value(s)) == s
  {
    hide HighUnit, LowUnit, PairValue, ToU16Wrap;
    if |s| == 1 { UnitIsScalar(s[0]); } else { DecodePair(s[0], s[1]); }
  }

  // ----- Whole strings -----

  /** The UTF-8 of a text. */
  function Utf8Of(text: seq<Scalar>): Bytes {
    if text == [] then [] else EncodeUtf8(text[0]) + Utf8Of(text[1..])
  }

  /** The UTF-16 of a text. */
  function Utf16Of(text: seq<Scalar>): Units {
    if text == [] then [] else EncodeUtf16(text[0]) + Utf16Of(text[1..])
  }

  lemma LengthOfChar(s: Bytes, rest: Bytes)
    requires Utf8Char(s)
    ensures (s + rest)[0] == s[0] && Utf8Length(s[0]) == |s|
    ensures (s + rest)[..|s|] == s && (s + rest)[|s|..] == rest
  {
  }

  lemma CharIsNonEmpty(s: Bytes)
    requires Utf8Char(s)
    ensures 1 <= |s| <= 4
  {
  }

  /** Decoding undoes encoding. */
  lemma {:induction false} DecodeUtf8Of(text: seq<Scalar>)
    ensures DecodeUtf8(Utf8Of(text)) == Some(text)
  {
    if text != [] {
      hide Utf8Char, Utf8Value, EncodeUtf8, Utf8Length;
      EncodeUtf8Means(text[0]);
      LengthOfChar(EncodeUtf8(text[0]), Utf8Of(text[1..]));
      CharIsNonEmpty(EncodeUtf8(text[0]));
      DecodeUtf8Of(text[1..]);
      assert text == [text[0]] + text[1..];
    }
  }

  /** Encoding undoes decoding. */
  lemma {:induction false} Utf8OfDecoded(s: Bytes)
    requires DecodeUtf8(s).Some?
    ensures Utf8Of(DecodeUtf8(s).value) == s
    decreases |s|
  {
    hide Utf8Char, Utf8Value, EncodeUtf8, Utf8Length;
    if s != [] {
      var n := Utf8Length(s[0]);
      EncodeOfUtf8(s[..n]);
      Utf8OfDecoded(s[n..]);
      assert s == s[..n] + s[n..];
    }
  }

  lemma UnitLength(s: Units)
    requires Utf16Char(s)
    ensures |s| == if IsHighSurrogate(s[0]) then 2 else 1
  {
  }

  lemma {:induction false} DecodeUtf16Of(text: seq<Scalar>)
    ensures DecodeUtf16(Utf16Of(text)) == Some(text)
  {
    if text != [] {
      hide Utf16Value, EncodeUtf16, IsSurrogate;
      var s, rest := EncodeUtf16(text[0]), Utf16Of(text[1..]);
      EncodeUtf16Means(text[0]);
      UnitLength(s);
      assert (s + rest)[..|s|] == s && (s + rest)[|s|..] == rest && (s + rest)[0] == s[0];
      DecodeUtf16Of(text[1..]);
      assert text == [text[0]] + text[1..];
    }
  }

  lemma {:induction false} Utf16OfDecoded(s: Units)
    requires DecodeUtf16(s).Some?
    ensures Utf16Of(DecodeUtf16(s).value) == s
    decreases |s|
  {
    if s != [] {
      hide Utf16Char, Utf16Value, EncodeUtf16;
      var n := if IsHighSurrogate(s[0]) then 2 else 1;
      EncodeOfUtf16(s[..n]);
      Utf16OfDecoded(s[n..]);
      assert s == s[..n] + s[n..];
    }
  }

  /** One step of the code on a valid character. */
  lemma Utf8Step(s: Bytes, out: Units)
    requires s != [] && DecodeUtf8(s).Some?
    ensures var n := Utf8Length(s[0]);
            && 1 <= n <= |s| && Utf8Char(s[..n])
            && Utf8ToUtf16(s, out) == Utf8ToUtf16(s[n..], out + EncodeUtf16(Utf8Value(s[..n])))
  {
    hide CodePoint2, CodePoint3, CodePoint4, ToU16Wrap, HighUnit, LowUnit, Value2, Value3, Value4;
    var n := Utf8Length(s[0]);
    if n == 1 {
      Byte1(s[0]);
    } else if n == 2 {
      Decode2(s[0], s[1]);
    } else if n == 3 {
      Decode3(s[0], s[1], s[2]);
    } else {
      Decode4(s[0], s[1], s[2], s[3]);
      assert out + [HighUnit(Utf8Value(s[..n]))] + [LowUnit(Utf8Value(s[..n]))] == out + EncodeUtf16(Utf8Value(s[..n]));
    }
  }

  /** On valid UTF-8 the code does not crash and writes the UTF-16 of the same
      text. */
  lemma {:induction false} Utf8ToUtf16Means(s: Bytes, out: Units)
    requires DecodeUtf8(s).Some?
    ensures Utf8ToUtf16(s, out) == Some(out + Utf16Of(DecodeUtf8(s).value))
    decreases |s|
  {
    if s == [] {
      assert out + Utf16Of([]) == out;
    } else {
      hide Utf8Char, Utf8Value, EncodeUtf16;
      Utf8Step(s, out);
      var n := Utf8Length(s[0]);
      var unit := EncodeUtf16(Utf8Value(s[..n]));
      Utf8ToUtf16Means(s[n..], out + unit);
      var rest := DecodeUtf8(s[n..]).value;
      assert DecodeUtf8(s).value[1..] == rest;
      assert out + unit + Utf16Of(rest) == out + (unit + Utf16Of(rest));
    }
  }

  lemma Utf16Step(s: Units, out: Bytes, index: nat)
    requires s != [] && DecodeUtf16(s).Some?
    ensures var n := if IsHighSurrogate(s[0]) then 2 else 1;
            && 1 <= n <= |s| && Utf16Char(s[..n])
            && Utf16ToUtf8(s, out, index) == Utf16ToUtf8(s[n..], out + EncodeUtf8(Utf16Value(s[..n])), index + n)
  {
    hide PairCodePoint, PairValue, AppendCodePointUtf8;
    if IsHighSurrogate(s[0]) { DecodePair(s[0], s[1]); } else { UnitIsScalar(s[0]); }
    var n := if IsHighSurrogate(s[0]) then 2 else 1;
    AppendIsEncode(out, Utf16Value(s[..n]));
  }

  /** On well-formed UTF-16 the code succeeds and writes the UTF-8 of the same
      text. */
  lemma {:induction false} Utf16ToUtf8Means(s: Units, out: Bytes, index: nat)
    requires DecodeUtf16(s).Some?
    ensures Utf16ToUtf8(s, out, index) == Ok(out + Utf8Of(DecodeUtf16(s).value))
    decreases |s|
  {
    if s == [] {
      assert out + Utf8Of([]) == out;
    } else {
      hide Utf16Char, Utf16Value, EncodeUtf8;
      Utf16Step(s, out, index);
      var n := if IsHighSurrogate(s[0]) then 2 else 1;
      var char' := EncodeUtf8(Utf16Value(s[..n]));
      Utf16ToUtf8Means(s[n..], out + char', index + n);
      var rest := DecodeUtf16(s[n..]).value;
      assert DecodeUtf16(s).value[1..] == rest;
      assert out + char' + Utf8Of(rest) == out + (char' + Utf8Of(rest));
    }
  }

  /** The two transcoders are inverse between all valid UTF-8 and all
      well-formed UTF-16, each lands in the other's valid set, and both keep
      the text. */
  lemma Utf8RoundTrip(s: Bytes)
    requires DecodeUtf8(s).Some?
    ensures Utf8ToUtf16(s, []).Some?
    ensures DecodeUtf16(Utf8ToUtf16(s, []).value) == DecodeUtf8(s)
    ensures Utf16ToUtf8(Utf8ToUtf16(s, []).value, [], 0) == Ok(s)
  {
    var text := DecodeUtf8(s).value;
    Utf8ToUtf16Means(s, []);
    assert [] + Utf16Of(text) == Utf16Of(text);
    DecodeUtf16Of(text);
    Utf16ToUtf8Means(Utf16Of(text), [], 0);
    Utf8OfDecoded(s);
    assert [] + Utf8Of(text) == Utf8Of(text);
  }

  lemma Utf16RoundTrip(s: Units)
    requires DecodeUtf16(s).Some?
    ensures Utf16ToUtf8(s, [], 0).Ok?
    ensures DecodeUtf8(Utf16ToUtf8(s, [], 0).value) == DecodeUtf16(s)
    ensures Utf8ToUtf16(Utf16ToUtf8(s, [], 0).value, []) == Some(s)
  {
    var text := DecodeUtf16(s).value;
    Utf16ToUtf8Means(s, [], 0);
    assert [] + Utf8Of(text) == Utf8Of(text);
    DecodeUtf8Of(text);
    Utf8ToUtf16Means(Utf8Of(text), []);
    Utf16OfDecoded(s);
    assert [] + Utf16Of(text) == Utf16Of(text);
  }

  // ----- Unpaired surrogates -----

  /** The unit at `i` is half of no pair. */
  predicate Unpaired(s: Units, i: nat)
    requires i < |s|
  {
    || (IsHighSurrogate(s[i]) && !(i + 1 < |s| && IsLowSurrogate(s[i + 1])))
    || (IsLowSurrogate(s[i]) && !(i > 0 && IsHighSurrogate(s[i - 1])))
  }

  ghost predicate WellFormed(s: Units) {
    forall i :: 0 <= i < |s| ==> !Unpaired(s, i)
  }

  /** A position where the code starts a character: not inside a pair. */
  predicate Boundary(s: Units, i: nat)
    requires i <= |s|
  {
    !(0 < i < |s| && IsHighSurrogate(s[i - 1]) && IsLowSurrogate(s[i]))
  }

  lemma SurrogateHalves(unit: bv16)
    ensures IsSurrogate(unit) <==> IsHighSurrogate(unit) || IsLowSurrogate(unit)
    ensures !(IsHighSurrogate(unit) && IsLowSurrogate(unit))
    ensures !IsSurrogate(0xFFFD)
  {
  }

  /** The code refuses the first unpaired surrogate, by its index. */
  lemma {:induction false} RefusesFirst(s: Units, i: nat, out: Bytes) returns (k: nat)
    requires i <= |s| && Boundary(s, i)
    ensures Utf16ToUtf8(s[i..], out, i).Err? ==>
              i <= k < |s| && Unpaired(s, k) && Utf16ToUtf8(s[i..], out, i) == Err(k)
              && forall j :: i <= j < k ==> !Unpaired(s, j)
    ensures Utf16ToUtf8(s[i..], out, i).Ok? ==> forall j :: i <= j < |s| ==> !Unpaired(s, j)
    decreases |s| - i
  {
    hide AppendCodePointUtf8, PairCodePoint, IsHighSurrogate, IsLowSurrogate, IsSurrogate;
    k := i;
    if i < |s| {
      var t := s[i..];
      SurrogateHalves(t[0]);
      if i + 1 < |s| { SurrogateHalves(t[1]); }
      if |t| >= 2 && IsHighSurrogate(t[0]) && IsLowSurrogate(t[1]) {
        assert t[2..] == s[i + 2..];
        k := RefusesFirst(s, i + 2, AppendCodePointUtf8(out, PairCodePoint(t[0], t[1])));
        assert !Unpaired(s, i) && !Unpaired(s, i + 1);
      } else if !IsSurrogate(t[0]) {
        assert t[1..] == s[i + 1..];
        k := RefusesFirst(s, i + 1, AppendCodePointUtf8(out, t[0] as bv32));
        assert !Unpaired(s, i);
      }
    }
  }

  lemma {:induction false} WellFormedDecodes(s: Units, i: nat)
    requires i <= |s| && Boundary(s, i)
    requires forall j :: i <= j < |s| ==> !Unpaired(s, j)
    ensures DecodeUtf16(s[i..]).Some?
    decreases |s| - i
  {
    if i < |s| {
      hide Utf16Value;
      var t := s[i..];
      assert !Unpaired(s, i);
      var n := if IsHighSurrogate(t[0]) then 2 else 1;
      assert t[n..] == s[i + n..];
      WellFormedDecodes(s, i + n);
    }
  }

  /** Conversion fails exactly when a surrogate is unpaired, and reports the
      index of the first. */
  lemma Utf16ToUtf8Fails(s: Units)
    ensures Utf16ToUtf8(s, [], 0).Err? <==> !WellFormed(s)
    ensures Utf16ToUtf8(s, [], 0).Err? ==>
              var k := Utf16ToUtf8(s, [], 0).error;
              k < |s| && Unpaired(s, k) && forall j :: 0 <= j < k ==> !Unpaired(s, j)
    ensures Utf16ToUtf8(s, [], 0).Ok? ==> DecodeUtf8(Utf16ToUtf8(s, [], 0).value).Some?
  {
    assert s[0..] == s;
    var k := RefusesFirst(s, 0, []);
    if Utf16ToUtf8(s, [], 0).Ok? {
      WellFormedDecodes(s, 0);
      Utf16RoundTrip(s);
    }
  }

  /** The text with each unpaired surrogate replaced by U+FFFD. */
  function Repaired(s: Units): (r: Units)
    ensures |r| == |s|
    ensures forall i :: 0 <= i < |s| ==> r[i] == if Unpaired(s, i) then 0xFFFD else s[i]
  {
    seq(|s|, i requires 0 <= i < |s| => if Unpaired(s, i) then 0xFFFD else s[i])
  }

  function UnitPoint(unit: bv16): bv32 { unit as bv32 }

  predicate StartsPair(t: Units) {
    |t| >= 2 && IsHighSurrogate(t[0]) && IsLowSurrogate(t[1])
  }

  lemma StrictUnit(t: Units, out: Bytes, index: nat)
    requires t != [] && !IsSurrogate(t[0])
    ensures Utf16ToUtf8(t, out, index) == Utf16ToUtf8(t[1..], AppendCodePointUtf8(out, UnitPoint(t[0])), index + 1)
  {
    hide AppendCodePointUtf8, PairCodePoint;
  }

  lemma LossyUnit(t: Units, out: Bytes)
    requires t != [] && !StartsPair(t)
    ensures var unit := if IsSurrogate(t[0]) then 0xFFFD else t[0];
            Utf16ToUtf8Lossy(t, out) == Utf16ToUtf8Lossy(t[1..], AppendCodePointUtf8(out, UnitPoint(unit)))
  {
    hide AppendCodePointUtf8, PairCodePoint;
  }

  lemma {:induction false} LossyAgrees(s: Units, i: nat, out: Bytes)
    requires i <= |s| && Boundary(s, i)
    ensures Utf16ToUtf8(Repaired(s)[i..], out, i) == Ok(Utf16ToUtf8Lossy(s[i..], out))
    decreases |s| - i
  {
    hide AppendCodePointUtf8, PairCodePoint, IsHighSurrogate, IsLowSurrogate, IsSurrogate, UnitPoint;
    if i < |s| {
      var t, q := s[i..], Repaired(s)[i..];
      SurrogateHalves(t[0]);
      if StartsPair(t) {
        SurrogateHalves(t[1]);
        assert !Unpaired(s, i) && !Unpaired(s, i + 1);
        assert q[0] == t[0] && q[1] == t[1];
        assert t[2..] == s[i + 2..] && q[2..] == Repaired(s)[i + 2..];
        LossyAgrees(s, i + 2, AppendCodePointUtf8(out, PairCodePoint(t[0], t[1])));
      } else {
        assert t[1..] == s[i + 1..] && q[1..] == Repaired(s)[i + 1..];
        assert Unpaired(s, i) <==> IsSurrogate(t[0]);
        StrictUnit(q, out, i);
        LossyUnit(t, out);
        LossyAgrees(s, i + 1, AppendCodePointUtf8(out, UnitPoint(q[0])));
      }
    }
  }

  /** The lossy form is the strict conversion of the repaired text, so it is
      always valid UTF-8, and it is the strict answer whenever there is one. */
  lemma LossyMeans(s: Units)
    ensures WellFormed(Repaired(s))
    ensures Utf16ToUtf8(Repaired(s), [], 0) == Ok(Utf16ToUtf8Lossy(s, []))
    ensures DecodeUtf8(Utf16ToUtf8Lossy(s, [])).Some?
    ensures Utf16ToUtf8(s, [], 0).Ok? ==> Utf16ToUtf8(s, [], 0) == Ok(Utf16ToUtf8Lossy(s, []))
  {
    assert s[0..] == s && Repaired(s)[0..] == Repaired(s);
    LossyAgrees(s, 0, []);
    Utf16ToUtf8Fails(Repaired(s));
    Utf16ToUtf8Fails(s);
    if WellFormed(s) { assert Repaired(s) == s; }
  }
}
