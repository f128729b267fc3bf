/** Validation of a path, query or fragment, and the two percent codecs. */
module Component {
  import opened Text
  import opened Ascii
  import opened UrlError

  datatype Kind = Path | Query | Fragment

  predicate IsForbidden(b: Byte, kind: Kind) {
    if b <= 32 || b == 127 || b == 34 || b == 60 || b == 62 || b == 92 then true
    else
      match kind
      case Path => b == 35 || b == 63
      case Query => b == 35
      case Fragment => false
  }

  function ValidateFrom(bytes: Str, kind: Kind, index: nat, out: Str): Result<Str, ParseErr>
    decreases |bytes| - index
  {
    if index >= |bytes| then Ok(out)
    else
      var byte := bytes[index];
      if byte == 37 then
        if index + 2 >= |bytes| || !IsHex(bytes[index + 1]) || !IsHex(bytes[index + 2]) then
          Err(InvalidPercentEncoding(index))
        else
          ValidateFrom(bytes, kind, index + 3,
                       out + [37] + [AsciiUpperHex(bytes[index + 1])] + [AsciiUpperHex(bytes[index + 2])])
      else if byte > 127 then ValidateFrom(bytes, kind, index + 1, out + PercentByte(byte))
      else if IsForbidden(byte, kind) then Err(InvalidCharacter(byte))
      else ValidateFrom(bytes, kind, index + 1, out + [byte])
  }

  function ValidateComponent(raw: Str, kind: Kind): Result<Str, ParseErr> {
    ValidateFrom(raw, kind, 0, [])
  }

  /** The bytes no component may hold, and those that end one. */
  lemma ForbiddenBytes(b: Byte)
    ensures IsForbidden(b, Fragment) <==> b <= 32 || b == 127 || OneOf(b, "\"<>\\")
    ensures IsForbidden(b, Query) <==> b <= 32 || b == 127 || OneOf(b, "\"<>\\#")
    ensures IsForbidden(b, Path) <==> b <= 32 || b == 127 || OneOf(b, "\"<>\\#?")
  {
  }

  // ----- What a component must be -----

  /** A `%` at `i` starts an escape. */
  predicate EscapeAt(s: Str, i: nat)
    requires i < |s|
  {
    i + 2 < |s| && IsHex(s[i + 1]) && IsHex(s[i + 2])
  }

  /** The byte at `i` is fine in a component before it is encoded. */
  predicate FineAt(s: Str, kind: Kind, i: nat)
    requires i < |s|
  {
    if s[i] == PERCENT then EscapeAt(s, i) else s[i] > 127 || !IsForbidden(s[i], kind)
  }

  ghost predicate Acceptable(s: Str, kind: Kind) {
    forall i :: 0 <= i < |s| ==> FineAt(s, kind, i)
  }

  /** Nothing left to do at `i`: ASCII, and an escape is in upper case. */
  predicate CanonicalAt(s: Str, kind: Kind, i: nat)
    requires i < |s|
  {
    if s[i] == PERCENT then
      EscapeAt(s, i) && AsciiUpperHex(s[i + 1]) == s[i + 1] && AsciiUpperHex(s[i + 2]) == s[i + 2]
    else s[i] <= 127 && !IsForbidden(s[i], kind)
  }

  ghost predicate Canonical(s: Str, kind: Kind) {
    forall i :: 0 <= i < |s| ==> CanonicalAt(s, kind, i)
  }

  /** Length of the unit `s` starts with: a whole escape or a single byte. */
  function UnitLength(s: Str): (n: nat)
    requires s != []
    ensures 1 <= n <= |s|
  {
    if s[0] == PERCENT && EscapeAt(s, 0) then 3 else 1
  }

  /** The byte that unit stands for. */
  function UnitByte(s: Str): Byte
    requires s != []
  {
    if s[0] == PERCENT && EscapeAt(s, 0) then HexValue(s[1]) * 16 + HexValue(s[2]) else s[0]
  }

  /** Percent-decoding, section 2.1 of RFC 3986. */
  function PercentDecode(s: Str): Str
    decreases |s|
  {
    if s == [] then [] else [UnitByte(s)] + PercentDecode(s[UnitLength(s)..])
  }

  /** The byte a unit stands for in a form: a plus is a space. */
  function FormByte(s: Str): Byte
    requires s != []
  {
    if s[0] == PLUS then SPACE else UnitByte(s)
  }

  /** Form decoding without the accumulator. */
  function FormBytes(s: Str): Str
    decreases |s|
  {
    if s == [] then []
    else [FormByte(s)] + FormBytes(s[UnitLength(s)..])
  }

  /** What validation writes for that unit. */
  function CanonUnit(s: Str): Str
    requires s != []
  {
    if s[0] == PERCENT && EscapeAt(s, 0) then [PERCENT, AsciiUpperHex(s[1]), AsciiUpperHex(s[2])]
    else if s[0] > 127 then PercentByte(s[0])
    else [s[0]]
  }

  /** The canonical form of an acceptable component, one unit at a time. */
  function Canon(s: Str): Str
    decreases |s|
  {
    if s == [] then [] else CanonUnit(s) + Canon(s[UnitLength(s)..])
  }

  lemma AcceptableTail(s: Str, kind: Kind, n: nat)
    requires n <= |s| && Acceptable(s, kind)
    ensures Acceptable(s[n..], kind)
  {
    forall i | 0 <= i < |s[n..]| ensures FineAt(s[n..], kind, i) {
      assert FineAt(s, kind, n + i);
    }
  }

  /** One accepted step appends one unit's canonical form. */
  lemma ValidateStep(bytes: Str, kind: Kind, index: nat, out: Str)
    requires index < |bytes| && FineAt(bytes, kind, index)
    ensures var t := bytes[index..];
            ValidateFrom(bytes, kind, index, out) ==
            ValidateFrom(bytes, kind, index + UnitLength(t), out + CanonUnit(t))
  {
    var t := bytes[index..];
    if bytes[index] == PERCENT {
      assert EscapeAt(t, 0);
      assert out + [37] + [AsciiUpperHex(t[1])] + [AsciiUpperHex(t[2])] == out + CanonUnit(t);
    }
  }

  lemma {:induction false} ValidateAccepts(bytes: Str, kind: Kind, index: nat, out: Str)
    requires index <= |bytes| && Acceptable(bytes, kind)
    ensures ValidateFrom(bytes, kind, index, out) == Ok(out + Canon(bytes[index..]))
    decreases |bytes| - index
  {
    var t := bytes[index..];
    if index == |bytes| {
      assert out + Canon(t) == out;
    } else {
      assert FineAt(bytes, kind, index);
      var next := index + UnitLength(t);
      ValidateStep(bytes, kind, index, out);
      ValidateAccepts(bytes, kind, next, out + CanonUnit(t));
      assert t[UnitLength(t)..] == bytes[next..];
      assert out + CanonUnit(t) + Canon(bytes[next..]) == out + Canon(t);
    }
  }

  lemma {:induction false} ValidateRefuses(bytes: Str, kind: Kind, index: nat, out: Str) returns (i: nat)
    requires index <= |bytes| && !Acceptable(bytes, kind)
    requires forall j :: 0 <= j < index ==> FineAt(bytes, kind, j)
    ensures i < |bytes| && !FineAt(bytes, kind, i)
    ensures forall j :: 0 <= j < i ==> FineAt(bytes, kind, j)
    ensures ValidateFrom(bytes, kind, index, out) ==
            Err(if bytes[i] == PERCENT then InvalidPercentEncoding(i) else InvalidCharacter(bytes[i]))
    decreases |bytes| - index
  {
    if FineAt(bytes, kind, index) {
      var t := bytes[index..];
      ValidateStep(bytes, kind, index, out);
      i := ValidateRefuses(bytes, kind, index + UnitLength(t), out + CanonUnit(t));
    } else {
      i := index;
    }
  }

  /** Validation succeeds exactly on acceptable components and otherwise names
      the first bad position, as a broken escape or as a forbidden byte. */
  lemma ValidateMeans(s: Str, kind: Kind)
    ensures ValidateComponent(s, kind).Ok? <==> Acceptable(s, kind)
    ensures Acceptable(s, kind) ==> ValidateComponent(s, kind) == Ok(Canon(s))
    ensures !Acceptable(s, kind) ==>
              exists i ::
                && 0 <= i < |s| && !FineAt(s, kind, i)
                && (forall j :: 0 <= j < i ==> FineAt(s, kind, j))
                && ValidateComponent(s, kind).error ==
                   if s[i] == PERCENT then InvalidPercentEncoding(i) else InvalidCharacter(s[i])
  {
    if Acceptable(s, kind) {
      ValidateAccepts(s, kind, 0, []);
      assert s[0..] == s && [] + Canon(s) == Canon(s);
    } else {
      var i := ValidateRefuses(s, kind, 0, []);
    }
  }

  lemma CanonicalIsAcceptable(s: Str, kind: Kind)
    requires Canonical(s, kind)
    ensures Acceptable(s, kind)
  {
    forall i | 0 <= i < |s| ensures FineAt(s, kind, i) {
      assert CanonicalAt(s, kind, i);
    }
  }

  lemma CanonicalTail(s: Str, kind: Kind, n: nat)
    requires n <= |s| && Canonical(s, kind)
    ensures Canonical(s[n..], kind)
  {
    forall i | 0 <= i < |s[n..]| ensures CanonicalAt(s[n..], kind, i) {
      assert CanonicalAt(s, kind, n + i);
    }
  }

  lemma CanonicalConcat(a: Str, b: Str, kind: Kind)
    requires Canonical(a, kind) && Canonical(b, kind)
    ensures Canonical(a + b, kind)
  {
    var s := a + b;
    forall i | 0 <= i < |s| ensures CanonicalAt(s, kind, i) {
      if i < |a| { assert CanonicalAt(a, kind, i); } else { assert CanonicalAt(b, kind, i - |a|); }
    }
  }

  /** A canonical string cut at a byte that is no part of an escape. */
  lemma CanonicalCut(a: Str, c: Byte, b: Str, kind: Kind)
    requires Canonical(a + [c] + b, kind)
    requires c != PERCENT && !IsHex(c)
    ensures Canonical(a, kind) && Canonical(b, kind)
  {
    var s := a + [c] + b;
    forall i | 0 <= i < |a| ensures CanonicalAt(a, kind, i) {
      assert CanonicalAt(s, kind, i) && s[i] == a[i] && s[|a|] == c;
    }
    CanonicalTail(s, kind, |a| + 1);
    assert s[|a| + 1..] == b;
  }

  lemma EscapeIsCanonical(e: Str, kind: Kind)
    requires |e| == 3 && e[0] == PERCENT && EscapeAt(e, 0)
    requires AsciiUpperHex(e[1]) == e[1] && AsciiUpperHex(e[2]) == e[2]
    ensures Canonical(e, kind)
  {
    assert CanonicalAt(e, kind, 0) && CanonicalAt(e, kind, 1) && CanonicalAt(e, kind, 2);
  }

  lemma EscapeDecodes(e: Str)
    requires |e| == 3 && e[0] == PERCENT && EscapeAt(e, 0)
    ensures PercentDecode(e) == [HexValue(e[1]) * 16 + HexValue(e[2])]
    ensures FormBytes(e) == [HexValue(e[1]) * 16 + HexValue(e[2])]
  {
    assert e[3..] == [];
  }

  /** An escape of `b` is canonical anywhere and decodes to `b`. */
  lemma PercentByteMeans(b: Byte, kind: Kind)
    ensures Canonical(PercentByte(b), kind)
    ensures PercentDecode(PercentByte(b)) == [b] && FormBytes(PercentByte(b)) == [b]
  {
    EscapeIsCanonical(PercentByte(b), kind);
    EscapeDecodes(PercentByte(b));
  }

  lemma CanonUnitMeans(s: Str, kind: Kind)
    requires Acceptable(s, kind) && s != []
    ensures Canonical(CanonUnit(s), kind)
    ensures PercentDecode(CanonUnit(s)) == [UnitByte(s)]
  {
    assert FineAt(s, kind, 0);
    if s[0] == PERCENT {
      EscapeIsCanonical(CanonUnit(s), kind);
      EscapeDecodes(CanonUnit(s));
    } else if s[0] > 127 {
      PercentByteMeans(s[0], kind);
    } else {
      assert CanonicalAt([s[0]], kind, 0);
      assert [s[0]][1..] == [];
    }
  }

  /** An unbroken first unit stays the first unit when more follows. */
  lemma UnitConcat(a: Str, b: Str)
    requires a != [] && (a[0] == PERCENT ==> EscapeAt(a, 0))
    ensures UnitLength(a + b) == UnitLength(a) && UnitByte(a + b) == UnitByte(a)
    ensures (a + b)[UnitLength(a)..] == a[UnitLength(a)..] + b
  {
    var s := a + b;
    assert s[0] == a[0];
    if a[0] == PERCENT { assert s[1] == a[1] && s[2] == a[2]; }
  }

  /** A canonical string holds no broken escape, so decoding distributes over
      what follows it. */
  lemma {:induction false} DecodeConcat(a: Str, b: Str, kind: Kind)
    requires Canonical(a, kind)
    ensures PercentDecode(a + b) == PercentDecode(a) + PercentDecode(b)
    decreases |a|
  {
    if a == [] {
      assert a + b == b;
    } else {
      assert CanonicalAt(a, kind, 0);
      UnitConcat(a, b);
      CanonicalTail(a, kind, UnitLength(a));
      DecodeConcat(a[UnitLength(a)..], b, kind);
    }
  }

  /** The canonical form is canonical and means what the input meant. */
  lemma {:induction false} CanonMeans(s: Str, kind: Kind)
    requires Acceptable(s, kind)
    ensures Canonical(Canon(s), kind)
    ensures PercentDecode(Canon(s)) == PercentDecode(s)
    decreases |s|
  {
    if s != [] {
      CanonUnitMeans(s, kind);
      var rest := s[UnitLength(s)..];
      AcceptableTail(s, kind, UnitLength(s));
      CanonMeans(rest, kind);
      CanonicalConcat(CanonUnit(s), Canon(rest), kind);
      DecodeConcat(CanonUnit(s), Canon(rest), kind);
    }
  }

  /** A canonical string is its own canonical form. */
  lemma {:induction false} CanonFixes(s: Str, kind: Kind)
    requires Canonical(s, kind)
    ensures Canon(s) == s
    decreases |s|
  {
    if s != [] {
      assert CanonicalAt(s, kind, 0);
      var n := UnitLength(s);
      CanonicalTail(s, kind, n);
      CanonFixes(s[n..], kind);
      assert CanonUnit(s) == s[..n];
      assert s == s[..n] + s[n..];
    }
  }

  /** Validation keeps the decoded bytes, yields canonical text, and leaves
      exactly the canonical strings alone. */
  lemma ValidateIsCanonical(s: Str, kind: Kind)
    ensures Acceptable(s, kind) ==>
              && ValidateComponent(s, kind).Ok?
              && Canonical(ValidateComponent(s, kind).value, kind)
              && PercentDecode(ValidateComponent(s, kind).value) == PercentDecode(s)
              && ValidateComponent(ValidateComponent(s, kind).value, kind) == ValidateComponent(s, kind)
    ensures ValidateComponent(s, kind) == Ok(s) <==> Canonical(s, kind)
  {
    ValidateMeans(s, kind);
    if Acceptable(s, kind) {
      CanonMeans(s, kind);
      CanonFixes(Canon(s), kind);
      CanonicalIsAcceptable(Canon(s), kind);
      ValidateMeans(Canon(s), kind);
    }
    if Canonical(s, kind) {
      CanonicalIsAcceptable(s, kind);
      CanonFixes(s, kind);
    }
  }

  // ----- Encoders -----

  function EncodeByte(b: Byte): Str {
    if IsUnreserved(b) then [b] else PercentByte(b)
  }

  /** The left fold over the bytes. */
  function PercentEncode(s: Str): Str {
    if s == [] then [] else PercentEncode(s[..|s| - 1]) + EncodeByte(s[|s| - 1])
  }

  function FormEncodeByte(b: Byte): Str {
    if b == 32 then [PLUS] else if IsFormUnescaped(b) then [b] else PercentByte(b)
  }

  function FormEncode(s: Str): Str {
    if s == [] then [] else FormEncode(s[..|s| - 1]) + FormEncodeByte(s[|s| - 1])
  }

  /** The bytes `form_decode` collects, before they are read as text. */
  function FormDecodeFrom(bytes: Str, index: nat, out: Str): Str
    decreases |bytes| - index
  {
    if index >= |bytes| then out
    else
      var byte := bytes[index];
      if byte == 43 then FormDecodeFrom(bytes, index + 1, out + [32])
      else if byte == 37 && index + 2 < |bytes| && IsHex(bytes[index + 1]) && IsHex(bytes[index + 2]) then
        FormDecodeFrom(bytes, index + 3, out + [HexValue(bytes[index + 1]) * 16 + HexValue(bytes[index + 2])])
      else FormDecodeFrom(bytes, index + 1, out + [byte])
  }

  function FormDecode(s: Str): Str {
    FormDecodeFrom(s, 0, [])
  }

  lemma EncodeByteMeans(b: Byte, kind: Kind)
    ensures Canonical(EncodeByte(b), kind)
    ensures PercentDecode(EncodeByte(b)) == [b]
    ensures Free(EncodeByte(b), SLASH)
  {
    PercentByteMeans(b, kind);
    if IsUnreserved(b) {
      assert CanonicalAt([b], kind, 0);
      assert [b][1..] == [];
    }
  }

  /** The percent-encoded form of any bytes is canonical in every component,
      has no separator in it, and decodes to those bytes. */
  lemma {:induction false} PercentEncodeMeans(s: Str, kind: Kind)
    ensures Canonical(PercentEncode(s), kind)
    ensures PercentDecode(PercentEncode(s)) == s
    ensures Free(PercentEncode(s), SLASH)
  {
    if s != [] {
      var init, last := s[..|s| - 1], s[|s| - 1];
      PercentEncodeMeans(init, kind);
      EncodeByteMeans(last, kind);
      CanonicalConcat(PercentEncode(init), EncodeByte(last), kind);
      DecodeConcat(PercentEncode(init), EncodeByte(last), kind);
      assert s == init + [last];
    }
  }

  /** `%` and the two digits of `b`. */
  function EscapeText(b: Byte): Str {
    [37, Lit("0123456789ABCDEF")[b / 16], Lit("0123456789ABCDEF")[b % 16]]
  }

  /** What percent-encoding writes for one byte (section 2.3 of RFC 3986). */
  function PercentText(b: Byte): Str {
    if LetterOrDigit(b) || OneOf(b, "-._~") then [b] else EscapeText(b)
  }

  /** What form-encoding writes for one byte: a plus for a space. */
  function FormText(b: Byte): Str {
    if b == 32 then [43] else if LetterOrDigit(b) || OneOf(b, "*-._") then [b] else EscapeText(b)
  }

  lemma ByteTexts(b: Byte)
    ensures PercentByte(b) == EscapeText(b) && EncodeByte(b) == PercentText(b) && FormEncodeByte(b) == FormText(b)
  {
    Classes(b);
    Marks();
    HexTable(b / 16);
    HexTable(b % 16);
    hide IsUnreserved, IsFormUnescaped, IsAlphanumeric, HexDigitByte, Lit, OneOf, Within;
    assert Lit("%/:?#.+-")[0] == 37 && Lit("%/:?#.+-")[6] == 43;
  }

  lemma {:induction false} PercentEncodeConcat(a: Str, c: Str)
    ensures PercentEncode(a + c) == PercentEncode(a) + PercentEncode(c)
    decreases |c|
  {
    hide EncodeByte;
    if c == [] {
      assert a + c == a;
    } else {
      var s := a + c;
      assert s[..|s| - 1] == a + c[..|c| - 1] && s[|s| - 1] == c[|c| - 1];
      PercentEncodeConcat(a, c[..|c| - 1]);
    }
  }

  lemma {:induction false} FormEncodeConcat(a: Str, c: Str)
    ensures FormEncode(a + c) == FormEncode(a) + FormEncode(c)
    decreases |c|
  {
    hide FormEncodeByte;
    if c == [] {
      assert a + c == a;
    } else {
      var s := a + c;
      assert s[..|s| - 1] == a + c[..|c| - 1] && s[|s| - 1] == c[|c| - 1];
      FormEncodeConcat(a, c[..|c| - 1]);
    }
  }

  lemma EncodedOne(b: Byte)
    ensures PercentEncode([b]) == EncodeByte(b) && FormEncode([b]) == FormEncodeByte(b)
  {
    hide EncodeByte, FormEncodeByte;
    var one := [b];
    assert one[..|one| - 1] == [] && one[|one| - 1] == b;
    assert FormEncode(one) == FormEncode([]) + FormEncodeByte(b);
  }

  /** The texts the encoders write, byte by byte: what stands for a byte depends
      on that byte only. */
  lemma EncodedTexts(a: Str, b: Byte, c: Str)
    ensures PercentEncode([]) == [] && FormEncode([]) == []
    ensures PercentEncode(a + [b] + c) == PercentEncode(a) + PercentText(b) + PercentEncode(c)
    ensures FormEncode(a + [b] + c) == FormEncode(a) + FormText(b) + FormEncode(c)
  {
    hide PercentText, FormText, EncodeByte, FormEncodeByte;
    ByteTexts(b);
    EncodedOne(b);
    PercentEncodeConcat(a + [b], c);
    PercentEncodeConcat(a, [b]);
    FormEncodeConcat(a + [b], c);
    FormEncodeConcat(a, [b]);
  }

  /** An item is a dot segment after encoding exactly when it was before. */
  lemma EncodedDots(s: Str)
    ensures PercentEncode(s) == [DOT] <==> s == [DOT]
    ensures PercentEncode(s) == [DOT, DOT] <==> s == [DOT, DOT]
    ensures PercentEncode(s) == [] <==> s == []
  {
    PercentEncodeMeans(s, Path);
    assert PercentDecode([DOT]) == [DOT];
    assert [DOT, DOT][1..] == [DOT];
    assert PercentDecode([DOT, DOT]) == [DOT, DOT];
    assert PercentEncode([DOT]) == [DOT] by { assert [DOT][..0] == []; }
    assert PercentEncode([DOT, DOT]) == [DOT, DOT] by { assert [DOT, DOT][..1] == [DOT]; }
  }

  // ----- Form codec -----

  lemma FormDecodeStep(s: Str, index: nat, out: Str)
    requires index < |s|
    ensures var t := s[index..];
            FormDecodeFrom(s, index, out) == FormDecodeFrom(s, index + UnitLength(t), out + [FormByte(t)])
  {
    hide HexValue;
    var t := s[index..];
    assert t[0] == s[index];
    assert EscapeAt(t, 0) <==> index + 2 < |s| && IsHex(s[index + 1]) && IsHex(s[index + 2]);
  }

  lemma {:induction false} FormDecodeFromMeans(s: Str, index: nat, out: Str)
    requires index <= |s|
    ensures FormDecodeFrom(s, index, out) == out + FormBytes(s[index..])
    decreases |s| - index
  {
    hide UnitLength, FormByte;
    var t := s[index..];
    if index < |s| {
      FormDecodeStep(s, index, out);
      FormDecodeFromMeans(s, index + UnitLength(t), out + [FormByte(t)]);
      assert t[UnitLength(t)..] == s[index + UnitLength(t)..];
      assert FormBytes(t) == [FormByte(t)] + FormBytes(t[UnitLength(t)..]);
    }
  }

  lemma {:induction false} FormBytesConcat(a: Str, b: Str)
    requires Canonical(a, Query)
    ensures FormBytes(a + b) == FormBytes(a) + FormBytes(b)
    decreases |a|
  {
    if a == [] {
      assert a + b == b;
    } else {
      assert CanonicalAt(a, Query, 0);
      UnitConcat(a, b);
      assert (a + b)[0] == a[0];
      CanonicalTail(a, Query, UnitLength(a));
      FormBytesConcat(a[UnitLength(a)..], b);
    }
  }

  lemma FormEncodeByteMeans(b: Byte)
    ensures Canonical(FormEncodeByte(b), Query)
    ensures Free(FormEncodeByte(b), AMPERSAND) && Free(FormEncodeByte(b), EQUALS)
    ensures FormBytes(FormEncodeByte(b)) == [b]
  {
    PercentByteMeans(b, Query);
    var e := FormEncodeByte(b);
    if |e| == 1 {
      assert CanonicalAt(e, Query, 0);
      assert e[1..] == [];
    }
  }

  lemma {:induction false} FormEncodeBytes(s: Str)
    ensures Canonical(FormEncode(s), Query)
    ensures Free(FormEncode(s), AMPERSAND) && Free(FormEncode(s), EQUALS)
    ensures FormBytes(FormEncode(s)) == s
  {
    if s != [] {
      var init, last := s[..|s| - 1], s[|s| - 1];
      FormEncodeBytes(init);
      FormEncodeByteMeans(last);
      CanonicalConcat(FormEncode(init), FormEncodeByte(last), Query);
      FormBytesConcat(FormEncode(init), FormEncodeByte(last));
      assert s == init + [last];
    }
  }

  /** Form decoding undoes form encoding, byte for byte, and the encoded form
      is canonical query text with neither `&` nor `=` in it. */
  lemma FormRoundTrip(s: Str)
    ensures FormDecode(FormEncode(s)) == s
    ensures Canonical(FormEncode(s), Query)
    ensures Free(FormEncode(s), AMPERSAND) && Free(FormEncode(s), EQUALS)
  {
    FormEncodeBytes(s);
    FormDecodeFromMeans(FormEncode(s), 0, []);
    assert FormEncode(s)[0..] == FormEncode(s);
  }
}
