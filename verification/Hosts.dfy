/** Host names, dotted-decimal addresses and ports. */
module Hosts {
  import opened Text
  import opened Ascii
  import opened UrlError
  import opened Decimal

  datatype Scheme = Http | Https

  type Port = n: nat | n < 0x1_0000

  /** All digits, or `0x` and then hex digits. */
  predicate IsNumber(last: Str) {
    if last == [] then false
    else if |last| >= 2 && last[0] == 48 && (last[1] == 120 || last[1] == 88) then AllHex(last[2..])
    else AllDigits(last)
  }

  predicate EndsInNumber(host: Str) {
    var labels := SplitOn(host, [DOT]);
    IsNumber(labels[|labels| - 1])
  }

  predicate IsLabel(name: Str) {
    && 0 < |name| <= 63
    && IsAlphanumeric(name[0]) && IsAlphanumeric(name[|name| - 1])
    && forall k :: 0 <= k < |name| ==> IsAlphanumeric(name[k]) || name[k] == MINUS
  }

  predicate AllLabels(labels: seq<Str>) {
    forall k :: 0 <= k < |labels| ==> IsLabel(labels[k])
  }

  function ValidateDnsName(raw: Str): Result<Str, ParseErr> {
    var host := AsciiLower(raw);
    if |host| <= 253 && AllLabels(SplitOn(host, [DOT])) then Ok(host) else Err(InvalidHost(raw))
  }

  function ParseIpv4Parts(parts: seq<Str>, out: seq<U64>): Option<seq<U64>> {
    if parts == [] then Some(out)
    else if |parts[0]| > 1 && StartsWith(parts[0], [48]) then None
    else
      match ParseDecimal(parts[0])
      case Some(value) => if value <= 255 then ParseIpv4Parts(parts[1..], out + [value]) else None
      case None => None
  }

  function DecimalParts(values: seq<U64>): seq<Str> {
    if values == [] then [] else [DecimalStr(values[0])] + DecimalParts(values[1..])
  }

  function ValidateIpv4(raw: Str): Result<Str, ParseErr> {
    var parts := SplitOn(raw, [DOT]);
    if |parts| != 4 then Err(InvalidIpv4(raw))
    else
      match ParseIpv4Parts(parts, [])
      case None => Err(InvalidIpv4(raw))
      case Some(values) => Ok(JoinWith(DecimalParts(values), [DOT]))
  }

  predicate AnyHigh(s: Str) { exists k :: 0 <= k < |s| && s[k] > 127 }

  predicate DigitsAndDots(s: Str) {
    forall k :: 0 <= k < |s| ==> IsDigit(s[k]) || s[k] == 46
  }

  function ValidateHost(raw: Str): Result<Str, ParseErr> {
    if raw == [] then Err(EmptyHost)
    else if AnyHigh(raw) then Err(InternationalHostUnsupported)
    else if DigitsAndDots(raw) then ValidateIpv4(raw)
    else if EndsInNumber(raw) then Err(InvalidIpv4(raw))
    else ValidateDnsName(raw)
  }

  function DefaultPort(scheme: Scheme): Port {
    match scheme case Http => 80 case Https => 443
  }

  function ParsePort(raw: Str, scheme: Scheme): Result<Option<Port>, ParseErr> {
    match ParseDecimal(raw)
    case None => Err(InvalidPort(raw))
    case Some(value) =>
      if value > 65535 then Err(PortOutOfRange(value))
      else if value == DefaultPort(scheme) then Ok(None)
      else Ok(Some(value))
  }

  // ----- Dotted decimal -----

  /** dec-octet, section 3.2.2 of RFC 3986. */
  predicate IsDecOctet(s: Str) {
    || (|s| == 1 && IsDigit(s[0]))
    || (|s| == 2 && 49 <= s[0] <= 57 && IsDigit(s[1]))
    || (|s| == 3 && s[0] == 49 && IsDigit(s[1]) && IsDigit(s[2]))
    || (|s| == 3 && s[0] == 50 && 48 <= s[1] <= 52 && IsDigit(s[2]))
    || (|s| == 3 && s[0] == 50 && s[1] == 53 && 48 <= s[2] <= 53)
  }

  predicate AllOctets(parts: seq<Str>) {
    forall k :: 0 <= k < |parts| ==> IsDecOctet(parts[k])
  }

  /** IPv4address, section 3.2.2 of RFC 3986. */
  predicate IsIpv4(raw: Str) {
    var parts := SplitOn(raw, [DOT]);
    |parts| == 4 && AllOctets(parts)
  }

  lemma DecOctetMeans(s: Str)
    ensures IsDecOctet(s) <==> s != [] && AllDigits(s) && Unpadded(s) && DecimalValue(s) <= 255
  {
    if s != [] && AllDigits(s) {
      if |s| >= 4 {
        if s[0] != 48 { LongNumeral(s); }
      } else {
        ShortNumeral(s);
      }
    }
  }

  lemma TailCons<T>(s: seq<T>, i: nat)
    requires i < |s|
    ensures s[i..] == [s[i]] + s[i + 1..] && s[0..] == s
  {
  }

  lemma {:induction false} Ipv4PartsMean(parts: seq<Str>, out: seq<U64>)
    ensures ParseIpv4Parts(parts, out).Some? <==> AllOctets(parts)
    ensures AllOctets(parts) ==>
              && out <= ParseIpv4Parts(parts, out).value
              && DecimalParts(ParseIpv4Parts(parts, out).value[|out|..]) == parts
  {
    hide IsDecOctet, DecimalStr, DecimalValue, StartsWith;
    if parts != [] {
      var s := parts[0];
      DecOctetMeans(s);
      ParseDecimalMeans(s);
      StartsWithMeans(s, [48]);
      if IsDecOctet(s) {
        var next := out + [CappedFold(s)];
        Ipv4PartsMean(parts[1..], next);
        assert forall k :: 1 <= k < |parts| ==> parts[k] == parts[1..][k - 1];
        if AllOctets(parts) {
          var v := ParseIpv4Parts(parts, out).value;
          DecimalStrOf(s);
          assert next <= v && v[|out|] == next[|out|];
          TailCons(v, |out|);
          TailCons(parts, 0);
        }
      }
    }
  }

  /** Dotted decimal is accepted exactly as RFC 3986 spells it, and kept. */
  lemma ValidateIpv4Means(raw: Str)
    ensures ValidateIpv4(raw) == if IsIpv4(raw) then Ok(raw) else Err(InvalidIpv4(raw))
  {
    var parts := SplitOn(raw, [DOT]);
    Ipv4PartsMean(parts, []);
    JoinSplit(raw, [DOT]);
    if IsIpv4(raw) {
      var v := ParseIpv4Parts(parts, []).value;
      assert v[0..] == v;
    }
  }

  lemma Ipv4Bytes(raw: Str)
    requires IsIpv4(raw)
    ensures DigitsAndDots(raw) && raw != []
  {
    var parts := SplitOn(raw, [DOT]);
    forall k | 0 <= k < |parts| ensures Every(parts[k], IsDigit) {
      assert IsDecOctet(parts[k]);
      DecOctetMeans(parts[k]);
    }
    SplitEvery(raw, DOT, IsDigit);
  }

  // ----- Names -----

  /** A DNS name that no other reader takes for a number. */
  predicate IsDnsName(raw: Str) {
    |raw| <= 253 && AllLabels(SplitOn(AsciiLower(raw), [DOT])) && !EndsInNumber(raw)
  }

  lemma {:induction false} LowerSplit(s: Str)
    ensures |SplitOn(AsciiLower(s), [DOT])| == |SplitOn(s, [DOT])|
    ensures forall k :: 0 <= k < |SplitOn(s, [DOT])| ==>
                          SplitOn(AsciiLower(s), [DOT])[k] == AsciiLower(SplitOn(s, [DOT])[k])
    decreases |s|
  {
    if s != [] {
      LowerSplit(s[1..]);
      var t := AsciiLower(s);
      assert t[1..] == AsciiLower(s[1..]);
      assert ([DOT] <= t) == (t[0] == DOT) == (s[0] == DOT) == ([DOT] <= s);
      if s[0] != DOT {
        var p := SplitOn(s[1..], [DOT])[0];
        assert ([s[0]] + p)[1..] == p;
        assert [t[0]] + AsciiLower(p) == AsciiLower([s[0]] + p);
      }
    }
  }

  lemma LowerClasses(s: Str)
    ensures AllHex(AsciiLower(s)) <==> AllHex(s)
    ensures AllDigits(AsciiLower(s)) <==> AllDigits(s)
  {
    assert forall k :: 0 <= k < |s| ==> (IsHex(AsciiLower(s)[k]) <==> IsHex(s[k]));
    assert forall k :: 0 <= k < |s| ==> (IsDigit(AsciiLower(s)[k]) <==> IsDigit(s[k]));
  }

  lemma IsNumberLower(a: Str)
    ensures IsNumber(AsciiLower(a)) == IsNumber(a)
  {
    LowerClasses(a);
    if |a| >= 2 {
      assert AsciiLower(a)[2..] == AsciiLower(a[2..]);
      LowerClasses(a[2..]);
    }
  }

  /** Case does not change whether a host ends in a number. */
  lemma EndsInNumberLower(s: Str)
    ensures EndsInNumber(AsciiLower(s)) == EndsInNumber(s)
  {
    hide SplitOn, IsNumber, AsciiLower;
    LowerSplit(s);
    var parts := SplitOn(s, [DOT]);
    IsNumberLower(parts[|parts| - 1]);
  }

  predicate HostByte(b: Byte) { IsAlphanumeric(b) || b == MINUS }

  predicate HostBytes(s: Str) {
    forall k :: 0 <= k < |s| ==> HostByte(s[k]) || s[k] == DOT
  }

  lemma NameBytes(s: Str)
    requires AllLabels(SplitOn(s, [DOT]))
    ensures HostBytes(s) && s != []
  {
    var labels := SplitOn(s, [DOT]);
    forall k | 0 <= k < |labels| ensures Every(labels[k], HostByte) {
      assert IsLabel(labels[k]);
    }
    SplitEvery(s, DOT, HostByte);
    assert IsLabel(labels[0]);
  }

  /** Digits and dots alone never make a name: the last label is a number. */
  lemma NumericIsNoName(raw: Str)
    requires DigitsAndDots(raw)
    ensures !IsDnsName(raw)
  {
    var labels := SplitOn(raw, [DOT]);
    SplitEvery(raw, DOT, IsDigit);
    LowerSplit(raw);
    var last := labels[|labels| - 1];
    assert Every(last, IsDigit);
    if last == [] {
      assert !IsLabel(AsciiLower(last));
    } else if |last| >= 2 {
      assert IsDigit(last[1]);
    }
  }

  lemma DnsNameBytes(raw: Str)
    requires IsDnsName(raw)
    ensures raw != [] && !AnyHigh(raw) && !DigitsAndDots(raw)
  {
    NameBytes(AsciiLower(raw));
    forall k | 0 <= k < |raw| ensures raw[k] <= 127 {
      assert HostByte(AsciiLower(raw)[k]) || AsciiLower(raw)[k] == DOT;
    }
    if DigitsAndDots(raw) { NumericIsNoName(raw); }
  }

  lemma {:induction false} LowerDigits(s: Str)
    requires DigitsAndDots(s)
    ensures AsciiLower(s) == s
  {
    assert forall k :: 0 <= k < |s| ==> AsciiLower(s)[k] == s[k];
  }

  /** The bytes of a label: letters and digits, and `-` inside. */
  lemma LabelMeans(name: Str)
    ensures IsLabel(name) <==>
              && 1 <= |name| <= 63 && LetterOrDigit(name[0]) && LetterOrDigit(name[|name| - 1])
              && forall k :: 0 <= k < |name| ==> LetterOrDigit(name[k]) || name[k] == '-' as int
  {
    forall b: Byte ensures IsAlphanumeric(b) <==> LetterOrDigit(b) {
      Classes(b);
    }
    Marks();
    assert Lit("%/:?#.+-")[7] == MINUS;
  }

  /** A label another reader takes for a number: all digits, or `0x` or `0X` and
      then hexadecimal digits only. */
  predicate NumericText(name: Str) {
    || (name != [] && forall k :: 0 <= k < |name| ==> Within(name[k], '0', '9'))
    || ((Lit("0x") <= name || Lit("0X") <= name)
        && forall k :: 2 <= k < |name| ==>
                         Within(name[k], '0', '9') || Within(name[k], 'A', 'F') || Within(name[k], 'a', 'f'))
  }

  lemma IsNumberMeans(name: Str)
    ensures IsNumber(name) <==> NumericText(name)
  {
    forall b: Byte ensures IsDigit(b) <==> Within(b, '0', '9')
                   ensures IsHex(b) <==> Within(b, '0', '9') || Within(b, 'A', 'F') || Within(b, 'a', 'f')
    {
      Classes(b);
    }
    if |name| >= 2 {
      assert forall k :: 2 <= k < |name| ==> name[k] == name[2..][k - 2];
      assert Lit("0x") <= name <==> name[0] == 48 && name[1] == 120;
      assert Lit("0X") <= name <==> name[0] == 48 && name[1] == 88;
    }
  }

  /** A host ends in a number when the text after its last dot is one. */
  lemma EndsInNumberMeans(before: Str, last: Str)
    requires Free(last, DOT)
    ensures EndsInNumber(last) <==> NumericText(last)
    ensures EndsInNumber(before + [DOT] + last) <==> NumericText(last)
  {
    hide IsNumber, NumericText;
    SplitFree(last, DOT);
    SplitConcat(before, DOT, last);
    IsNumberMeans(last);
  }

  /** Why a host is refused: it is empty, not ASCII, some other reader's number,
      or no name. */
  function HostRefusal(raw: Str): ParseErr {
    if raw == [] then EmptyHost
    else if exists k :: 0 <= k < |raw| && raw[k] > 127 then InternationalHostUnsupported
    else if (forall k :: 0 <= k < |raw| ==> Within(raw[k], '0', '9') || raw[k] == '.' as int) || EndsInNumber(raw) then InvalidIpv4(raw)
    else InvalidHost(raw)
  }

  /** A host is accepted exactly when it is dotted decimal or a DNS name whose
      last label is no number, and the answer is the host in lower case. */
  lemma ValidateHostMeans(raw: Str)
    ensures ValidateHost(raw) == if IsIpv4(raw) || IsDnsName(raw) then Ok(AsciiLower(raw)) else Err(HostRefusal(raw))
  {
    ValidateIpv4Means(raw);
    if IsIpv4(raw) {
      Ipv4Bytes(raw);
      LowerDigits(raw);
    }
    if IsDnsName(raw) { DnsNameBytes(raw); }
    if DigitsAndDots(raw) {
      NumericIsNoName(raw);
      LowerDigits(raw);
    }
  }

  /** An accepted host is its own canonical form, and holds only letters,
      digits, `-` and `.`. */
  lemma HostIsCanonical(raw: Str)
    requires ValidateHost(raw).Ok?
    ensures ValidateHost(ValidateHost(raw).value) == ValidateHost(raw)
    ensures ValidateHost(raw).value != [] && HostBytes(ValidateHost(raw).value)
  {
    ValidateHostMeans(raw);
    var h := AsciiLower(raw);
    LowerIdempotent(raw);
    EndsInNumberLower(raw);
    if IsIpv4(raw) {
      Ipv4Bytes(raw);
      LowerDigits(raw);
    } else {
      NameBytes(h);
    }
    ValidateHostMeans(h);
  }

  /** The port a scheme has when none is written (section 4.2 of RFC 9110). */
  predicate IsDefault(port: nat, scheme: Scheme) {
    match scheme case Http => port == 80 case Https => port == 443
  }

  /** The printed form of a port reads back as that port, unless it is the
      default, which is never stored: 80 for http and 443 for https. */
  lemma PortRoundTrip(port: Port, scheme: Scheme)
    ensures ParsePort(DecimalStr(port), scheme) == Ok(if IsDefault(port, scheme) then None else Some(port))
  {
    DecimalStrMeans(port);
    ParseDecimalMeans(DecimalStr(port));
  }

  /** A port is not a number, or not a port: then its number is told, as far as
      the reader counts. */
  function PortRefusal(raw: Str): ParseErr {
    if raw == [] || !AllDigits(raw) then InvalidPort(raw) else PortOutOfRange(CappedFold(raw))
  }

  /** A port is refused exactly when it is not digits or is above 65535, and the
      scheme's default is not stored. */
  lemma ParsePortMeans(raw: Str, scheme: Scheme)
    ensures ParsePort(raw, scheme).Ok? <==> raw != [] && AllDigits(raw) && DecimalValue(raw) <= 65535
    ensures ParsePort(raw, scheme).Ok? ==>
              ParsePort(raw, scheme).value ==
              if IsDefault(DecimalValue(raw), scheme) then None else Some(DecimalValue(raw))
    ensures ParsePort(raw, Http) == Ok(None) <==> raw != [] && AllDigits(raw) && DecimalValue(raw) == 80
    ensures ParsePort(raw, Https) == Ok(None) <==> raw != [] && AllDigits(raw) && DecimalValue(raw) == 443
    ensures ParsePort(raw, scheme).Err? ==> ParsePort(raw, scheme).error == PortRefusal(raw)
    ensures PortRefusal(raw).PortOutOfRange? && DecimalValue(raw) < 4_294_967_295 ==>
              PortRefusal(raw).number == DecimalValue(raw)
  {
    ParseDecimalMeans(raw);
  }
}
