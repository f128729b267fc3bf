/** The hexadecimal forms of an IPv6 address. */
module Ipv6 {
  import opened Text
  import opened Ascii
  import opened UrlError

  type U16 = n: nat | n < 0x1_0000

  const ELISION: Str := [COLON, COLON]

  function Pow16(n: nat): nat {
    if n == 0 then 1 else 16 * Pow16(n - 1)
  }

  /** The left fold of hexadecimal digits. */
  function HexFold(digits: Str): (v: nat)
    requires AllHex(digits)
    ensures v < Pow16(|digits|)
  {
    if digits == [] then 0
    else HexFold(digits[..|digits| - 1]) * 16 + HexValue(digits[|digits| - 1])
  }

  /** One group: one to four hexadecimal digits. */
  predicate IsGroup(part: Str) {
    1 <= |part| <= 4 && AllHex(part)
  }

  lemma FourDigits()
    ensures Pow16(0) == 1 && Pow16(1) == 16 && Pow16(2) == 256 && Pow16(3) == 4096 && Pow16(4) == 0x1_0000
  {
    assert Pow16(2) == 16 * Pow16(1);
    assert Pow16(3) == 16 * Pow16(2);
    assert Pow16(4) == 16 * Pow16(3);
  }

  /** The value of a group. Its type is the proof that the 16-bit accumulator
      does not overflow. */
  function GroupValue(part: Str): U16
    requires IsGroup(part)
  {
    FourDigits();
    HexFold(part)
  }

  function ParseHexGroups(parts: seq<Str>, out: seq<U16>): Result<seq<U16>, ParseErr> {
    if parts == [] then Ok(out)
    else if parts[0] == [] || |parts[0]| > 4 || !AllHex(parts[0]) then Err(InvalidIpv6(parts[0]))
    else ParseHexGroups(parts[1..], out + [GroupValue(parts[0])])
  }

  function ParseIpv6Side(raw: Str): Result<seq<U16>, ParseErr> {
    if raw == [] then Ok([]) else ParseHexGroups(SplitOn(raw, [COLON]), [])
  }

  function U16ToHexHelp(value: U16, digits: Str): Str {
    var next := [LowerHexDigitByte(value % 16)] + digits;
    if value / 16 == 0 then next else U16ToHexHelp(value / 16, next)
  }

  function U16ToHex(value: U16): Str {
    if value == 0 then [48] else U16ToHexHelp(value, [])
  }

  function HexParts(groups: seq<U16>): (parts: seq<Str>)
    ensures |parts| == |groups|
    ensures forall k :: 0 <= k < |groups| ==> parts[k] == U16ToHex(groups[k])
  {
    if groups == [] then [] else [U16ToHex(groups[0])] + HexParts(groups[1..])
  }

  function SerializeIpv6(groups: seq<U16>): Str {
    JoinWith(HexParts(groups), [COLON])
  }

  function ValidateIpv6(raw: Str): Result<Str, ParseErr> {
    var pieces := SplitOn(raw, ELISION);
    if |pieces| > 2 then Err(InvalidIpv6(raw))
    else if |pieces| == 1 then
      match ParseIpv6Side(raw)
      case Err(e) => Err(e)
      case Ok(groups) => if |groups| == 8 then Ok(SerializeIpv6(groups)) else Err(InvalidIpv6(raw))
    else
      match ParseIpv6Side(pieces[0])
      case Err(e) => Err(e)
      case Ok(left) =>
        match ParseIpv6Side(pieces[1])
        case Err(e) => Err(e)
        case Ok(right) =>
          var count := |left| + |right|;
          if count >= 8 then Err(InvalidIpv6(raw))
          else Ok(SerializeIpv6(left + Repeat<U16>(0, 8 - count) + right))
  }

  // ----- What an address text denotes (section 2.2 of RFC 4291) -----

  ghost predicate AllGroups(parts: seq<Str>) {
    forall k :: 0 <= k < |parts| ==> IsGroup(parts[k])
  }

  function Values(parts: seq<Str>): (v: seq<U16>)
    requires AllGroups(parts)
    ensures |v| == |parts|
    ensures forall k :: 0 <= k < |parts| ==> v[k] == GroupValue(parts[k])
  {
    if parts == [] then [] else [GroupValue(parts[0])] + Values(parts[1..])
  }

  /** Form 1: eight groups, written out. */
  ghost predicate Full(raw: Str, groups: seq<U16>, parts: seq<Str>) {
    && |parts| == 8 && AllGroups(parts)
    && raw == JoinWith(parts, [COLON]) && groups == Values(parts)
  }

  /** Form 2: one `::` standing for one or more groups of zeros. */
  ghost predicate Elided(raw: Str, groups: seq<U16>, left: seq<Str>, right: seq<Str>) {
    && |left| + |right| <= 7 && AllGroups(left) && AllGroups(right)
    && raw == JoinWith(left, [COLON]) + [COLON, COLON] + JoinWith(right, [COLON])
    && groups == Values(left) + Repeat<U16>(0, 8 - |left| - |right|) + Values(right)
  }

  ghost predicate Denotes(raw: Str, groups: seq<U16>) {
    || (exists parts :: Full(raw, groups, parts))
    || (exists left, right :: Elided(raw, groups, left, right))
  }

  // ----- Reading -----

  lemma {:induction false} ParseGroupsMeans(parts: seq<Str>, out: seq<U16>)
    ensures ParseHexGroups(parts, out).Ok? <==> AllGroups(parts)
    ensures AllGroups(parts) ==> ParseHexGroups(parts, out) == Ok(out + Values(parts))
  {
    if parts == [] {
      assert out + Values(parts) == out;
    } else if IsGroup(parts[0]) {
      var next := out + [GroupValue(parts[0])];
      ParseGroupsMeans(parts[1..], next);
      if AllGroups(parts[1..]) {
        assert forall k :: 1 <= k < |parts| ==> parts[k] == parts[1..][k - 1];
        assert next + Values(parts[1..]) == out + Values(parts);
      }
    }
  }

  /** No two colons in a row. */
  predicate NoElision(s: Str) {
    forall i :: 0 <= i < |s| - 1 ==> !(s[i] == COLON && s[i + 1] == COLON)
  }

  predicate EdgesFree(s: Str) {
    s != [] ==> s[0] != COLON && s[|s| - 1] != COLON
  }

  lemma {:induction false} SplitNoElision(s: Str)
    requires NoElision(s)
    ensures SplitOn(s, ELISION) == [s]
    decreases |s|
  {
    if s != [] {
      if |s| >= 2 { assert !(s[0] == COLON && s[1] == COLON); }
      SplitNoElision(s[1..]);
      assert s == [s[0]] + s[1..];
    }
  }

  /** As above, with only the last byte of `left` known not to be a colon. */
  lemma {:induction false} SplitElisionTail(left: Str, right: Str)
    requires left != [] && NoElision(left) && left[|left| - 1] != COLON
    ensures SplitOn(left + ELISION + right, ELISION) == [left] + SplitOn(right, ELISION)
    decreases |left|
  {
    var s := left + ELISION + right;
    assert s[0] == left[0];
    assert s[1..] == left[1..] + ELISION + right;
    assert left == [left[0]] + left[1..];
    if |left| == 1 {
      assert s[1..][2..] == right;
    } else {
      assert s[1] == left[1];
      assert !(ELISION <= s);
      SplitElisionTail(left[1..], right);
    }
  }

  lemma SplitElision(left: Str, right: Str)
    requires NoElision(left) && EdgesFree(left)
    ensures SplitOn(left + ELISION + right, ELISION) == [left] + SplitOn(right, ELISION)
  {
    var s := left + ELISION + right;
    if left == [] {
      assert s[2..] == right;
    } else {
      SplitElisionTail(left, right);
    }
  }

  lemma {:induction false} JoinedGroups(parts: seq<Str>)
    requires AllGroups(parts)
    ensures NoElision(JoinWith(parts, [COLON])) && EdgesFree(JoinWith(parts, [COLON]))
    ensures parts != [] <==> JoinWith(parts, [COLON]) != []
  {
    if |parts| > 1 {
      JoinedGroups(parts[1..]);
      var s, a, b := JoinWith(parts, [COLON]), parts[0], JoinWith(parts[1..], [COLON]);
      assert IsGroup(a) && s == a + [COLON] + b;
      forall i | 0 <= i < |s| - 1 ensures !(s[i] == COLON && s[i + 1] == COLON) {
        if i < |a| { assert s[i] == a[i]; }
        else if i == |a| { assert s[i + 1] == b[0]; }
        else { assert s[i] == b[i - |a| - 1] && s[i + 1] == b[i - |a|]; }
      }
    } else if |parts| == 1 {
      assert IsGroup(parts[0]);
    }
  }

  /** One side of an address text: groups joined by colons, or nothing. */
  lemma SideMeans(raw: Str)
    ensures ParseIpv6Side(raw).Ok? <==> raw == [] || AllGroups(SplitOn(raw, [COLON]))
    ensures raw == [] ==> ParseIpv6Side(raw) == Ok([])
    ensures raw != [] && AllGroups(SplitOn(raw, [COLON])) ==>
              ParseIpv6Side(raw) == Ok(Values(SplitOn(raw, [COLON])))
  {
    var parts := SplitOn(raw, [COLON]);
    ParseGroupsMeans(parts, []);
    if AllGroups(parts) { assert [] + Values(parts) == Values(parts); }
  }

  lemma SideOf(parts: seq<Str>)
    requires AllGroups(parts)
    ensures ParseIpv6Side(JoinWith(parts, [COLON])) == Ok(Values(parts))
  {
    JoinedGroups(parts);
    if parts != [] {
      forall k | 0 <= k < |parts| ensures Free(parts[k], COLON) {
        assert IsGroup(parts[k]);
      }
      SplitJoin(parts, COLON);
    }
    SideMeans(JoinWith(parts, [COLON]));
  }

  /** Reading gives what the text denotes. */
  lemma DenotedIsAccepted(raw: Str, groups: seq<U16>)
    requires Denotes(raw, groups)
    ensures |groups| == 8
    ensures ValidateIpv6(raw) == Ok(SerializeIpv6(groups))
  {
    hide ParseIpv6Side, SerializeIpv6, AllGroups, NoElision, EdgesFree, Repeat;
    if parts :| Full(raw, groups, parts) {
      JoinedGroups(parts);
      SplitNoElision(raw);
      SideOf(parts);
    } else {
      var left, right :| Elided(raw, groups, left, right);
      var l, r := JoinWith(left, [COLON]), JoinWith(right, [COLON]);
      JoinedGroups(left);
      JoinedGroups(right);
      SplitElision(l, r);
      SplitNoElision(r);
      SideOf(left);
      SideOf(right);
    }
  }

  /** The groups on one side, as text. */
  lemma AcceptedSide(raw: Str) returns (parts: seq<Str>)
    requires ParseIpv6Side(raw).Ok?
    ensures AllGroups(parts) && raw == JoinWith(parts, [COLON])
    ensures ParseIpv6Side(raw) == Ok(Values(parts))
  {
    SideMeans(raw);
    parts := if raw == [] then [] else SplitOn(raw, [COLON]);
    JoinSplit(raw, [COLON]);
  }

  /** What is accepted denotes some groups. */
  lemma AcceptedIsDenoted(raw: Str) returns (groups: seq<U16>)
    requires ValidateIpv6(raw).Ok?
    ensures Denotes(raw, groups)
  {
    var pieces := SplitOn(raw, ELISION);
    JoinSplit(raw, ELISION);
    if |pieces| == 1 {
      var parts := AcceptedSide(raw);
      groups := Values(parts);
      assert Full(raw, groups, parts);
    } else {
      var left := AcceptedSide(pieces[0]);
      var right := AcceptedSide(pieces[1]);
      groups := Values(left) + Repeat<U16>(0, 8 - |left| - |right|) + Values(right);
      assert Elided(raw, groups, left, right);
    }
  }

  // ----- Printing -----

  /** The digits of a number, most significant first. */
  function HexDigits(value: nat): Str {
    if value < 16 then [LowerHexDigitByte(value)] else HexDigits(value / 16) + [LowerHexDigitByte(value % 16)]
  }

  lemma {:induction false} HelpIsDigits(value: U16, digits: Str)
    ensures U16ToHexHelp(value, digits) == HexDigits(value) + digits
  {
    if value / 16 != 0 {
      HelpIsDigits(value / 16, [LowerHexDigitByte(value % 16)] + digits);
    }
  }

  predicate IsLower(s: Str) {
    forall k :: 0 <= k < |s| ==> LowerByte(s[k]) == s[k]
  }

  lemma {:induction false} HexDigitsMeans(value: nat)
    ensures HexDigits(value) != [] && AllHex(HexDigits(value)) && HexFold(HexDigits(value)) == value
    ensures value != 0 ==> HexDigits(value)[0] != 48
    ensures IsLower(HexDigits(value))
  {
    var s := HexDigits(value);
    if value < 16 {
      assert s[..0] == [];
    } else {
      HexDigitsMeans(value / 16);
      assert s[..|s| - 1] == HexDigits(value / 16);
    }
  }

  lemma {:induction false} HexDigitsLength(value: nat, n: nat)
    requires 1 <= n && value < Pow16(n)
    ensures |HexDigits(value)| <= n
    decreases value
  {
    if value >= 16 {
      assert n > 1 by { assert Pow16(1) == 16; }
      HexDigitsLength(value / 16, n - 1);
    }
  }

  /** A printed group denotes the number printed, in lower case and unpadded. */
  lemma U16ToHexMeans(value: U16)
    ensures IsGroup(U16ToHex(value)) && GroupValue(U16ToHex(value)) == value
    ensures value != 0 ==> U16ToHex(value)[0] != 48
    ensures value == 0 ==> U16ToHex(value) == [48]
    ensures IsLower(U16ToHex(value))
  {
    if value == 0 {
      assert U16ToHex(value)[..0] == [];
    } else {
      HelpIsDigits(value, []);
      FourDigits();
      HexDigitsMeans(value);
      HexDigitsLength(value, 4);
      assert HexDigits(value) + [] == HexDigits(value);
    }
  }

  lemma PrintedDenotes(groups: seq<U16>)
    requires |groups| == 8
    ensures Denotes(SerializeIpv6(groups), groups)
  {
    var parts := HexParts(groups);
    forall k | 0 <= k < 8 ensures IsGroup(parts[k]) && GroupValue(parts[k]) == groups[k] {
      U16ToHexMeans(groups[k]);
    }
    assert Values(parts) == groups;
    assert Full(SerializeIpv6(groups), groups, parts);
  }

  /** Two lists of eight groups with one text are the same list. */
  lemma SerializeInjective(a: seq<U16>, b: seq<U16>)
    requires |a| == 8 && |b| == 8 && SerializeIpv6(a) == SerializeIpv6(b)
    ensures a == b
  {
    var p, q := HexParts(a), HexParts(b);
    forall k | 0 <= k < 8
      ensures IsGroup(p[k]) && GroupValue(p[k]) == a[k] && IsGroup(q[k]) && GroupValue(q[k]) == b[k]
    {
      U16ToHexMeans(a[k]);
      U16ToHexMeans(b[k]);
    }
    SideOf(p);
    SideOf(q);
    assert a == Values(p) && b == Values(q);
  }

  // ----- Refusing -----

  /** The first part that is no group. */
  function FirstBad(parts: seq<Str>): (bad: Option<Str>)
    ensures bad.None? <==> AllGroups(parts)
  {
    if parts == [] then None else if !IsGroup(parts[0]) then Some(parts[0]) else FirstBad(parts[1..])
  }

  function SideParts(side: Str): seq<Str> {
    if side == [] then [] else SplitOn(side, [COLON])
  }

  /** The parts between colons, on both sides of a single `::`. */
  function AddressParts(raw: Str): seq<Str> {
    var pieces := SplitOn(raw, ELISION);
    if |pieces| == 1 then SideParts(raw)
    else if |pieces| == 2 then SideParts(pieces[0]) + SideParts(pieces[1])
    else []
  }

  /** What a refusal names: the first part that is no group, or the whole text
      when it is its shape that is wrong. */
  function Ipv6Refusal(raw: Str): ParseErr {
    match FirstBad(AddressParts(raw))
    case None => InvalidIpv6(raw)
    case Some(part) => InvalidIpv6(part)
  }

  lemma {:induction false} GroupsRefuse(parts: seq<Str>, out: seq<U16>)
    ensures ParseHexGroups(parts, out).Err? <==> FirstBad(parts).Some?
    ensures FirstBad(parts).Some? ==> ParseHexGroups(parts, out) == Err(InvalidIpv6(FirstBad(parts).value))
  {
    if parts != [] && IsGroup(parts[0]) { GroupsRefuse(parts[1..], out + [GroupValue(parts[0])]); }
  }

  lemma SideRefuses(side: Str)
    ensures ParseIpv6Side(side).Err? <==> FirstBad(SideParts(side)).Some?
    ensures FirstBad(SideParts(side)).Some? ==> ParseIpv6Side(side) == Err(InvalidIpv6(FirstBad(SideParts(side)).value))
  {
    GroupsRefuse(SplitOn(side, [COLON]), []);
  }

  lemma {:induction false} FirstBadConcat(a: seq<Str>, b: seq<Str>)
    ensures FirstBad(a + b) == if FirstBad(a).Some? then FirstBad(a) else FirstBad(b)
  {
    hide IsGroup;
    if a == [] {
      assert a + b == b;
    } else {
      assert (a + b)[1..] == a[1..] + b;
      FirstBadConcat(a[1..], b);
    }
  }

  lemma NothingIsBad()
    ensures FirstBad([]) == None
  {
  }

  lemma RefusesWith(raw: Str)
    requires ValidateIpv6(raw).Err?
    ensures ValidateIpv6(raw).error == Ipv6Refusal(raw)
  {
    hide ParseIpv6Side, SideParts, FirstBad;
    var pieces := SplitOn(raw, ELISION);
    NothingIsBad();
    SideRefuses(raw);
    if |pieces| == 2 {
      SideRefuses(pieces[0]);
      SideRefuses(pieces[1]);
      FirstBadConcat(SideParts(pieces[0]), SideParts(pieces[1]));
    }
  }

  /** Validation accepts exactly the full and the singly elided hexadecimal
      forms; the answer is the eight groups written out, and every answer is its
      own answer. A refusal names the first part that is no group, or the text. */
  lemma ValidateIpv6Means(raw: Str)
    ensures ValidateIpv6(raw).Ok? <==> exists groups :: Denotes(raw, groups)
    ensures forall groups :: Denotes(raw, groups) ==> ValidateIpv6(raw) == Ok(SerializeIpv6(groups))
    ensures ValidateIpv6(raw).Ok? ==> ValidateIpv6(ValidateIpv6(raw).value) == ValidateIpv6(raw)
    ensures ValidateIpv6(raw).Err? ==> ValidateIpv6(raw).error == Ipv6Refusal(raw)
  {
    forall groups | Denotes(raw, groups) ensures ValidateIpv6(raw) == Ok(SerializeIpv6(groups)) {
      DenotedIsAccepted(raw, groups);
    }
    if ValidateIpv6(raw).Ok? {
      var groups := AcceptedIsDenoted(raw);
      DenotedIsAccepted(raw, groups);
      PrintedDenotes(groups);
      DenotedIsAccepted(SerializeIpv6(groups), groups);
    } else {
      RefusesWith(raw);
    }
  }

  /** A text that is its own answer is the text of the groups it denotes. */
  lemma CanonicalAddress(raw: Str) returns (groups: seq<U16>)
    requires ValidateIpv6(raw) == Ok(raw)
    ensures Denotes(raw, groups) && SerializeIpv6(groups) == raw
  {
    groups := AcceptedIsDenoted(raw);
    DenotedIsAccepted(raw, groups);
  }

  /** A text denotes at most one address, and two texts get one answer exactly
      when they denote the same. */
  lemma SameAddressSameText(x: Str, y: Str, a: seq<U16>, b: seq<U16>)
    requires Denotes(x, a) && Denotes(y, b)
    ensures ValidateIpv6(x) == ValidateIpv6(y) <==> a == b
  {
    DenotedIsAccepted(x, a);
    DenotedIsAccepted(y, b);
    if SerializeIpv6(a) == SerializeIpv6(b) { SerializeInjective(a, b); }
  }

  /** A canonical address text holds only hexadecimal digits and colons. */
  predicate AddressBytes(s: Str) {
    forall k :: 0 <= k < |s| ==> IsHex(s[k]) || s[k] == COLON
  }

  lemma {:induction false} JoinedBytes(parts: seq<Str>)
    requires AllGroups(parts)
    ensures AddressBytes(JoinWith(parts, [COLON]))
  {
    if parts != [] {
      assert IsGroup(parts[0]);
      JoinedBytes(parts[1..]);
    }
  }

  lemma CanonicalBytes(raw: Str)
    requires ValidateIpv6(raw).Ok?
    ensures AddressBytes(ValidateIpv6(raw).value)
    ensures ValidateIpv6(raw).value != []
  {
    var groups := AcceptedIsDenoted(raw);
    DenotedIsAccepted(raw, groups);
    var parts := HexParts(groups);
    forall k | 0 <= k < 8 ensures IsGroup(parts[k]) {
      U16ToHexMeans(groups[k]);
    }
    JoinedBytes(parts);
    JoinedGroups(parts);
  }
}
