/** Parsing and resolving, against the generic syntax and the reference
    transform of RFC 3986. */
module UrlReading {
  import opened Text
  import opened Ascii
  import opened UrlError
  import opened Component
  import opened Decimal
  import opened Ipv6
  import opened Hosts
  import opened Rfc3986
  import opened Paths
  import opened CanonicalPaths
  import opened Urls

  // ----- The scans find the components of appendix B -----

  lemma {:induction false} SchemeLengthMeans(s: Str, index: nat)
    requires index <= |s| && forall k :: 0 <= k < index ==> IsSchemeByte(s[k])
    ensures var n := SchemeLength(s, index);
            n <= |s| && (forall k :: 0 <= k < n ==> IsSchemeByte(s[k])) && (n < |s| ==> !IsSchemeByte(s[n]))
    decreases |s| - index
  {
    if index < |s| && IsSchemeByte(s[index]) { SchemeLengthMeans(s, index + 1); }
  }

  lemma SchemeKept(scheme: Option<Str>, rest: Str)
    ensures DecomposeAuthority(scheme, rest).scheme == scheme
  {
  }

  /** The scheme found by the scan is the scheme of appendix B. */
  lemma SchemeAgrees(s: Str)
    ensures ReferenceScheme(s) == Decompose(s).scheme
    ensures Decompose(s) == if ReferenceScheme(s).Some?
                            then DecomposeAuthority(ReferenceScheme(s), s[|ReferenceScheme(s).value| + 1..])
                            else DecomposeAuthority(None, s)
    ensures ReferenceScheme(s).Some? ==> ReferenceScheme(s).value + [COLON] <= s
  {
    hide DecomposeAuthority, SchemeLength;
    SchemeLengthMeans(s, 0);
    SchemeKept(None, s);
    if ReferenceScheme(s).Some? { SchemeKept(ReferenceScheme(s), s[|ReferenceScheme(s).value| + 1..]); }
    var n, m := SchemeLength(s, 0), Until(s, EndsScheme);
    if ReferenceScheme(s).Some? {
      assert forall k :: 0 <= k < n ==> IsSchemeByte(s[..n][k]) && !EndsScheme(s[k]);
      assert m == n;
    }
    if m < |s| && s[m] == COLON && IsScheme(s[..m]) {
      assert forall k :: 0 <= k < m ==> IsSchemeByte(s[..m][k]);
      assert n == m;
    }
  }

  lemma {:induction false} DelimiterAgrees(s: Str, index: nat)
    requires index <= |s|
    ensures FirstDelimiter(s, index) == index + Until(s[index..], EndsAuthority)
    decreases |s| - index
  {
    if index < |s| && !EndsAuthority(s[index]) {
      assert s[index..][1..] == s[index + 1..];
      DelimiterAgrees(s, index + 1);
    }
  }

  lemma CutAgrees(s: Str, mark: Byte)
    ensures CutOptional(s, mark) == (Before(s, mark), After(s, mark))
  {
    hide SplitFirst, Free, Before, After;
    SplitFirstMeans(s, mark);
    match SplitFirst(s, [mark])
    case Found(before, after) =>
      CutAt(before, mark, Some(after));
      assert s == before + Marked([mark], Some(after));
    case NotFound =>
      CutAt(s, mark, None);
      assert s + [] == s;
  }

  // ----- The authority -----

  /** A bracketed IPv6 address, and its host text written out. */
  ghost predicate Bracketed(text: Str, host: Str, raw: Str, groups: seq<U16>) {
    && Denotes(raw, groups)
    && text == [OPEN_BRACKET] + raw + [CLOSE_BRACKET]
    && host == [OPEN_BRACKET] + SerializeIpv6(groups) + [CLOSE_BRACKET]
  }

  /** A dotted-decimal or DNS host, in lower case. */
  ghost predicate Named(text: Str, host: Str) {
    (IsIpv4(text) || IsDnsName(text)) && host == AsciiLower(text)
  }

  ghost predicate HostDenotes(text: Str, host: Str) {
    Named(text, host) || exists raw, groups :: Bracketed(text, host, raw, groups)
  }

  /** A port text: decimal, at most 65535, and `None` for the scheme's default. */
  predicate PortDenotes(digits: Str, scheme: Scheme, port: Option<Port>) {
    && digits != [] && AllDigits(digits) && DecimalValue(digits) <= 65535
    && port == if IsDefault(DecimalValue(digits), scheme) then None else Some(DecimalValue(digits))
  }

  /** [ ":" port ] */
  predicate AfterHostDenotes(after: Str, scheme: Scheme, port: Option<Port>) {
    if after == [] then port == None else after[0] == COLON && PortDenotes(after[1..], scheme, port)
  }

  /** host [ ":" port ], section 3.2 of RFC 3986 without user information. */
  ghost predicate AuthorityParts(authority: Str, scheme: Scheme, a: Authority, text: Str, after: Str) {
    authority == text + after && HostDenotes(text, a.host) && AfterHostDenotes(after, scheme, a.port)
  }

  ghost predicate AuthorityDenotes(authority: Str, scheme: Scheme, a: Authority) {
    exists text, after :: AuthorityParts(authority, scheme, a, text, after)
  }

  lemma NamedText(text: Str)
    requires IsIpv4(text) || IsDnsName(text)
    ensures text != [] && text[0] != OPEN_BRACKET && Free(text, COLON)
    ensures ValidateHost(text) == Ok(AsciiLower(text))
  {
    ValidateHostMeans(text);
    if IsIpv4(text) {
      Ipv4Bytes(text);
    } else {
      DnsNameBytes(text);
      NameBytes(AsciiLower(text));
      forall k | 0 <= k < |text| ensures text[k] != COLON && text[k] != OPEN_BRACKET {
        assert HostByte(AsciiLower(text)[k]) || AsciiLower(text)[k] == DOT;
      }
    }
  }

  lemma AddressTextBytes(raw: Str, groups: seq<U16>)
    requires Denotes(raw, groups)
    ensures AddressBytes(raw)
  {
    if parts :| Full(raw, groups, parts) {
      JoinedBytes(parts);
    } else {
      var left, right :| Elided(raw, groups, left, right);
      JoinedBytes(left);
      JoinedBytes(right);
    }
  }

  lemma AddressFree(raw: Str, groups: seq<U16>)
    requires Denotes(raw, groups)
    ensures Free(raw, CLOSE_BRACKET)
  {
    AddressTextBytes(raw, groups);
  }

  lemma AfterHostMeans(after: Str, scheme: Scheme, port: Option<Port>)
    requires AfterHostDenotes(after, scheme, port) && after != []
    ensures StartsWith(after, [COLON]) && ParsePort(DropPrefix(after, [COLON]), scheme) == Ok(port)
  {
    StartsWithMeans(after, [COLON]);
    DropPrefixMeans(after, [COLON]);
    ParsePortMeans(after[1..], scheme);
  }

  lemma BracketedDenotes(text: Str, host: Str, raw: Str, groups: seq<U16>, after: Str, scheme: Scheme, port: Option<Port>)
    requires Bracketed(text, host, raw, groups) && AfterHostDenotes(after, scheme, port)
    ensures ParseAuthority(text + after, scheme) == Ok(Authority(host, port))
  {
    AddressFree(raw, groups);
    var before := [OPEN_BRACKET] + raw;
    assert text + after == before + [CLOSE_BRACKET] + after;
    StartsWithMeans(text + after, [OPEN_BRACKET]);
    SplitFirstAt(before, CLOSE_BRACKET, after);
    DropPrefixMeans(before, [OPEN_BRACKET]);
    assert before[1..] == raw;
    DenotedIsAccepted(raw, groups);
    if after != [] { AfterHostMeans(after, scheme, port); }
  }

  lemma NamedDenotes(text: Str, after: Str, scheme: Scheme, port: Option<Port>)
    requires (IsIpv4(text) || IsDnsName(text)) && AfterHostDenotes(after, scheme, port)
    ensures ParseAuthority(text + after, scheme) == Ok(Authority(AsciiLower(text), port))
  {
    hide ValidateHost, ParsePort, SplitLast, StartsWith, IsIpv4, IsDnsName;
    NamedText(text);
    StartsWithMeans(text + after, [OPEN_BRACKET]);
    if after == [] {
      assert text + after == text;
      SplitLastMeans(text, COLON);
    } else {
      assert text + after == text + [COLON] + after[1..];
      ParsePortMeans(after[1..], scheme);
      SplitLastAt(text, COLON, after[1..]);
    }
  }

  lemma DenotedAuthority(authority: Str, scheme: Scheme, a: Authority)
    requires AuthorityDenotes(authority, scheme, a)
    ensures ParseAuthority(authority, scheme) == Ok(a)
  {
    var text, after :| AuthorityParts(authority, scheme, a, text, after);
    if Named(text, a.host) {
      NamedDenotes(text, after, scheme, a.port);
    } else {
      var raw, groups :| Bracketed(text, a.host, raw, groups);
      BracketedDenotes(text, a.host, raw, groups, after, scheme, a.port);
    }
  }

  lemma AcceptedPort(after: Str, scheme: Scheme, digits: Str)
    requires after == [COLON] + digits && ParsePort(digits, scheme).Ok?
    ensures AfterHostDenotes(after, scheme, ParsePort(digits, scheme).value)
  {
    ParsePortMeans(digits, scheme);
    assert after[1..] == digits;
  }

  /** The two halves of an accepted bracketed authority. */
  lemma BracketSplit(authority: Str) returns (raw: Str, after: Str)
    requires [OPEN_BRACKET] <= authority && SplitFirst(authority, [CLOSE_BRACKET]).Found?
    ensures var f := SplitFirst(authority, [CLOSE_BRACKET]);
            after == f.after && DropPrefix(f.before, [OPEN_BRACKET]) == raw
    ensures authority == [OPEN_BRACKET] + raw + [CLOSE_BRACKET] + after
  {
    SplitFirstMeans(authority, CLOSE_BRACKET);
    var f := SplitFirst(authority, [CLOSE_BRACKET]);
    assert authority == f.before + ([CLOSE_BRACKET] + f.after);
    assert f.before != [] && f.before[0] == OPEN_BRACKET;
    DropPrefixMeans(f.before, [OPEN_BRACKET]);
    raw, after := f.before[1..], f.after;
    assert f.before == [OPEN_BRACKET] + raw;
  }

  lemma AcceptedBracketed(authority: Str, scheme: Scheme)
    requires [OPEN_BRACKET] <= authority && ParseBracketed(authority, scheme).Ok?
    ensures AuthorityDenotes(authority, scheme, ParseBracketed(authority, scheme).value)
  {
    var a := ParseBracketed(authority, scheme).value;
    var raw, after := BracketSplit(authority);
    var groups := AcceptedIsDenoted(raw);
    DenotedIsAccepted(raw, groups);
    var text := [OPEN_BRACKET] + raw + [CLOSE_BRACKET];
    assert Bracketed(text, a.host, raw, groups);
    if after != [] {
      StartsWithMeans(after, [COLON]);
      DropPrefixMeans(after, [COLON]);
      AcceptedPort(after, scheme, after[1..]);
    }
    assert AuthorityParts(authority, scheme, a, text, after);
  }

  lemma AcceptedHost(text: Str, after: Str, scheme: Scheme, port: Option<Port>)
    requires ValidateHost(text).Ok? && AfterHostDenotes(after, scheme, port)
    ensures AuthorityDenotes(text + after, scheme, Authority(ValidateHost(text).value, port))
  {
    ValidateHostMeans(text);
    var a := Authority(ValidateHost(text).value, port);
    assert Named(text, a.host);
    assert AuthorityParts(text + after, scheme, a, text, after);
  }

  lemma AcceptedHostPort(before: Str, digits: Str, scheme: Scheme)
    requires ValidateHost(before).Ok? && ParsePort(digits, scheme).Ok?
    ensures AuthorityDenotes(before + [COLON] + digits, scheme,
                             Authority(ValidateHost(before).value, ParsePort(digits, scheme).value))
  {
    var after := [COLON] + digits;
    AcceptedPort(after, scheme, digits);
    AcceptedHost(before, after, scheme, ParsePort(digits, scheme).value);
    assert before + after == before + [COLON] + digits;
  }

  lemma AcceptedNamed(authority: Str, scheme: Scheme)
    requires ParseNamed(authority, scheme).Ok?
    ensures AuthorityDenotes(authority, scheme, ParseNamed(authority, scheme).value)
  {
    SplitLastMeans(authority, COLON);
    var f := SplitLast(authority, [COLON]);
    if f.Found? {
      AcceptedHostPort(f.before, f.after, scheme);
    } else {
      AcceptedHost(authority, [], scheme, None);
      assert authority == authority + [];
    }
  }

  /** An authority is accepted exactly when it is a host and an optional port,
      and the answer is the host and port it denotes. */
  lemma ParseAuthorityMeans(authority: Str, scheme: Scheme)
    ensures ParseAuthority(authority, scheme).Ok? <==> exists a :: AuthorityDenotes(authority, scheme, a)
    ensures forall a :: AuthorityDenotes(authority, scheme, a) ==> ParseAuthority(authority, scheme) == Ok(a)
  {
    forall a | AuthorityDenotes(authority, scheme, a) ensures ParseAuthority(authority, scheme) == Ok(a) {
      DenotedAuthority(authority, scheme, a);
    }
    if ParseAuthority(authority, scheme).Ok? {
      StartsWithMeans(authority, [OPEN_BRACKET]);
      if [OPEN_BRACKET] <= authority { AcceptedBracketed(authority, scheme); } else { AcceptedNamed(authority, scheme); }
      assert AuthorityDenotes(authority, scheme, ParseAuthority(authority, scheme).value);
    }
  }

  // ----- Refusing an authority -----

  /** Why an authority that starts with a bracket is refused: there is no closing
      one, the address between them is none, or what follows is no port. */
  function BracketRefusal(authority: Str): ParseErr
    requires [OPEN_BRACKET] <= authority
  {
    var n := IndexOf(authority, CLOSE_BRACKET);
    if n == |authority| then InvalidIpv6(authority)
    else
      var raw, after := authority[1..n], authority[n + 1..];
      if ValidateIpv6(raw).Err? then Ipv6Refusal(raw)
      else if [COLON] <= after then PortRefusal(after[1..])
      else InvalidIpv6(authority)
  }

  lemma BracketedRefuses(authority: Str, scheme: Scheme)
    requires [OPEN_BRACKET] <= authority && ParseBracketed(authority, scheme).Err?
    ensures ParseBracketed(authority, scheme).error == BracketRefusal(authority)
  {
    hide ValidateIpv6, ParsePort, SplitFirst, Ipv6Refusal, PortRefusal;
    var n := IndexOf(authority, CLOSE_BRACKET);
    SplitFirstMeans(authority, CLOSE_BRACKET);
    if n < |authority| {
      var before, after := authority[..n], authority[n + 1..];
      assert authority == before + [CLOSE_BRACKET] + after;
      SplitFirstAt(before, CLOSE_BRACKET, after);
      DropPrefixMeans(before, [OPEN_BRACKET]);
      assert before[1..] == authority[1..n];
      ValidateIpv6Means(authority[1..n]);
      StartsWithMeans(after, [COLON]);
      if [COLON] <= after {
        DropPrefixMeans(after, [COLON]);
        ParsePortMeans(after[1..], scheme);
      }
    }
  }

  /** A refused authority answers its first fault: in brackets as above, and
      otherwise the fault of the text before its last colon, if that is no host,
      and then of the port after it. */
  lemma ParseAuthorityRefuses(authority: Str, scheme: Scheme)
    requires ParseAuthority(authority, scheme).Err?
    ensures [OPEN_BRACKET] <= authority ==> ParseAuthority(authority, scheme).error == BracketRefusal(authority)
    ensures !([OPEN_BRACKET] <= authority) && Free(authority, COLON) ==>
              ParseAuthority(authority, scheme).error == HostRefusal(authority)
    ensures forall host, digits ::
              !([OPEN_BRACKET] <= authority) && authority == host + [COLON] + digits && Free(digits, COLON) ==>
                ParseAuthority(authority, scheme).error ==
                if IsIpv4(host) || IsDnsName(host) then PortRefusal(digits) else HostRefusal(host)
  {
    hide ParseBracketed, SplitLast, ValidateHost, ParsePort, IsIpv4, IsDnsName, HostRefusal, PortRefusal, BracketRefusal;
    StartsWithMeans(authority, [OPEN_BRACKET]);
    if [OPEN_BRACKET] <= authority {
      BracketedRefuses(authority, scheme);
    } else {
      SplitLastMeans(authority, COLON);
      ValidateHostMeans(authority);
      forall host, digits | authority == host + [COLON] + digits && Free(digits, COLON)
        ensures ParseAuthority(authority, scheme).error ==
                if IsIpv4(host) || IsDnsName(host) then PortRefusal(digits) else HostRefusal(host)
      {
        SplitLastAt(host, COLON, digits);
        ValidateHostMeans(host);
        ParsePortMeans(digits, scheme);
      }
    }
  }

  // ----- Parsing -----

  function PathOrRoot(path: Str): Str { if path == [] then [SLASH] else path }

  /** How the components beside a known scheme are read, with the error each
      one answers in the order they are looked at. The path is the reference's
      own without its dot segments (section 5.2.2), in canonical form. */
  function ReadAuthority(scheme: Scheme, r: Reference): Result<Url, ParseErr>
    requires r.authority.Some?
  {
    if r.authority.value == [] then Err(EmptyHost)
    else if AT in r.authority.value then Err(CredentialsNotAllowed)
    else
      var a :- ParseAuthority(r.authority.value, scheme);
      var path := PathOrRoot(r.path);
      var c :- ValidateComponents(path, r.query, r.fragment);
      Ok(Url(scheme, a.host, a.port, Canon(RemoveDotSegments(path, [])), c.query, c.fragment))
  }

  /** How an absolute reference is read, component by component. */
  function ReadAbsolute(r: Reference): Result<Url, ParseErr> {
    if r.scheme.None? then Err(MissingScheme)
    else
      var name := AsciiLower(r.scheme.value);
      if name != HTTP && name != HTTPS then Err(UnsupportedScheme(name))
      else if r.authority.None? then Err(MissingAuthority)
      else ReadAuthority(if name == HTTP then Http else Https, r)
  }

  lemma CanonKeepsRoot(path: Str)
    requires [SLASH] <= path && ValidateComponent(path, Path).Ok?
    ensures [SLASH] <= ValidateComponent(path, Path).value
  {
    ValidateMeans(path, Path);
    assert Canon(path) == CanonUnit(path) + Canon(path[UnitLength(path)..]);
  }

  /** Beside an authority the path is empty or rooted. */
  lemma RestIsRooted(scheme: Option<Str>, authority: Option<Str>, rest: Str)
    requires rest == [] || EndsAuthority(rest[0])
    ensures var r := DecomposeRest(scheme, authority, rest); r.path == [] || r.path[0] == SLASH
  {
    var hier := Before(rest, HASH);
    var path := Before(hier, QUESTION);
    if path != [] { assert path[0] == hier[0] == rest[0]; }
  }

  lemma DecomposeRooted(s: Str)
    ensures var r := Decompose(s); r.authority.Some? ==> r.path == [] || r.path[0] == SLASH
  {
    SchemeAgrees(s);
    var scheme := ReferenceScheme(s);
    var rest := if scheme.Some? then s[|scheme.value| + 1..] else s;
    if SLASHES <= rest {
      var after := rest[2..];
      var n := Until(after, EndsAuthority);
      RestIsRooted(scheme, Some(after[..n]), after[n..]);
    }
  }

  lemma ParseSuffixMeans(suffix: Str)
    requires suffix == [] || EndsAuthority(suffix[0])
    ensures var r := DecomposeRest(None, None, suffix);
            && ParseSuffix(suffix) ==
               ValidateComponents(PathOrRoot(r.path), r.query, r.fragment)
            && (ParseSuffix(suffix).Ok? ==> [SLASH] <= ParseSuffix(suffix).value.path)
  {
    CutAgrees(suffix, HASH);
    var hier := Before(suffix, HASH);
    CutAgrees(hier, QUESTION);
    RestIsRooted(None, None, suffix);
    var raw := Before(hier, QUESTION);
    var path := if raw == [] then [SLASH] else raw;
    StartsWithMeans(path, [SLASH]);
    if ParseSuffix(suffix).Ok? { CanonKeepsRoot(path); }
  }

  /** A text that starts with another byte than the three that end an authority is
      no path: its first byte is refused. */
  lemma ParseSuffixRefuses(suffix: Str)
    requires suffix != [] && !EndsAuthority(suffix[0])
    ensures ParseSuffix(suffix) == Err(InvalidCharacter(suffix[0]))
  {
    CutAgrees(suffix, HASH);
    var hier := Before(suffix, HASH);
    CutAgrees(hier, QUESTION);
    StartsWithMeans(Before(hier, QUESTION), [SLASH]);
  }

  /** The path of accepted components, normalized. */
  lemma ReadPath(path: Str, query: Option<Str>, fragment: Option<Str>)
    requires [SLASH] <= path && ValidateComponents(path, query, fragment).Ok?
    ensures NormalizePath(ValidateComponents(path, query, fragment).value.path) == Canon(RemoveDotSegments(path, []))
  {
    hide Acceptable, RemoveDotSegments, NormalizePath;
    ValidateMeans(path, Path);
    CanonKeepsRoot(path);
    NormalizeIsRemoveDotSegments(Canon(path));
    RemoveDotsCanon(path);
  }

  /** What follows the authority, as the components read it. */
  lemma SuffixReads(suffix: Str)
    requires suffix == [] || EndsAuthority(suffix[0])
    ensures var r := DecomposeRest(None, None, suffix);
            && ParseSuffix(suffix) == ValidateComponents(PathOrRoot(r.path), r.query, r.fragment)
            && (ParseSuffix(suffix).Ok? ==>
                  NormalizePath(ParseSuffix(suffix).value.path) == Canon(RemoveDotSegments(PathOrRoot(r.path), [])))
  {
    hide ParseSuffix, ValidateComponents, NormalizePath, RemoveDotSegments, Canon, DecomposeRest;
    ParseSuffixMeans(suffix);
    RestIsRooted(None, None, suffix);
    var r := DecomposeRest(None, None, suffix);
    if ParseSuffix(suffix).Ok? { ReadPath(PathOrRoot(r.path), r.query, r.fragment); }
  }

  lemma RestComponents(scheme: Option<Str>, authority: Option<Str>, rest: Str)
    ensures DecomposeRest(scheme, authority, rest) == DecomposeRest(None, None, rest).(scheme := scheme, authority := authority)
  {
  }

  lemma ParseAfterSlashes(scheme: Scheme, name: Option<Str>, after: Str)
    ensures ParseAfterScheme(scheme, after) == ReadAuthority(scheme, DecomposeAfterSlashes(name, after))
  {
    hide ParseAuthority, ParseSuffix, ValidateComponents, NormalizePath, RemoveDotSegments, Canon, DecomposeRest;
    DelimiterAgrees(after, 0);
    assert after[0..] == after;
    var n := FirstDelimiter(after, 0);
    SuffixReads(after[n..]);
    RestComponents(name, Some(after[..n]), after[n..]);
  }

  lemma ParseSchemed(s: Str, name: Str)
    requires ReferenceScheme(s) == Some(name) && name + [COLON] <= s
    ensures Parse(s) == ReadAbsolute(DecomposeAuthority(Some(name), s[|name| + 1..]))
  {
    var rest := s[|name| + 1..];
    DropPrefixMeans(s, name + [COLON]);
    StartsWithMeans(rest, SLASHES);
    if SLASHES <= rest {
      DropPrefixMeans(rest, SLASHES);
      ParseAfterSlashes(Http, Some(name), rest[2..]);
      ParseAfterSlashes(Https, Some(name), rest[2..]);
    }
  }

  /** `parse` reads exactly the components the generic syntax finds, answering
      each one's error in turn. */
  lemma ParseReads(s: Str)
    ensures Parse(s) == ReadAbsolute(Decompose(s))
  {
    SchemeAgrees(s);
    if ReferenceScheme(s).Some? { ParseSchemed(s, ReferenceScheme(s).value); }
  }

  // ----- Parsing, from the text itself -----

  /** The name of a scheme, in any case. */
  predicate Spells(name: Str, scheme: Scheme) {
    && |name| == (match scheme case Http => 4 case Https => 5)
    && (name[0] == 'h' as int || name[0] == 'H' as int)
    && (name[1] == 't' as int || name[1] == 'T' as int)
    && (name[2] == 't' as int || name[2] == 'T' as int)
    && (name[3] == 'p' as int || name[3] == 'P' as int)
    && (scheme == Https ==> name[4] == 's' as int || name[4] == 'S' as int)
  }

  lemma SpelledName(name: Str, scheme: Scheme)
    requires Spells(name, scheme)
    ensures IsScheme(name) && AsciiLower(name) == (match scheme case Http => HTTP case Https => HTTPS)
    ensures HTTP != HTTPS
  {
    assert |HTTP| != |HTTPS|;
  }

  /** An accepted host text ends no authority and holds no `@`. */
  lemma HostTextBytes(text: Str, host: Str)
    requires HostDenotes(text, host)
    ensures text != [] && forall k :: 0 <= k < |text| ==> !EndsAuthority(text[k]) && text[k] != AT
  {
    if Named(text, host) {
      if IsIpv4(text) {
        Ipv4Bytes(text);
      } else {
        DnsNameBytes(text);
        NameBytes(AsciiLower(text));
        assert forall k :: 0 <= k < |text| ==> HostByte(AsciiLower(text)[k]) || AsciiLower(text)[k] == DOT;
      }
    } else {
      var raw, groups :| Bracketed(text, host, raw, groups);
      AddressTextBytes(raw, groups);
    }
  }

  /** A port as it is written after a host: nothing, or a colon and digits. */
  function PortText(digits: Option<Str>): Str {
    if digits.Some? then [58] + digits.value else []
  }

  predicate PortWritten(digits: Option<Str>) {
    digits.Some? ==> digits.value != [] && AllDigits(digits.value) && DecimalValue(digits.value) <= 65535
  }

  lemma SchemeBytes(name: Str)
    requires IsScheme(name)
    ensures forall k :: 0 <= k < |name| ==> !EndsScheme(name[k])
  {
    assert forall k :: 0 <= k < |name| ==> IsSchemeByte(name[k]);
  }

  lemma AuthorityEnds(authority: Str)
    requires AuthorityText(authority)
    ensures forall k :: 0 <= k < |authority| ==> !EndsAuthority(authority[k])
  {
  }

  lemma SchemeCut(name: Str, after: Str)
    requires IsScheme(name)
    ensures Decompose(name + ([58] + after)) == DecomposeAuthority(Some(name), after)
  {
    hide DecomposeAuthority, IsScheme;
    SchemeBytes(name);
    var s := name + ([58] + after);
    UntilAt(name, [58] + after, EndsScheme);
    assert s[..|name|] == name && s[|name| + 1..] == after;
  }

  lemma AuthorityCut(scheme: Option<Str>, authority: Str, rest: Str)
    requires AuthorityText(authority) && (rest == [] || EndsAuthority(rest[0]))
    ensures DecomposeAuthority(scheme, [47, 47] + (authority + rest)) == DecomposeRest(scheme, Some(authority), rest)
  {
    hide DecomposeRest, AuthorityText;
    AuthorityEnds(authority);
    var after := authority + rest;
    assert ([47, 47] + after)[2..] == after;
    UntilAt(authority, rest, EndsAuthority);
    assert after[..|authority|] == authority && after[|authority|..] == rest;
  }

  /** The components of a text with a scheme and an authority written out. */
  lemma TextDecomposes(name: Str, authority: Str, rest: Str)
    requires IsScheme(name) && AuthorityText(authority) && (rest == [] || EndsAuthority(rest[0]))
    ensures Decompose(name + [58, 47, 47] + authority + rest) == DecomposeRest(Some(name), Some(authority), rest)
  {
    hide Decompose, DecomposeAuthority, DecomposeRest, IsScheme, AuthorityText;
    assert name + [58, 47, 47] + authority + rest == name + ([58] + ([47, 47] + (authority + rest)));
    SchemeCut(name, [47, 47] + (authority + rest));
    AuthorityCut(Some(name), authority, rest);
  }

  /** From the bytes: a scheme name in any case, `://`, a host, a port or none,
      and a rest whose components are acceptable are parsed, and only with such a
      rest. The answer has that scheme and host, and that port unless it is 80
      for http or 443 for https or none was written. */
  lemma ParseText(name: Str, scheme: Scheme, text: Str, host: Str, digits: Option<Str>, rest: Str)
    requires Spells(name, scheme) && HostDenotes(text, host) && PortWritten(digits)
    requires rest == [] || rest[0] == 47 || rest[0] == 63 || rest[0] == 35
    ensures var s := name + [58, 47, 47] + (text + PortText(digits)) + rest;
            var r := DecomposeRest(None, None, rest);
            && (Parse(s).Ok? <==> ValidateComponents(PathOrRoot(r.path), r.query, r.fragment).Ok?)
            && (Parse(s).Ok? ==>
                  && Parse(s).value.scheme == scheme && Parse(s).value.host == host
                  && (digits == None ==> Parse(s).value.port == None)
                  && (digits.Some? && scheme == Http ==>
                        Parse(s).value.port == if DecimalValue(digits.value) == 80 then None else Some(DecimalValue(digits.value)))
                  && (digits.Some? && scheme == Https ==>
                        Parse(s).value.port == if DecimalValue(digits.value) == 443 then None else Some(DecimalValue(digits.value))))
  {
    hide Parse, ParseAuthority, ValidateComponents, RemoveDotSegments, Decompose, DecomposeRest, HostDenotes, AsciiLower;
    var authority := text + PortText(digits);
    var s := name + [58, 47, 47] + authority + rest;
    SpelledName(name, scheme);
    HostTextBytes(text, host);
    assert forall k :: 0 <= k < |authority| ==> !EndsAuthority(authority[k]) && authority[k] != AT;
    TextDecomposes(name, authority, rest);
    RestComponents(Some(name), Some(authority), rest);
    ParseReads(s);
    var port := if digits.None? || IsDefault(DecimalValue(digits.value), scheme) then None else Some(DecimalValue(digits.value));
    var a := Authority(host, port);
    if digits.Some? { assert PortText(digits)[1..] == digits.value; }
    assert AuthorityParts(authority, scheme, a, text, PortText(digits));
    DenotedAuthority(authority, scheme, a);
  }

  // ----- Resolving -----

  /** The five components of a URL. */
  function AsReference(u: Url): Reference {
    Reference(Some(SchemeStr(u.scheme)), Some(u.host + PortStr(u.port)), u.path, u.query, u.fragment)
  }

  /** `resolve` computes the reference transform of section 5.2.2 from components
      already in canonical form; it equals `parse` on a reference with a scheme,
      refuses a network-path reference, and otherwise fails only as validation
      does. */
  lemma ResolveIsTransform(base: Url, s: Str)
    requires [SLASH] <= base.path
    ensures var r := Decompose(s);
            if r.scheme.Some? then Resolve(base, s) == Parse(s)
            else if r.authority.Some? then Resolve(base, s) == Err(MissingScheme)
            else
              match ValidateComponents(r.path, r.query, r.fragment)
              case Err(e) => Resolve(base, s) == Err(e)
              case Ok(c) =>
                && Resolve(base, s).Ok?
                && AsReference(Resolve(base, s).value) ==
                   Transform(AsReference(base), Reference(None, None, c.path, c.query, c.fragment))
  {
    hide ValidateComponents, NormalizePath, RemoveDotSegments, PathDirectory, StartsWith;
    SchemeAgrees(s);
    StartsWithMeans(s, SLASHES);
    if ReferenceScheme(s).None? && !(SLASHES <= s) {
      CutAgrees(s, HASH);
      CutAgrees(Before(s, HASH), QUESTION);
      var r := Decompose(s);
      assert ParseRelative(s) == ValidateComponents(r.path, r.query, r.fragment);
      if ParseRelative(s).Ok? {
        var path := ParseRelative(s).value.path;
        StartsWithMeans(path, [SLASH]);
        PathDirectoryMeans(base.path);
        if [SLASH] <= path {
          NormalizeIsRemoveDotSegments(path);
        } else {
          NormalizeIsRemoveDotSegments(PathDirectory(base.path) + path);
        }
      }
    }
  }
}
