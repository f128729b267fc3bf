/** Every URL a program can reach prints to text that parses back to it. */
module UrlRoundTrip {
  import opened Text
  import opened Ascii
  import opened UrlError
  import opened Component
  import opened Decimal
  import opened Ipv6
  import opened Hosts
  import opened Rfc3986
  import opened Paths
  import opened CanonicalPaths
  import opened Urls
  import opened UrlReading

  /** A host in canonical form. */
  predicate ValidHost(host: Str) {
    if [OPEN_BRACKET] <= host then
      && |host| > 2 && host[|host| - 1] == CLOSE_BRACKET
      && ValidateIpv6(host[1..|host| - 1]) == Ok(host[1..|host| - 1])
    else ValidateHost(host) == Ok(host)
  }

  ghost predicate CanonicalOption(option: Option<Str>, kind: Kind) {
    option.Some? ==> Canonical(option.value, kind)
  }

  /** A default port written down, which the record never does. */
  predicate DefaultStored(port: Option<Port>, scheme: Scheme) {
    port.Some? && IsDefault(port.value, scheme)
  }

  /** The invariant hidden behind the opaque record. */
  ghost predicate Valid(u: Url) {
    && ValidHost(u.host)
    && !DefaultStored(u.port, u.scheme)
    && Canonical(u.path, Path) && Normalized(u.path)
    && CanonicalOption(u.query, Query)
    && CanonicalOption(u.fragment, Fragment)
  }

  /** The invariant is not empty: the URL of a one-letter host has it. */
  lemma SmallestIsValid()
    ensures Valid(Url(Http, [97], None, [SLASH], None, None))
  {
    var host: Str := [97];
    SplitFree(host, DOT);
    assert AsciiLower(host) == host;
    SplitConcat([], SLASH, []);
    assert [] + [SLASH] + [] == [SLASH];
    assert CanonicalAt([SLASH], Path, 0);
  }

  // ----- The text of a valid URL has the components of the URL -----

  lemma CanonicalFree(s: Str, kind: Kind)
    requires Canonical(s, kind)
    ensures kind != Fragment ==> Free(s, HASH)
    ensures kind == Path ==> Free(s, QUESTION)
  {
    forall i | 0 <= i < |s| ensures kind != Fragment ==> s[i] != HASH
                            ensures kind == Path ==> s[i] != QUESTION {
      assert CanonicalAt(s, kind, i);
    }
  }

  /** Bytes that appear in a canonical host or in a printed port. */
  predicate AuthorityByte(b: Byte) {
    HostByte(b) || b == DOT || b == COLON || b == OPEN_BRACKET || b == CLOSE_BRACKET
  }

  predicate AuthorityBytes(s: Str) {
    forall k :: 0 <= k < |s| ==> AuthorityByte(s[k])
  }

  lemma ValidHostBytes(host: Str)
    requires ValidHost(host)
    ensures host != [] && AuthorityBytes(host)
  {
    if [OPEN_BRACKET] <= host {
      var raw := host[1..|host| - 1];
      CanonicalBytes(raw);
      forall k | 0 <= k < |host| ensures AuthorityByte(host[k]) {
        if 0 < k < |host| - 1 { assert host[k] == raw[k - 1]; }
      }
    } else {
      HostIsCanonical(host);
    }
  }

  lemma PortBytes(port: Option<Port>)
    ensures AuthorityBytes(PortStr(port))
  {
    if port.Some? { DecimalStrMeans(port.value); }
  }

  lemma SchemeText(scheme: Scheme)
    ensures IsScheme(SchemeStr(scheme)) && AsciiLower(SchemeStr(scheme)) == SchemeStr(scheme)
    ensures SchemeStr(scheme) == HTTP <==> scheme == Http
  {
    assert |HTTP| != |HTTPS|;
    var s := SchemeStr(scheme);
    assert forall k :: 0 <= k < |s| ==> AsciiLower(s)[k] == s[k];
  }

  /** The printed text, with its marks written out. */
  lemma PrintedText(u: Url)
    ensures ToStr(u) ==
            Lit(match u.scheme case Http => "http" case Https => "https") + Lit("://") + u.host
            + (if u.port.Some? then Lit(":") + DecimalStr(u.port.value) else []) + u.path
            + (if u.query.Some? then Lit("?") + u.query.value else [])
            + (if u.fragment.Some? then Lit("#") + u.fragment.value else [])
  {
    assert HTTP == Lit("http") && HTTPS == Lit("https");
    assert [COLON, SLASH, SLASH] == Lit("://") && [COLON] == Lit(":") && [QUESTION] == Lit("?") && [HASH] == Lit("#");
    hide DecimalStr, Lit;
  }

  lemma PrintIsRecompose(u: Url)
    ensures ToStr(u) == Recompose(AsReference(u))
  {
    var a, b, c, d := SchemeStr(u.scheme), u.host + PortStr(u.port), u.path, OptionalStr(QUESTION, u.query);
    var e := OptionalStr(HASH, u.fragment);
    assert d == Marked([QUESTION], u.query) && e == Marked([HASH], u.fragment);
    assert [COLON, SLASH, SLASH] == [COLON] + [SLASH, SLASH];
    assert a + [COLON, SLASH, SLASH] + u.host + PortStr(u.port) + c + d + e
        == (a + [COLON]) + (([SLASH, SLASH] + b) + (c + d + e));
  }

  /** The printed text decomposes into the URL's own components. */
  lemma PrintDecomposes(u: Url)
    requires Valid(u)
    ensures Decompose(ToStr(u)) == AsReference(u)
  {
    hide Decompose, Recompose, ToStr, ValidHost, Canonical, SchemeStr, PortStr, IsScheme;
    var r := AsReference(u);
    SchemeText(u.scheme);
    ValidHostBytes(u.host);
    PortBytes(u.port);
    assert AuthorityText(r.authority.value) by {
      forall k | 0 <= k < |r.authority.value| ensures !EndsAuthority(r.authority.value[k]) {
        if k < |u.host| { assert r.authority.value[k] == u.host[k]; }
        else { assert r.authority.value[k] == PortStr(u.port)[k - |u.host|]; }
      }
    }
    CanonicalFree(u.path, Path);
    if u.query.Some? { CanonicalFree(u.query.value, Query); }
    PrintIsRecompose(u);
    RecomposeRoundTrip(r);
  }

  lemma CanonicalBracket(host: Str) returns (raw: Str, groups: seq<U16>)
    requires ValidHost(host) && [OPEN_BRACKET] <= host
    ensures Bracketed(host, host, raw, groups)
  {
    hide ValidateIpv6, ValidateHost;
    raw := host[1..|host| - 1];
    groups := CanonicalAddress(raw);
    assert host == [OPEN_BRACKET] + raw + [CLOSE_BRACKET];
  }

  lemma PortTextMeans(port: Option<Port>, scheme: Scheme)
    requires !DefaultStored(port, scheme)
    ensures AfterHostDenotes(PortStr(port), scheme, port)
  {
    if port.Some? {
      DecimalStrMeans(port.value);
      assert PortStr(port)[1..] == DecimalStr(port.value);
    }
  }

  /** A canonical host and a stored port are what their text denotes. */
  lemma PrintedAuthority(u: Url)
    requires ValidHost(u.host) && !DefaultStored(u.port, u.scheme)
    ensures ParseAuthority(u.host + PortStr(u.port), u.scheme) == Ok(Authority(u.host, u.port))
  {
    PortTextMeans(u.port, u.scheme);
    if [OPEN_BRACKET] <= u.host {
      var raw, groups := CanonicalBracket(u.host);
      BracketedDenotes(u.host, u.host, raw, groups, PortStr(u.port), u.scheme, u.port);
    } else {
      ValidateHostMeans(u.host);
      NamedDenotes(u.host, PortStr(u.port), u.scheme, u.port);
    }
  }

  lemma PrintedComponents(u: Url)
    requires Valid(u)
    ensures ValidateComponents(u.path, u.query, u.fragment) == Ok(Components(u.path, u.query, u.fragment))
  {
    ValidateIsCanonical(u.path, Path);
    if u.query.Some? { ValidateIsCanonical(u.query.value, Query); }
    if u.fragment.Some? { ValidateIsCanonical(u.fragment.value, Fragment); }
  }

  lemma AuthorityTextMeans(u: Url)
    requires ValidHost(u.host)
    ensures u.host + PortStr(u.port) != [] && AT !in u.host + PortStr(u.port)
  {
    ValidHostBytes(u.host);
    PortBytes(u.port);
  }

  /** The components of a valid URL read back as the URL. */
  lemma ReadBack(u: Url)
    requires Valid(u)
    ensures ReadAuthority(u.scheme, AsReference(u)) == Ok(u)
  {
    AuthorityTextMeans(u);
    PrintedAuthority(u);
    PrintedComponents(u);
    NormalizeIsCanonical(u.path);
    NormalizeIsRemoveDotSegments(u.path);
    CanonFixes(u.path, Path);
  }

  /** Printing and then parsing a valid URL gives the URL. */
  lemma ParsePrint(u: Url)
    requires Valid(u)
    ensures Parse(ToStr(u)) == Ok(u)
  {
    PrintDecomposes(u);
    ParseReads(ToStr(u));
    SchemeText(u.scheme);
    ReadBack(u);
  }

  // ----- Every builder keeps the invariant -----

  lemma AuthorityIsValid(authority: Str, scheme: Scheme)
    requires ParseAuthority(authority, scheme).Ok?
    ensures ValidHost(ParseAuthority(authority, scheme).value.host)
    ensures !DefaultStored(ParseAuthority(authority, scheme).value.port, scheme)
  {
    ParseAuthorityMeans(authority, scheme);
    var a := ParseAuthority(authority, scheme).value;
    var b :| AuthorityDenotes(authority, scheme, b);
    var text, after :| AuthorityParts(authority, scheme, a, text, after);
    if Named(text, a.host) {
      NamedText(text);
      HostIsCanonical(text);
      assert HostBytes(a.host);
    } else {
      var raw, groups :| Bracketed(text, a.host, raw, groups);
      DenotedIsAccepted(raw, groups);
      ValidateIpv6Means(raw);
      CanonicalBytes(raw);
      assert a.host[1..|a.host| - 1] == SerializeIpv6(groups);
    }
  }

  ghost predicate CanonicalSegments(segments: seq<Str>) {
    forall k :: 0 <= k < |segments| ==> Canonical(segments[k], Path)
  }

  lemma {:induction false} SegmentsCanonical(s: Str)
    requires Canonical(s, Path)
    ensures CanonicalSegments(SplitOn(s, [SLASH]))
    decreases |s|
  {
    SplitFirstMeans(s, SLASH);
    if Free(s, SLASH) {
      SplitFree(s, SLASH);
    } else {
      var f := SplitFirst(s, [SLASH]);
      CanonicalCut(f.before, SLASH, f.after, Path);
      SegmentsCanonical(f.after);
      SplitConcat(f.before, SLASH, f.after);
      SplitFree(f.before, SLASH);
    }
  }

  lemma {:induction false} JoinCanonical(segments: seq<Str>)
    requires CanonicalSegments(segments)
    ensures Canonical(Flat(segments), Path)
  {
    if segments != [] {
      JoinCanonical(segments[1..]);
      assert CanonicalAt([SLASH], Path, 0);
      CanonicalConcat([SLASH], segments[0], Path);
      CanonicalConcat([SLASH] + segments[0], Flat(segments[1..]), Path);
    }
  }

  lemma {:induction false} NormalizeKeepsCanonical(segments: seq<Str>, out: seq<Str>)
    requires CanonicalSegments(segments) && CanonicalSegments(out)
    ensures CanonicalSegments(NormalizeSegments(segments, out))
  {
    if segments == [] {
    } else if segments == [[DOT]] || segments == [[DOT, DOT]] {
      assert Canonical([], Path);
    } else if segments[0] == [DOT] {
      NormalizeKeepsCanonical(segments[1..], out);
    } else if segments[0] == [DOT, DOT] {
      NormalizeKeepsCanonical(segments[1..], DropLast(out));
    } else {
      NormalizeKeepsCanonical(segments[1..], out + [segments[0]]);
    }
  }

  /** Cutting a canonical path into segments, dropping some and joining the
      rest leaves it canonical. */
  lemma NormalizedIsCanonical(path: Str)
    requires [SLASH] <= path && Canonical(path, Path)
    ensures Canonical(NormalizePath(path), Path) && Normalized(NormalizePath(path))
  {
    NormalizeIsCanonical(path);
    StartsWithMeans(path, [SLASH]);
    SegmentsCanonical(path);
    RootedPath(path);
    assert CanonicalSegments(Segments(path));
    NormalizeKeepsCanonical(Segments(path), []);
    NormalizedSegments(Segments(path), []);
    FlatJoin(NormalizeSegments(Segments(path), []));
    JoinCanonical(NormalizeSegments(Segments(path), []));
  }

  lemma ComponentsAreCanonical(path: Str, query: Option<Str>, fragment: Option<Str>)
    requires ValidateComponents(path, query, fragment).Ok?
    ensures var c := ValidateComponents(path, query, fragment).value;
            Canonical(c.path, Path) && CanonicalOption(c.query, Query) && CanonicalOption(c.fragment, Fragment)
    ensures [SLASH] <= path ==> [SLASH] <= ValidateComponents(path, query, fragment).value.path
  {
    ValidateMeans(path, Path);
    ValidateIsCanonical(path, Path);
    if query.Some? { ValidateMeans(query.value, Query); ValidateIsCanonical(query.value, Query); }
    if fragment.Some? { ValidateMeans(fragment.value, Fragment); ValidateIsCanonical(fragment.value, Fragment); }
    if [SLASH] <= path { CanonKeepsRoot(path); }
  }

  lemma ParseIsValid(s: Str)
    ensures Parse(s).Ok? ==> Valid(Parse(s).value)
  {
    hide Parse, Decompose, ParseAuthority, ValidateComponents, NormalizePath, RemoveDotSegments, ValidHost, Normalized;
    if Parse(s).Ok? {
      ParseReads(s);
      DecomposeRooted(s);
      var r := Decompose(s);
      var u := Parse(s).value;
      AuthorityIsValid(r.authority.value, u.scheme);
      var path := PathOrRoot(r.path);
      ComponentsAreCanonical(path, r.query, r.fragment);
      ReadPath(path, r.query, r.fragment);
      NormalizedIsCanonical(ValidateComponents(path, r.query, r.fragment).value.path);
    }
  }

  lemma ResolveKeepsAuthority(base: Url, s: Str)
    ensures Decompose(s).scheme.None? && Resolve(base, s).Ok? ==>
              var u := Resolve(base, s).value; u.scheme == base.scheme && u.host == base.host && u.port == base.port
  {
    SchemeAgrees(s);
  }

  lemma {:induction false} NoDirectory(path: Str)
    requires Free(path, SLASH)
    ensures UpToLastSlash(path) == []
  {
    if path != [] {
      assert path[|path| - 1] in path;
      NoDirectory(path[..|path| - 1]);
    }
  }

  lemma DirectoryCanonical(path: Str)
    requires Canonical(path, Path)
    ensures Canonical(UpToLastSlash(path), Path)
  {
    SplitLastMeans(path, SLASH);
    if Free(path, SLASH) {
      NoDirectory(path);
    } else {
      var f := SplitLast(path, [SLASH]);
      UpToLastSlashMeans(f.before, f.after);
      CanonicalCut(f.before, SLASH, f.after, Path);
      assert CanonicalAt([SLASH], Path, 0);
      CanonicalConcat(f.before, [SLASH], Path);
    }
  }

  /** The path a reference resolves to. */
  lemma ResolvedPath(base: Url, path: Str)
    requires Canonical(base.path, Path) && Normalized(base.path) && Canonical(path, Path)
    ensures var p := Transform(AsReference(base), Reference(None, None, path, None, None)).path;
            Canonical(p, Path) && Normalized(p)
  {
    if [SLASH] <= path {
      NormalizedIsCanonical(path);
      NormalizeIsRemoveDotSegments(path);
    } else if path != [] {
      var dir := UpToLastSlash(base.path);
      PathDirectoryMeans(base.path);
      DirectoryCanonical(base.path);
      CanonicalConcat(dir, path, Path);
      NormalizedIsCanonical(dir + path);
      NormalizeIsRemoveDotSegments(dir + path);
    }
  }

  lemma ResolveIsValid(base: Url, s: Str)
    requires Valid(base)
    ensures Resolve(base, s).Ok? ==> Valid(Resolve(base, s).value)
  {
    hide Parse, Resolve, Decompose, ValidateComponents, RemoveDotSegments, ValidHost;
    if Resolve(base, s).Ok? {
      ResolveIsTransform(base, s);
      var r := Decompose(s);
      if r.scheme.Some? {
        ParseIsValid(s);
      } else {
        SchemeAgrees(s);
        ComponentsAreCanonical(r.path, r.query, r.fragment);
        ResolvedPath(base, ValidateComponents(r.path, r.query, r.fragment).value.path);
        ResolveKeepsAuthority(base, s);
      }
    }
  }

  lemma QueryParamIsValid(u: Url, key: Str, value: Str)
    requires Valid(u)
    ensures Valid(AppendQueryParam(u, key, value))
  {
    FormRoundTrip(key);
    FormRoundTrip(value);
    var pair := FormEncode(key) + [EQUALS] + FormEncode(value);
    assert CanonicalAt([EQUALS], Query, 0) && CanonicalAt([AMPERSAND], Query, 0);
    CanonicalConcat(FormEncode(key), [EQUALS], Query);
    CanonicalConcat(FormEncode(key) + [EQUALS], FormEncode(value), Query);
    if u.query.Some? && u.query.value != [] {
      CanonicalConcat(u.query.value, [AMPERSAND], Query);
      CanonicalConcat(u.query.value + [AMPERSAND], pair, Query);
    }
  }

  // ----- What resolving means -----

  function CanonOption(option: Option<Str>): Option<Str> {
    match option case None => None case Some(value) => Some(Canon(value))
  }

  /** A reference with its path, query and fragment in canonical form. */
  function Canonicalized(r: Reference): Reference {
    r.(path := Canon(r.path), query := CanonOption(r.query), fragment := CanonOption(r.fragment))
  }

  lemma OptionIsCanon(option: Option<Str>, kind: Kind)
    requires ValidateOptional(option, kind).Ok?
    ensures ValidateOptional(option, kind).value == CanonOption(option)
  {
    if option.Some? { ValidateMeans(option.value, kind); }
  }

  lemma CanonOptionFixes(option: Option<Str>, kind: Kind)
    requires CanonicalOption(option, kind)
    ensures CanonOption(option) == option
  {
    if option.Some? { CanonFixes(option.value, kind); }
  }

  /** Section 5.2.2's path, before and after writing it in canonical form. */
  lemma TransformedPath(base: Reference, path: Str)
    requires [SLASH] <= base.path && Canonical(base.path, Path) && Acceptable(path, Path)
    ensures Transform(base, Reference(None, None, Canon(path), None, None)).path ==
            Canon(Transform(base, Reference(None, None, path, None, None)).path)
  {
    hide RemoveDotSegments, Acceptable, Canonical, Canon, UpToLastSlash;
    CanonStarts(path);
    if path == [] {
      CanonFixes(base.path, Path);
    } else if [SLASH] <= path {
      RemoveDotsCanon(path);
    } else {
      var dir := UpToLastSlash(base.path);
      PathDirectoryMeans(base.path);
      DirectoryCanonical(base.path);
      CanonFixes(dir, Path);
      CanonicalIsAcceptable(dir, Path);
      AcceptableConcat(dir, path, Path);
      CanonConcat(dir, path, Path);
      RemoveDotsCanon(dir + path);
    }
  }

  /** Resolving a reference against a valid URL answers the canonical form of
      what section 5.2.2 of RFC 3986 makes of the two as they are given. It
      equals parsing for a reference with a scheme, refuses a network-path
      reference, and otherwise fails only as validation does. */
  lemma ResolveMeans(base: Url, s: Str)
    requires Valid(base)
    ensures var r := Decompose(s);
            if r.scheme.Some? then Resolve(base, s) == Parse(s)
            else if r.authority.Some? then Resolve(base, s) == Err(MissingScheme)
            else
              match ValidateComponents(r.path, r.query, r.fragment)
              case Err(e) => Resolve(base, s) == Err(e)
              case Ok(_) =>
                && Resolve(base, s).Ok?
                && AsReference(Resolve(base, s).value) == Canonicalized(Transform(AsReference(base), r))
  {
    hide Resolve, Parse, Decompose, RemoveDotSegments, Canon, UpToLastSlash, ValidHost, Canonical;
    ResolveIsTransform(base, s);
    var r := Decompose(s);
    if r.scheme.None? && r.authority.None? && ValidateComponents(r.path, r.query, r.fragment).Ok? {
      ValidateMeans(r.path, Path);
      OptionIsCanon(r.query, Query);
      OptionIsCanon(r.fragment, Fragment);
      CanonOptionFixes(base.query, Query);
      CanonStarts(r.path);
      TransformedPath(AsReference(base), r.path);
    }
  }

  /** Parsing leaves a text as it is exactly when the components it finds are
      already those of the answer. */
  lemma UnchangedText(s: Str)
    requires Parse(s).Ok?
    ensures ToStr(Parse(s).value) == s <==> Decompose(s) == AsReference(Parse(s).value)
  {
    hide Parse, ToStr, Decompose, Recompose, Valid;
    var u := Parse(s).value;
    ParseIsValid(s);
    PrintDecomposes(u);
    PrintIsRecompose(u);
    DecomposeRoundTrip(s);
  }
}
