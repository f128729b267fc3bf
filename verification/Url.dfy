/** The URL record: parsing, printing, resolving and building. */
module Urls {
  import opened Text
  import opened Ascii
  import opened UrlError
  import opened Component
  import opened Decimal
  import opened Ipv6
  import opened Hosts
  import opened Paths

  datatype Url = Url(
    scheme: Scheme, host: Str, port: Option<Port>, path: Str, query: Option<Str>, fragment: Option<Str>)

  const HTTP: Str := [104, 116, 116, 112]            // "http"
  const HTTPS: Str := [104, 116, 116, 112, 115]      // "https"
  const SLASHES: Str := [SLASH, SLASH]               // "//"

  // ----- Scheme -----

  function SchemeLength(bytes: Str, index: nat): nat
    decreases |bytes| - index
  {
    if index < |bytes| && (IsAlphanumeric(bytes[index]) || bytes[index] == PLUS || bytes[index] == MINUS || bytes[index] == DOT)
    then SchemeLength(bytes, index + 1)
    else index
  }

  function TakeFirst(s: Str, n: nat): Str {
    if n <= |s| then s[..n] else s
  }

  /** The scheme a reference starts with. */
  function ReferenceScheme(reference: Str): Option<Str> {
    var name := TakeFirst(reference, SchemeLength(reference, 0));
    if name != [] && |name| < |reference| && reference[|name|] == COLON && IsAlpha(name[0]) then Some(name) else None
  }

  datatype AfterScheme = AfterScheme(scheme: Scheme, after: Str)

  function SplitAuthoritySlashes(scheme: Scheme, rest: Str): Result<AfterScheme, ParseErr> {
    if StartsWith(rest, SLASHES) then Ok(AfterScheme(scheme, DropPrefix(rest, SLASHES))) else Err(MissingAuthority)
  }

  function SplitScheme(input: Str): Result<AfterScheme, ParseErr> {
    match ReferenceScheme(input)
    case None => Err(MissingScheme)
    case Some(name) =>
      var rest := DropPrefix(input, name + [COLON]);
      var lower := AsciiLower(name);
      if lower == HTTP then SplitAuthoritySlashes(Http, rest)
      else if lower == HTTPS then SplitAuthoritySlashes(Https, rest)
      else Err(UnsupportedScheme(lower))
  }

  // ----- Authority -----

  function FirstDelimiter(bytes: Str, index: nat): (n: nat)
    requires index <= |bytes|
    ensures index <= n <= |bytes|
    decreases |bytes| - index
  {
    if index >= |bytes| then index
    else if bytes[index] == 47 || bytes[index] == 63 || bytes[index] == 35 then index
    else FirstDelimiter(bytes, index + 1)
  }

  datatype Authority = Authority(host: Str, port: Option<Port>)

  function ParseBracketed(authority: Str, scheme: Scheme): Result<Authority, ParseErr> {
    match SplitFirst(authority, [CLOSE_BRACKET])
    case NotFound => Err(InvalidIpv6(authority))
    case Found(before, after) =>
      var host :- ValidateIpv6(DropPrefix(before, [OPEN_BRACKET]));
      var port :- if after == [] then Ok(None)
                  else if StartsWith(after, [COLON]) then ParsePort(DropPrefix(after, [COLON]), scheme)
                  else Err(InvalidIpv6(authority));
      Ok(Authority([OPEN_BRACKET] + host + [CLOSE_BRACKET], port))
  }

  function ParseNamed(authority: Str, scheme: Scheme): Result<Authority, ParseErr> {
    match SplitLast(authority, [COLON])
    case Found(before, after) =>
      var host :- ValidateHost(before);
      var port :- ParsePort(after, scheme);
      Ok(Authority(host, port))
    case NotFound =>
      var host :- ValidateHost(authority);
      Ok(Authority(host, None))
  }

  function ParseAuthority(authority: Str, scheme: Scheme): Result<Authority, ParseErr> {
    if StartsWith(authority, [OPEN_BRACKET]) then ParseBracketed(authority, scheme) else ParseNamed(authority, scheme)
  }

  // ----- Path, query and fragment -----

  datatype Components = Components(path: Str, query: Option<Str>, fragment: Option<Str>)

  function ValidateOptional(option: Option<Str>, kind: Kind): Result<Option<Str>, ParseErr> {
    match option
    case None => Ok(None)
    case Some(raw) =>
      var value :- ValidateComponent(raw, kind);
      Ok(Some(value))
  }

  function CutOptional(s: Str, mark: Byte): (Str, Option<Str>) {
    match SplitFirst(s, [mark])
    case Found(before, after) => (before, Some(after))
    case NotFound => (s, None)
  }

  function ValidateComponents(path: Str, query: Option<Str>, fragment: Option<Str>): Result<Components, ParseErr> {
    var p :- ValidateComponent(path, Path);
    var q :- ValidateOptional(query, Query);
    var f :- ValidateOptional(fragment, Fragment);
    Ok(Components(p, q, f))
  }

  function ParseSuffix(suffix: Str): Result<Components, ParseErr> {
    var (beforeFragment, fragment) := CutOptional(suffix, HASH);
    var (rawPath, query) := CutOptional(beforeFragment, QUESTION);
    var pathInput := if rawPath == [] then [SLASH] else rawPath;
    if !StartsWith(pathInput, [SLASH]) then Err(InvalidCharacter(pathInput[0]))
    else ValidateComponents(pathInput, query, fragment)
  }

  /** What `parse` does with the text after `://`. */
  function ParseAfterScheme(scheme: Scheme, after: Str): Result<Url, ParseErr> {
    var index := FirstDelimiter(after, 0);
    var authority, suffix := after[..index], after[index..];
    if authority == [] then Err(EmptyHost)
    else if AT in authority then Err(CredentialsNotAllowed)
    else
      var a :- ParseAuthority(authority, scheme);
      var c :- ParseSuffix(suffix);
      Ok(Url(scheme, a.host, a.port, NormalizePath(c.path), c.query, c.fragment))
  }

  function Parse(input: Str): Result<Url, ParseErr> {
    var s :- SplitScheme(input);
    ParseAfterScheme(s.scheme, s.after)
  }

  // ----- Printing -----

  function SchemeStr(scheme: Scheme): Str {
    match scheme case Http => HTTP case Https => HTTPS
  }

  function PortStr(port: Option<Port>): Str {
    match port case None => [] case Some(value) => [COLON] + DecimalStr(value)
  }

  function OptionalStr(mark: Byte, option: Option<Str>): Str {
    match option case None => [] case Some(value) => [mark] + value
  }

  function ToStr(url: Url): Str {
    SchemeStr(url.scheme) + [COLON, SLASH, SLASH] + url.host + PortStr(url.port) + url.path
    + OptionalStr(QUESTION, url.query) + OptionalStr(HASH, url.fragment)
  }

  // ----- Resolving -----

  function ParseRelative(reference: Str): Result<Components, ParseErr> {
    var (beforeFragment, fragment) := CutOptional(reference, HASH);
    var (rawPath, query) := CutOptional(beforeFragment, QUESTION);
    ValidateComponents(rawPath, query, fragment)
  }

  function ResolveRelative(base: Url, reference: Str): Result<Url, ParseErr> {
    if StartsWith(reference, SLASHES) then Err(MissingScheme)
    else
      var relative :- ParseRelative(reference);
      var nextPath :=
        if relative.path == [] then base.path
        else if StartsWith(relative.path, [SLASH]) then NormalizePath(relative.path)
        else NormalizePath(PathDirectory(base.path) + relative.path);
      var nextQuery :=
        match relative.query
        case Some(value) => Some(value)
        case None => if relative.path == [] then base.query else None;
      Ok(Url(base.scheme, base.host, base.port, nextPath, nextQuery, relative.fragment))
  }

  function Resolve(base: Url, reference: Str): Result<Url, ParseErr> {
    match ReferenceScheme(reference)
    case Some(_) => Parse(reference)
    case None => ResolveRelative(base, reference)
  }

  // ----- Building -----

  function EncodeAll(segments: seq<Str>): (r: seq<Str>)
    ensures |r| == |segments|
    ensures forall k :: 0 <= k < |r| ==> r[k] == PercentEncode(segments[k])
  {
    if segments == [] then [] else [PercentEncode(segments[0])] + EncodeAll(segments[1..])
  }

  function WithSegments(url: Url, segments: seq<Str>): Url {
    var suffix := JoinWith(EncodeAll(segments), [SLASH]);
    var nextPath :=
      if segments == [] then url.path
      else if url.path == [SLASH] then [SLASH] + suffix
      else if EndsWith(url.path, [SLASH]) then url.path + suffix
      else url.path + [SLASH] + suffix;
    url.(path := NormalizePath(nextPath))
  }

  function FirstDot(segments: seq<Str>): Option<Str> {
    if segments == [] then None
    else if IsDotSegment(segments[0]) then Some(segments[0])
    else FirstDot(segments[1..])
  }

  /** `Err` carries the dot segment that was refused. */
  function AppendPathSegments(url: Url, segments: seq<Str>): Result<Url, Str> {
    match FirstDot(segments)
    case Some(dots) => Err(dots)
    case None => Ok(WithSegments(url, segments))
  }

  function AppendQueryParam(url: Url, key: Str, value: Str): Url {
    var pair := FormEncode(key) + [EQUALS] + FormEncode(value);
    var nextQuery :=
      match url.query
      case None => pair
      case Some(existing) => if existing == [] then pair else existing + [AMPERSAND] + pair;
    url.(query := Some(nextQuery))
  }

  /** `text` reads the decoded bytes of a name or value as a string: the
      built-in that replaces invalid UTF-8. */
  function DecodePair(pair: Str, text: Str -> Str): (Str, Str) {
    match SplitFirst(pair, [EQUALS])
    case Found(before, after) => (text(FormDecode(before)), text(FormDecode(after)))
    case NotFound => (text(FormDecode(pair)), [])
  }

  function DecodePairs(pairs: seq<Str>, text: Str -> Str): (r: seq<(Str, Str)>)
    ensures |r| == |pairs|
    ensures forall k :: 0 <= k < |pairs| ==> r[k] == DecodePair(pairs[k], text)
  {
    if pairs == [] then [] else [DecodePair(pairs[0], text)] + DecodePairs(pairs[1..], text)
  }

  function QueryPairs(url: Url, text: Str -> Str): seq<(Str, Str)> {
    match url.query
    case None => []
    case Some(query) => if query == [] then [] else DecodePairs(SplitOn(query, [AMPERSAND]), text)
  }

  function WithQuery(url: Url, option: Option<Str>): Result<Url, ParseErr> {
    var query :- ValidateOptional(option, Query);
    Ok(url.(query := query))
  }

  function WithFragment(url: Url, option: Option<Str>): Result<Url, ParseErr> {
    var fragment :- ValidateOptional(option, Fragment);
    Ok(url.(fragment := fragment))
  }

  function WithoutFragment(url: Url): Url {
    url.(fragment := None)
  }

  /** The host without the brackets of an IPv6 address. */
  function HostText(url: Url): Str {
    if StartsWith(url.host, [OPEN_BRACKET]) then
      (if |url.host| < 2 then [] else url.host[1..|url.host| - 1])
    else url.host
  }
}
