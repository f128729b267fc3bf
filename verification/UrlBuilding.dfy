/** What the builders do to a URL, and the invariant over whole runs. */
module UrlBuilding {
  import opened Text
  import opened Ascii
  import opened Component
  import opened Ipv6
  import opened Hosts
  import opened Paths
  import opened Urls
  import opened UrlReading
  import opened UrlRoundTrip

  // ----- Path segments -----

  /** The segments an appended item goes after: an empty last one is where the
      first item goes. */
  function KeptSegments(path: Str, items: seq<Str>): seq<Str> {
    var segments := Segments(path);
    if items != [] && segments != [] && segments[|segments| - 1] == [] then DropLast(segments) else segments
  }

  lemma {:induction false} FirstDotMeans(items: seq<Str>) returns (k: nat)
    ensures FirstDot(items).None? <==> NoDots(items)
    ensures !NoDots(items) ==> k < |items| && FirstDot(items) == Some(items[k]) && IsDotSegment(items[k])
    ensures !NoDots(items) ==> forall j :: 0 <= j < k ==> !IsDotSegment(items[j])
  {
    k := 0;
    if items != [] && !IsDotSegment(items[0]) {
      k := FirstDotMeans(items[1..]);
      k := k + 1;
      assert forall j :: 1 <= j < |items| ==> items[j] == items[1..][j - 1];
      assert NoDots(items) <==> NoDots(items[1..]);
    }
  }

  lemma EncodedItems(items: seq<Str>)
    requires NoDots(items)
    ensures NoDots(EncodeAll(items)) && AllFree(EncodeAll(items), SLASH) && CanonicalSegments(EncodeAll(items))
  {
    forall k | 0 <= k < |items|
      ensures var e := EncodeAll(items)[k]; !IsDotSegment(e) && Free(e, SLASH) && Canonical(e, Path)
    {
      PercentEncodeMeans(items[k], Path);
      EncodedDots(items[k]);
    }
  }

  lemma LastSegment(path: Str)
    requires [SLASH] <= path
    ensures var s := Segments(path);
            s != [] && (EndsWith(path, [SLASH]) <==> s[|s| - 1] == [])
            && path == Flat(DropLast(s)) + [SLASH] + s[|s| - 1]
  {
    RootedPath(path);
    EndsWithMeans(path, SLASH);
    var s := Segments(path);
    var init, last := DropLast(s), s[|s| - 1];
    assert s == init + [last];
    FlatConcat(init, [last]);
    assert Flat([last]) == [SLASH] + last;
    assert path == Flat(init) + [SLASH] + last;
    if last != [] {
      assert path[|path| - 1] == last[|last| - 1] && last[|last| - 1] in last;
    }
  }

  /** The text the code builds before normalizing spells the kept segments and
      then the encoded items. */
  lemma AppendedText(path: Str, items: seq<Str>)
    requires [SLASH] <= path && items != []
    ensures var suffix := JoinWith(EncodeAll(items), [SLASH]);
            (if path == [SLASH] then [SLASH] + suffix
             else if EndsWith(path, [SLASH]) then path + suffix
             else path + [SLASH] + suffix) == Flat(KeptSegments(path, items) + EncodeAll(items))
  {
    hide SplitOn, JoinWith, Flat, EndsWith;
    var encoded, s := EncodeAll(items), Segments(path);
    var suffix := JoinWith(encoded, [SLASH]);
    LastSegment(path);
    RootedPath(path);
    FlatJoin(encoded);
    FlatConcat(KeptSegments(path, items), encoded);
    if s[|s| - 1] == [] {
      assert path == Flat(DropLast(s)) + [SLASH];
      assert path + suffix == Flat(DropLast(s)) + ([SLASH] + suffix);
    } else {
      assert path + [SLASH] + suffix == path + ([SLASH] + suffix);
      assert path != [SLASH];
    }
  }

  lemma FlatIsNormal(segments: seq<Str>)
    requires segments != [] && AllFree(segments, SLASH) && NoDots(segments)
    ensures Segments(Flat(segments)) == segments
    ensures Normalized(Flat(segments)) && NormalizePath(Flat(segments)) == Flat(segments)
  {
    FlatJoin(segments);
    SegmentsOf(segments);
    NormalizeIsCanonical(Flat(segments));
  }

  lemma KeptAreFine(path: Str, items: seq<Str>)
    requires Canonical(path, Path) && Normalized(path) && NoDots(items)
    ensures var kept := KeptSegments(path, items) + EncodeAll(items);
            kept != [] && AllFree(kept, SLASH) && NoDots(kept) && CanonicalSegments(kept)
  {
    RootedPath(path);
    SegmentsCanonical(path);
    assert CanonicalSegments(Segments(path));
    EncodedItems(items);
  }

  lemma AppendedPath(u: Url, items: seq<Str>)
    requires Valid(u) && NoDots(items)
    ensures var kept := KeptSegments(u.path, items) + EncodeAll(items);
            WithSegments(u, items) == u.(path := Flat(kept)) && Segments(Flat(kept)) == kept
            && Normalized(Flat(kept)) && Canonical(Flat(kept), Path)
  {
    KeptAreFine(u.path, items);
    var kept := KeptSegments(u.path, items) + EncodeAll(items);
    JoinCanonical(kept);
    FlatIsNormal(kept);
    if items == [] {
      RootedPath(u.path);
      assert kept == Segments(u.path);
    } else {
      AppendedText(u.path, items);
    }
  }

  /** Appending fails exactly on a list with a dot segment, and names the
      first. Otherwise only the path changes: its segments are the old ones,
      without a final empty one when items were given, and then one for each
      item, which decodes to it. */
  lemma AppendSegmentsMeans(u: Url, items: seq<Str>)
    requires Valid(u)
    ensures AppendPathSegments(u, items).Err? <==> !NoDots(items)
    ensures AppendPathSegments(u, items).Err? ==>
              exists k ::
                && 0 <= k < |items| && IsDotSegment(items[k]) && AppendPathSegments(u, items) == Err(items[k])
                && forall j :: 0 <= j < k ==> !IsDotSegment(items[j])
    ensures NoDots(items) ==>
              var v := AppendPathSegments(u, items).value;
              var kept := KeptSegments(u.path, items);
              && v == u.(path := v.path) && Valid(v)
              && |Segments(v.path)| == |kept| + |items|
              && Segments(v.path)[..|kept|] == kept
              && forall k :: 0 <= k < |items| ==>
                               Segments(v.path)[|kept| + k] == PercentEncode(items[k])
                               && PercentDecode(Segments(v.path)[|kept| + k]) == items[k]
  {
    var k := FirstDotMeans(items);
    if NoDots(items) {
      AppendedPath(u, items);
      forall k | 0 <= k < |items| ensures PercentDecode(EncodeAll(items)[k]) == items[k] {
        PercentEncodeMeans(items[k], Path);
      }
    }
  }

  // ----- Query parameters -----

  /** Reading text leaves this string alone, as it does any valid UTF-8. */
  predicate Fixed(text: Str -> Str, s: Str) {
    text(s) == s
  }

  lemma PairDecodes(key: Str, value: Str, text: Str -> Str)
    requires Fixed(text, key) && Fixed(text, value)
    ensures DecodePair(FormEncode(key) + [EQUALS] + FormEncode(value), text) == (key, value)
    ensures Free(FormEncode(key) + [EQUALS] + FormEncode(value), AMPERSAND)
  {
    FormRoundTrip(key);
    FormRoundTrip(value);
    SplitFirstAt(FormEncode(key), EQUALS, FormEncode(value));
  }

  /** The text appended: the pair, after an `&` if there is a query already. */
  lemma AppendedQuery(u: Url, key: Str, value: Str)
    ensures AppendQueryParam(u, key, value).query ==
            Some((if u.query == None || u.query == Some([]) then [] else u.query.value + Lit("&"))
                 + FormEncode(key) + Lit("=") + FormEncode(value))
  {
    assert [AMPERSAND] == Lit("&") && [EQUALS] == Lit("=");
    hide FormEncode, Lit;
    var pair := FormEncode(key) + [EQUALS] + FormEncode(value);
    if u.query.Some? && u.query.value != [] {
      assert u.query.value + [AMPERSAND] + pair == u.query.value + [AMPERSAND] + FormEncode(key) + [EQUALS] + FormEncode(value);
    } else {
      assert [] + FormEncode(key) == FormEncode(key);
    }
  }

  /** Appending a parameter appends its pair to the text of the query and to the
      decoded query, and changes nothing else. */
  lemma AppendParamMeans(u: Url, key: Str, value: Str, text: Str -> Str)
    requires Fixed(text, key) && Fixed(text, value)
    ensures var v := AppendQueryParam(u, key, value);
            v == u.(query := v.query) && QueryPairs(v, text) == QueryPairs(u, text) + [(key, value)]
    ensures AppendQueryParam(u, key, value).query ==
            Some((if u.query == None || u.query == Some([]) then [] else u.query.value + Lit("&"))
                 + FormEncode(key) + Lit("=") + FormEncode(value))
  {
    var pair := FormEncode(key) + [EQUALS] + FormEncode(value);
    AppendedQuery(u, key, value);
    PairDecodes(key, value, text);
    SplitFree(pair, AMPERSAND);
    if u.query.Some? && u.query.value != [] {
      var before := SplitOn(u.query.value, [AMPERSAND]);
      SplitConcat(u.query.value, AMPERSAND, pair);
      assert DecodePairs(before + [pair], text) == DecodePairs(before, text) + [(key, value)];
    } else {
      assert DecodePairs([pair], text) == [(key, value)];
    }
  }

  lemma DecodedBytes(s: Str)
    ensures FormDecode(s) == FormBytes(s)
  {
    FormDecodeFromMeans(s, 0, []);
    assert s[0..] == s && [] + FormBytes(s) == FormBytes(s);
  }

  /** Each `&`-separated part gives one pair, in order: the decoded texts before
      and after its first `=`, or a name without a value. */
  lemma QueryPairsMean(u: Url, parts: seq<Str>, text: Str -> Str)
    requires parts != [] && parts != [[]] && AllFree(parts, AMPERSAND)
    requires u.query == Some(JoinWith(parts, [AMPERSAND]))
    ensures |QueryPairs(u, text)| == |parts|
    ensures forall k, name, value ::
              0 <= k < |parts| && Free(name, EQUALS) && parts[k] == name + [EQUALS] + value ==>
                QueryPairs(u, text)[k] == (text(FormBytes(name)), text(FormBytes(value)))
    ensures forall k :: 0 <= k < |parts| && Free(parts[k], EQUALS) ==>
                          QueryPairs(u, text)[k] == (text(FormBytes(parts[k])), [])
  {
    SplitJoin(parts, AMPERSAND);
    assert u.query.value != [] by { if u.query.value == [] { SplitFree([], AMPERSAND); } }
    assert QueryPairs(u, text) == DecodePairs(parts, text);
    hide JoinWith, SplitOn, QueryPairs;
    forall k, name, value | 0 <= k < |parts| && Free(name, EQUALS) && parts[k] == name + [EQUALS] + value
      ensures DecodePair(parts[k], text) == (text(FormBytes(name)), text(FormBytes(value)))
    {
      SplitFirstAt(name, EQUALS, value);
      DecodedBytes(name);
      DecodedBytes(value);
    }
    forall k | 0 <= k < |parts| && Free(parts[k], EQUALS)
      ensures DecodePair(parts[k], text) == (text(FormBytes(parts[k])), [])
    {
      SplitFirstMeans(parts[k], EQUALS);
      DecodedBytes(parts[k]);
    }
  }

  function AppendAll(u: Url, pairs: seq<(Str, Str)>): Url {
    if pairs == [] then u
    else
      var last := pairs[|pairs| - 1];
      AppendQueryParam(AppendAll(u, pairs[..|pairs| - 1]), last.0, last.1)
  }

  ghost predicate AllFixed(text: Str -> Str, pairs: seq<(Str, Str)>) {
    forall k :: 0 <= k < |pairs| ==> Fixed(text, pairs[k].0) && Fixed(text, pairs[k].1)
  }

  lemma {:induction false} AppendAllMeans(u: Url, pairs: seq<(Str, Str)>, text: Str -> Str)
    requires AllFixed(text, pairs)
    ensures QueryPairs(AppendAll(u, pairs), text) == QueryPairs(u, text) + pairs
  {
    hide QueryPairs, AppendQueryParam;
    if pairs == [] {
      assert QueryPairs(u, text) + pairs == QueryPairs(u, text);
    } else {
      var init, last := pairs[..|pairs| - 1], pairs[|pairs| - 1];
      AppendAllMeans(u, init, text);
      AppendParamMeans(AppendAll(u, init), last.0, last.1, text);
      assert (last.0, last.1) == last && pairs == init + [last];
      assert QueryPairs(u, text) + init + [last] == QueryPairs(u, text) + pairs;
    }
  }

  /** A query built from any list of pairs reads back as that list. */
  lemma BuiltQueryReadsBack(u: Url, pairs: seq<(Str, Str)>, text: Str -> Str)
    requires u.query == None && AllFixed(text, pairs)
    ensures QueryPairs(AppendAll(u, pairs), text) == pairs
  {
    AppendAllMeans(u, pairs, text);
  }

  /** Present exactly when one was given, and standing for the same bytes. */
  predicate Replaces(component: Option<Str>, option: Option<Str>) {
    component.Some? == option.Some? && (option.Some? ==> PercentDecode(component.value) == PercentDecode(option.value))
  }

  /** Replacing the query or the fragment succeeds exactly on an acceptable
      text and changes that component only, to canonical text with the bytes
      that were given; `None` removes it, as dropping the fragment does. */
  lemma ReplacingMeans(u: Url, option: Option<Str>)
    requires Valid(u)
    ensures WithQuery(u, option).Ok? <==> option == None || Acceptable(option.value, Query)
    ensures WithQuery(u, option).Ok? ==>
              var v := WithQuery(u, option).value;
              Valid(v) && v == u.(query := v.query) && Replaces(v.query, option)
    ensures WithFragment(u, option).Ok? <==> option == None || Acceptable(option.value, Fragment)
    ensures WithFragment(u, option).Ok? ==>
              var v := WithFragment(u, option).value;
              Valid(v) && v == u.(fragment := v.fragment) && Replaces(v.fragment, option)
    ensures WithFragment(u, None) == Ok(WithoutFragment(u)) && Valid(WithoutFragment(u))
  {
    hide ValidateComponent, ValidHost, Normalized;
    if option.Some? {
      ValidateMeans(option.value, Query);
      ValidateIsCanonical(option.value, Query);
      ValidateMeans(option.value, Fragment);
      ValidateIsCanonical(option.value, Fragment);
    }
  }

  lemma AddressHasColon(raw: Str)
    requires ValidateIpv6(raw) == Ok(raw)
    ensures !Free(raw, COLON)
  {
    var groups := CanonicalAddress(raw);
    DenotedIsAccepted(raw, groups);
    var parts := HexParts(groups);
    assert raw == parts[0] + [COLON] + JoinWith(parts[1..], [COLON]);
    assert raw[|parts[0]|] == COLON;
  }

  /** Only the text of an address has a colon in it. */
  lemma BracketsTell(u: Url)
    requires Valid(u)
    ensures if [OPEN_BRACKET] <= u.host then
              u.host == [OPEN_BRACKET] + HostText(u) + [CLOSE_BRACKET]
              && ValidateIpv6(HostText(u)) == Ok(HostText(u)) && !Free(HostText(u), COLON)
            else HostText(u) == u.host && (IsIpv4(u.host) || IsDnsName(u.host)) && Free(HostText(u), COLON)
  {
    hide ValidateIpv6, ValidateHost, IsIpv4, IsDnsName;
    StartsWithMeans(u.host, [OPEN_BRACKET]);
    if [OPEN_BRACKET] <= u.host {
      AddressHasColon(u.host[1..|u.host| - 1]);
    } else {
      ValidateHostMeans(u.host);
      NamedText(u.host);
    }
  }

  /** The host is answered without brackets exactly when it is an IPv6 address,
      as the address text itself, and the answer tells hosts apart. */
  lemma HostTextMeans(u: Url, v: Url)
    ensures Valid(u) ==>
              if [OPEN_BRACKET] <= u.host then
                u.host == [OPEN_BRACKET] + HostText(u) + [CLOSE_BRACKET] && ValidateIpv6(HostText(u)) == Ok(HostText(u))
              else HostText(u) == u.host && (IsIpv4(u.host) || IsDnsName(u.host))
    ensures Valid(u) && Valid(v) ==> (HostText(u) == HostText(v) <==> u.host == v.host)
  {
    hide Valid, ValidateIpv6, IsIpv4, IsDnsName, StartsWith;
    if Valid(u) { BracketsTell(u); }
    if Valid(v) { BracketsTell(v); }
  }

  // ----- Whole runs -----

  datatype Step =
    | ResolveRef(reference: Str)
    | AppendSegments(items: seq<Str>)
    | AppendParam(key: Str, value: Str)
    | SetQuery(query: Option<Str>)
    | SetFragment(fragment: Option<Str>)
    | DropFragment

  function ToOption<E>(r: Result<Url, E>): Option<Url> {
    match r case Ok(u) => Some(u) case Err(_) => None
  }

  /** One call on a URL; a refused call answers no URL. */
  function Apply(u: Url, step: Step): Option<Url> {
    match step
    case ResolveRef(reference) => ToOption(Resolve(u, reference))
    case AppendSegments(items) => ToOption(AppendPathSegments(u, items))
    case AppendParam(key, value) => Some(AppendQueryParam(u, key, value))
    case SetQuery(query) => ToOption(WithQuery(u, query))
    case SetFragment(fragment) => ToOption(WithFragment(u, fragment))
    case DropFragment => Some(WithoutFragment(u))
  }

  /** Parsing a text and then making the calls in turn. */
  function Run(start: Str, steps: seq<Step>): Option<Url> {
    if steps == [] then ToOption(Parse(start))
    else
      match Run(start, steps[..|steps| - 1])
      case None => None
      case Some(u) => Apply(u, steps[|steps| - 1])
  }

  ghost predicate Reachable(u: Url) {
    exists start, steps :: Run(start, steps) == Some(u)
  }

  /** What a call may change: only the component it is about, and that to what it
      was given. */
  ghost predicate ChangesOnly(u: Url, step: Step, v: Url) {
    match step
    case ResolveRef(reference) => Resolve(u, reference) == Ok(v)
    case AppendSegments(items) => v == u.(path := v.path) && NoDots(items)
    case AppendParam(_, _) => v == u.(query := v.query) && v.query.Some?
    case SetQuery(query) => v == u.(query := v.query) && Replaces(v.query, query)
    case SetFragment(fragment) => v == u.(fragment := v.fragment) && Replaces(v.fragment, fragment)
    case DropFragment => v == u.(fragment := None)
  }

  /** Every call keeps the invariant, and changes its own component only. */
  lemma StepKeepsValid(u: Url, step: Step)
    ensures Valid(u) && Apply(u, step).Some? ==>
              Valid(Apply(u, step).value) && ChangesOnly(u, step, Apply(u, step).value)
  {
    if Valid(u) {
      hide Valid, Resolve, AppendPathSegments, WithQuery, WithFragment, Replaces, NoDots;
      match step
      case ResolveRef(reference) => ResolveIsValid(u, reference);
      case AppendSegments(items) => AppendSegmentsMeans(u, items);
      case AppendParam(key, value) => QueryParamIsValid(u, key, value);
      case SetQuery(query) => ReplacingMeans(u, query);
      case SetFragment(fragment) => ReplacingMeans(u, fragment);
      case DropFragment => ReplacingMeans(u, None);
    }
  }

  lemma {:induction false} RunIsValid(start: Str, steps: seq<Step>)
    ensures Run(start, steps).Some? ==> Valid(Run(start, steps).value)
  {
    hide Valid, Apply, Parse;
    if steps == [] {
      ParseIsValid(start);
    } else {
      var init := steps[..|steps| - 1];
      RunIsValid(start, init);
      if Run(start, init).Some? { StepKeepsValid(Run(start, init).value, steps[|steps| - 1]); }
    }
  }

  /** The invariant is exactly reachability, and every reachable URL prints to
      text that parses back to it. */
  lemma ReachableRoundTrip(u: Url)
    ensures Reachable(u) <==> Valid(u)
    ensures Reachable(u) ==> Parse(ToStr(u)) == Ok(u)
  {
    if Reachable(u) {
      var start, steps :| Run(start, steps) == Some(u);
      RunIsValid(start, steps);
    }
    if Valid(u) {
      ParsePrint(u);
      assert Run(ToStr(u), []) == Some(u);
    }
  }

  /** Equality of printed text is equality of all six fields. */
  lemma PrintIsInjective(u: Url, v: Url)
    ensures Reachable(u) && Reachable(v) ==> (ToStr(u) == ToStr(v) <==> u == v)
  {
    hide Reachable, Valid, ToStr, Parse;
    ReachableRoundTrip(u);
    ReachableRoundTrip(v);
  }
}
