/** The generic URI syntax and reference resolution of RFC 3986, as the standard
    writes them. The rest of the project is compared with these definitions. */
module Rfc3986 {
  import opened Text
  import opened Ascii

  /** The five components; `None` is "undefined" in the standard. */
  datatype Reference = Reference(
    scheme: Option<Str>, authority: Option<Str>, path: Str, query: Option<Str>, fragment: Option<Str>)

  predicate IsSchemeByte(b: Byte) {
    IsAlpha(b) || IsDigit(b) || b == PLUS || b == MINUS || b == DOT
  }

  /** Section 3.1: ALPHA *( ALPHA / DIGIT / "+" / "-" / "." ). */
  predicate IsScheme(name: Str) {
    name != [] && IsAlpha(name[0]) && forall k :: 0 <= k < |name| ==> IsSchemeByte(name[k])
  }

  predicate EndsScheme(b: Byte) { b == COLON || b == SLASH || b == QUESTION || b == HASH }

  predicate EndsAuthority(b: Byte) { b == SLASH || b == QUESTION || b == HASH }

  /** Index of the first byte that `stop` holds of, or the length. */
  function Until(s: Str, stop: Byte -> bool): (n: nat)
    ensures n <= |s|
    ensures forall k :: 0 <= k < n ==> !stop(s[k])
    ensures n < |s| ==> stop(s[n])
  {
    if s == [] || stop(s[0]) then 0 else 1 + Until(s[1..], stop)
  }

  /** The component after the first `mark`, when there is one. */
  function After(s: Str, mark: Byte): Option<Str> {
    var n := IndexOf(s, mark);
    if n < |s| then Some(s[n + 1..]) else None
  }

  function Before(s: Str, mark: Byte): Str {
    s[..IndexOf(s, mark)]
  }

  /** What follows the scheme and authority, cut at `#` and then at `?`. */
  function DecomposeRest(scheme: Option<Str>, authority: Option<Str>, rest: Str): Reference {
    var hier := Before(rest, HASH);
    Reference(scheme, authority, Before(hier, QUESTION), After(hier, QUESTION), After(rest, HASH))
  }

  /** What follows `//`: the authority, up to the next `/`, `?` or `#`. */
  function DecomposeAfterSlashes(scheme: Option<Str>, after: Str): Reference {
    var n := Until(after, EndsAuthority);
    DecomposeRest(scheme, Some(after[..n]), after[n..])
  }

  function DecomposeAuthority(scheme: Option<Str>, rest: Str): Reference {
    if [SLASH, SLASH] <= rest then DecomposeAfterSlashes(scheme, rest[2..]) else DecomposeRest(scheme, None, rest)
  }

  /** Appendix B, with the scheme held to section 3.1. */
  function Decompose(s: Str): Reference {
    var n := Until(s, EndsScheme);
    if n < |s| && s[n] == COLON && IsScheme(s[..n]) then DecomposeAuthority(Some(s[..n]), s[n + 1..])
    else DecomposeAuthority(None, s)
  }

  /** `mark` and then the component, if it is defined. */
  function Marked(mark: Str, component: Option<Str>): Str {
    if component.Some? then mark + component.value else []
  }

  function Tail(r: Reference): Str {
    r.path + Marked([QUESTION], r.query) + Marked([HASH], r.fragment)
  }

  /** Component recomposition, section 5.3. */
  function Recompose(r: Reference): Str {
    (if r.scheme.Some? then r.scheme.value + [COLON] else []) + (Marked([SLASH, SLASH], r.authority) + Tail(r))
  }

  /** The part of a path up to and including its last `/`. */
  function UpToLastSlash(path: Str): Str {
    if path == [] || path[|path| - 1] == SLASH then path else UpToLastSlash(path[..|path| - 1])
  }

  /** Section 5.2.3. */
  function Merge(base: Reference, path: Str): Str {
    if base.authority.Some? && base.path == [] then [SLASH] + path else UpToLastSlash(base.path) + path
  }

  /** The output buffer without its last segment and the `/` before it, if any. */
  function WithoutLastSegment(output: Str): Str {
    if output == [] then []
    else if output[|output| - 1] == SLASH then output[..|output| - 1]
    else WithoutLastSegment(output[..|output| - 1])
  }

  /** End of the first segment: the next `/` after the initial byte, or the end. */
  function SegmentEnd(input: Str, from: nat): (n: nat)
    requires from <= |input|
    ensures from <= n <= |input|
    decreases |input| - from
  {
    if from == |input| || input[from] == SLASH then from else SegmentEnd(input, from + 1)
  }

  /** Section 5.2.4, from the input buffer to the output buffer. */
  function RemoveDotSegments(input: Str, output: Str): Str
    decreases |input|
  {
    if input == [] then output
    else if [DOT, DOT, SLASH] <= input then RemoveDotSegments(input[3..], output)
    else if [DOT, SLASH] <= input then RemoveDotSegments(input[2..], output)
    else if [SLASH, DOT, SLASH] <= input then RemoveDotSegments([SLASH] + input[3..], output)
    else if input == [SLASH, DOT] then RemoveDotSegments([SLASH], output)
    else if [SLASH, DOT, DOT, SLASH] <= input then
      RemoveDotSegments([SLASH] + input[4..], WithoutLastSegment(output))
    else if input == [SLASH, DOT, DOT] then RemoveDotSegments([SLASH], WithoutLastSegment(output))
    else if input == [DOT] || input == [DOT, DOT] then output
    else
      var n := SegmentEnd(input, 1);
      RemoveDotSegments(input[n..], output + input[..n])
  }

  /** Section 5.2.2, strict. */
  function Transform(base: Reference, r: Reference): Reference {
    if r.scheme.Some? then
      Reference(r.scheme, r.authority, RemoveDotSegments(r.path, []), r.query, r.fragment)
    else if r.authority.Some? then
      Reference(base.scheme, r.authority, RemoveDotSegments(r.path, []), r.query, r.fragment)
    else if r.path == [] then
      Reference(base.scheme, base.authority, base.path, if r.query.Some? then r.query else base.query, r.fragment)
    else if [SLASH] <= r.path then
      Reference(base.scheme, base.authority, RemoveDotSegments(r.path, []), r.query, r.fragment)
    else
      Reference(base.scheme, base.authority, RemoveDotSegments(Merge(base, r.path), []), r.query, r.fragment)
  }

  // ----- Decomposition and recomposition undo each other -----

  lemma CutMeans(s: Str, mark: Byte)
    ensures s == Before(s, mark) + Marked([mark], After(s, mark))
    ensures Free(Before(s, mark), mark)
  {
  }

  lemma RestRoundTrip(scheme: Option<Str>, authority: Option<Str>, rest: Str)
    ensures Tail(DecomposeRest(scheme, authority, rest)) == rest
  {
    CutMeans(rest, HASH);
    CutMeans(Before(rest, HASH), QUESTION);
  }

  lemma ConcatAssociates(a: Str, b: Str, c: Str)
    ensures (a + b) + c == a + (b + c)
  {
  }

  lemma AfterSlashesRoundTrip(scheme: Option<Str>, after: Str)
    ensures var r := DecomposeAfterSlashes(scheme, after);
            r.scheme == scheme && r.authority.Some? && r.authority.value + Tail(r) == after
  {
    var n := Until(after, EndsAuthority);
    RestRoundTrip(scheme, Some(after[..n]), after[n..]);
  }

  lemma AuthorityRoundTrip(scheme: Option<Str>, rest: Str)
    ensures var r := DecomposeAuthority(scheme, rest);
            r.scheme == scheme && Marked([SLASH, SLASH], r.authority) + Tail(r) == rest
  {
    if [SLASH, SLASH] <= rest {
      var after := rest[2..];
      AfterSlashesRoundTrip(scheme, after);
      var r := DecomposeAfterSlashes(scheme, after);
      ConcatAssociates([SLASH, SLASH], r.authority.value, Tail(r));
      assert rest == [SLASH, SLASH] + after;
    } else {
      RestRoundTrip(scheme, None, rest);
    }
  }

  /** Decomposition loses nothing: recomposing gives the text back. */
  lemma DecomposeRoundTrip(s: Str)
    ensures Recompose(Decompose(s)) == s
  {
    var n := Until(s, EndsScheme);
    if n < |s| && s[n] == COLON && IsScheme(s[..n]) {
      AuthorityRoundTrip(Some(s[..n]), s[n + 1..]);
      assert s == s[..n] + [COLON] + s[n + 1..];
    } else {
      AuthorityRoundTrip(None, s);
    }
  }

  lemma {:induction false} UntilAt(a: Str, b: Str, stop: Byte -> bool)
    requires forall k :: 0 <= k < |a| ==> !stop(a[k])
    requires b == [] || stop(b[0])
    ensures Until(a + b, stop) == |a|
  {
    if a == [] {
      assert a + b == b;
    } else {
      assert (a + b)[1..] == a[1..] + b;
      UntilAt(a[1..], b, stop);
    }
  }

  lemma {:induction false} IndexOfAt(a: Str, b: Str, mark: Byte)
    requires Free(a, mark)
    requires b == [] || b[0] == mark
    ensures IndexOf(a + b, mark) == |a|
  {
    if a == [] {
      assert a + b == b;
    } else {
      assert a[0] in a;
      assert (a + b)[1..] == a[1..] + b;
      IndexOfAt(a[1..], b, mark);
    }
  }

  lemma CutAt(before: Str, mark: Byte, after: Option<Str>)
    requires Free(before, mark)
    ensures Before(before + Marked([mark], after), mark) == before
    ensures After(before + Marked([mark], after), mark) == after
  {
    var tail := Marked([mark], after);
    IndexOfAt(before, tail, mark);
    if after.Some? {
      assert (before + tail)[|before| + 1..] == after.value;
    }
  }

  predicate AuthorityText(s: Str) {
    forall k :: 0 <= k < |s| ==> !EndsAuthority(s[k])
  }

  /** The component texts the generic syntax allows beside an authority. */
  predicate WellFormed(r: Reference) {
    && r.scheme.Some? && IsScheme(r.scheme.value)
    && r.authority.Some? && AuthorityText(r.authority.value)
    && (r.path == [] || r.path[0] == SLASH) && Free(r.path, QUESTION) && Free(r.path, HASH)
    && (r.query.Some? ==> Free(r.query.value, HASH))
  }

  lemma RestOf(r: Reference)
    requires Free(r.path, QUESTION) && Free(r.path, HASH) && (r.query.Some? ==> Free(r.query.value, HASH))
    ensures DecomposeRest(r.scheme, r.authority, Tail(r)) == r
  {
    var hier := r.path + Marked([QUESTION], r.query);
    CutAt(hier, HASH, r.fragment);
    CutAt(r.path, QUESTION, r.query);
  }

  lemma TailStarts(r: Reference)
    requires r.path == [] || r.path[0] == SLASH
    ensures Tail(r) == [] || EndsAuthority(Tail(r)[0])
  {
  }

  lemma AuthorityOf(r: Reference)
    requires WellFormed(r)
    ensures DecomposeAuthority(r.scheme, [SLASH, SLASH] + r.authority.value + Tail(r)) == r
  {
    hide Free, DecomposeRest, Tail;
    var authority, tail := r.authority.value, Tail(r);
    RestOf(r);
    TailStarts(r);
    UntilAt(authority, tail, EndsAuthority);
    var after := authority + tail;
    assert after[..|authority|] == authority && after[|authority|..] == tail;
    assert ([SLASH, SLASH] + authority + tail)[2..] == after;
  }

  /** Recomposing well-formed components and decomposing the text gives them
      back. */
  lemma RecomposeRoundTrip(r: Reference)
    requires WellFormed(r)
    ensures Decompose(Recompose(r)) == r
  {
    hide DecomposeAuthority, Tail, AuthorityText, Free;
    var name, rest := r.scheme.value, [SLASH, SLASH] + r.authority.value + Tail(r);
    AuthorityOf(r);
    var s := Recompose(r);
    assert s == name + ([COLON] + rest);
    forall k | 0 <= k < |name| ensures !EndsScheme(name[k]) {
      assert IsSchemeByte(name[k]);
    }
    UntilAt(name, [COLON] + rest, EndsScheme);
    assert s[..|name|] == name && s[|name| + 1..] == rest;
  }
}
