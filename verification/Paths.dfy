/** Dot-segment removal by segment lists, against the input-buffer and
    output-buffer rewriting of section 5.2.4 of RFC 3986. */
module Paths {
  import opened Text
  import opened Ascii
  import opened Rfc3986

  predicate IsDotSegment(segment: Str) {
    segment == [DOT] || segment == [DOT, DOT]
  }

  function DropLast(out: seq<Str>): seq<Str> {
    if out == [] then [] else out[..|out| - 1]
  }

  function NormalizeSegments(segments: seq<Str>, out: seq<Str>): seq<Str> {
    if segments == [] then out
    else if segments == [[DOT]] then out + [[]]
    else if segments == [[DOT, DOT]] then DropLast(out) + [[]]
    else if segments[0] == [DOT] then NormalizeSegments(segments[1..], out)
    else if segments[0] == [DOT, DOT] then NormalizeSegments(segments[1..], DropLast(out))
    else NormalizeSegments(segments[1..], out + [segments[0]])
  }

  /** The segments of a rooted path, after the empty piece before its `/`. */
  function Segments(path: Str): seq<Str> {
    SplitOn(path, [SLASH])[1..]
  }

  function NormalizePath(path: Str): Str {
    var rooted := if StartsWith(path, [SLASH]) then path else [SLASH] + path;
    [SLASH] + JoinWith(NormalizeSegments(Segments(rooted), []), [SLASH])
  }

  function PathDirectory(path: Str): Str {
    var parts := SplitOn(path, [SLASH]);
    if |parts| <= 2 then [SLASH] else JoinWith(parts[..|parts| - 1], [SLASH]) + [SLASH]
  }

  // ----- The two agree -----

  /** Every segment written with a `/` before it. */
  function Flat(segments: seq<Str>): Str {
    if segments == [] then [] else [SLASH] + segments[0] + Flat(segments[1..])
  }

  lemma DotSegments(segment: Str)
    ensures IsDotSegment(segment) <==> segment == Lit(".") || segment == Lit("..")
  {
    Marks();
    assert Lit("%/:?#.+-")[5] == DOT;
  }

  predicate NoDots(segments: seq<Str>) {
    forall k :: 0 <= k < |segments| ==> !IsDotSegment(segments[k])
  }

  lemma {:induction false} FlatConcat(a: seq<Str>, b: seq<Str>)
    ensures Flat(a + b) == Flat(a) + Flat(b)
  {
    if a == [] {
      assert a + b == b;
    } else {
      FlatConcat(a[1..], b);
      assert (a + b)[1..] == a[1..] + b;
    }
  }

  lemma {:induction false} FlatJoin(segments: seq<Str>)
    requires segments != []
    ensures Flat(segments) == [SLASH] + JoinWith(segments, [SLASH])
  {
    if |segments| > 1 { FlatJoin(segments[1..]); }
  }

  lemma {:induction false} WithoutLastMeans(a: Str, segment: Str)
    requires Free(segment, SLASH)
    ensures WithoutLastSegment(a + [SLASH] + segment) == a
    decreases |segment|
  {
    var s := a + [SLASH] + segment;
    if segment == [] {
      assert s[..|s| - 1] == a;
    } else {
      var init := segment[..|segment| - 1];
      assert segment[|segment| - 1] in segment;
      WithoutLastMeans(a, init);
      assert s[..|s| - 1] == a + [SLASH] + init;
    }
  }

  lemma WithoutLastFlat(out: seq<Str>)
    requires AllFree(out, SLASH)
    ensures WithoutLastSegment(Flat(out)) == Flat(DropLast(out))
  {
    if out != [] {
      var init, last := out[..|out| - 1], out[|out| - 1];
      assert out == init + [last];
      FlatConcat(init, [last]);
      assert Flat([last]) == [SLASH] + last;
      assert Flat(out) == Flat(init) + [SLASH] + last;
      WithoutLastMeans(Flat(init), last);
    }
  }

  lemma {:induction false} SegmentEndMeans(segment: Str, rest: Str, from: nat)
    requires Free(segment, SLASH) && (rest == [] || rest[0] == SLASH)
    requires 1 <= from <= |segment| + 1
    ensures SegmentEnd([SLASH] + segment + rest, from) == |segment| + 1
    decreases |segment| + 1 - from
  {
    if from <= |segment| {
      assert ([SLASH] + segment + rest)[from] == segment[from - 1];
      SegmentEndMeans(segment, rest, from + 1);
    }
  }

  lemma FlatStarts(segments: seq<Str>)
    ensures segments == [] <==> Flat(segments) == []
    ensures segments != [] ==> Flat(segments)[0] == SLASH
  {
  }

  /** Moving one ordinary segment from the input to the output. */
  lemma MoveSegment(segments: seq<Str>, output: Str)
    requires segments != [] && AllFree(segments, SLASH)
    requires !IsDotSegment(segments[0])
    ensures RemoveDotSegments(Flat(segments), output) ==
            RemoveDotSegments(Flat(segments[1..]), output + [SLASH] + segments[0])
  {
    var s, rest := segments[0], Flat(segments[1..]);
    FlatStarts(segments[1..]);
    var input := Flat(segments);
    assert input == [SLASH] + s + rest;
    assert |s| >= 1 ==> input[1] == s[0] && s[0] != SLASH;
    assert |s| >= 2 ==> input[2] == s[1] && s[1] != SLASH;
    assert |s| >= 3 ==> input[3] == s[2] && s[2] != SLASH;
    assert |s| == 0 ==> rest == [] || input[1] == SLASH;
    SegmentEndMeans(s, rest, 1);
    assert input[|s| + 1..] == rest;
    assert output + input[..|s| + 1] == output + [SLASH] + s;
  }

  lemma SkipDot(rest: Str, output: Str)
    requires [SLASH] <= rest
    ensures RemoveDotSegments([SLASH, DOT] + rest, output) == RemoveDotSegments(rest, output)
  {
    var input := [SLASH, DOT] + rest;
    assert input[0] == SLASH && input[1] == DOT && input[2] == SLASH;
    assert [SLASH, DOT, SLASH] <= input;
    assert [SLASH] + input[3..] == rest;
  }

  lemma SkipDotDot(rest: Str, output: Str)
    requires [SLASH] <= rest
    ensures RemoveDotSegments([SLASH, DOT, DOT] + rest, output) ==
            RemoveDotSegments(rest, WithoutLastSegment(output))
  {
    var input := [SLASH, DOT, DOT] + rest;
    assert input[0] == SLASH && input[1] == DOT && input[2] == DOT && input[3] == SLASH;
    assert [SLASH, DOT, DOT, SLASH] <= input;
    assert [SLASH] + input[4..] == rest;
  }

  lemma LastSlash(output: Str)
    ensures RemoveDotSegments([SLASH], output) == output + [SLASH]
  {
    assert SegmentEnd([SLASH], 1) == 1;
    assert [SLASH][1..] == [] && [SLASH][..1] == [SLASH];
  }

  lemma LastDots(output: Str)
    ensures RemoveDotSegments([SLASH, DOT], output) == output + [SLASH]
    ensures RemoveDotSegments([SLASH, DOT, DOT], output) == WithoutLastSegment(output) + [SLASH]
  {
    LastSlash(output);
    LastSlash(WithoutLastSegment(output));
    assert [SLASH, DOT][0] == SLASH && [SLASH, DOT, DOT][2] == DOT;
  }

  lemma DotStep(segments: seq<Str>, output: Str)
    requires |segments| > 1 && segments[0] == [DOT]
    ensures RemoveDotSegments(Flat(segments), output) == RemoveDotSegments(Flat(segments[1..]), output)
  {
    hide RemoveDotSegments;
    var rest := Flat(segments[1..]);
    FlatStarts(segments[1..]);
    assert Flat(segments) == [SLASH, DOT] + rest;
    SkipDot(rest, output);
  }

  lemma DotDotStep(segments: seq<Str>, output: Str)
    requires |segments| > 1 && segments[0] == [DOT, DOT]
    ensures RemoveDotSegments(Flat(segments), output) ==
            RemoveDotSegments(Flat(segments[1..]), WithoutLastSegment(output))
  {
    hide RemoveDotSegments;
    var rest := Flat(segments[1..]);
    FlatStarts(segments[1..]);
    assert Flat(segments) == [SLASH, DOT, DOT] + rest;
    SkipDotDot(rest, output);
  }

  lemma DotsEnd(output: Str)
    ensures RemoveDotSegments(Flat([]), output) == output
    ensures RemoveDotSegments(Flat([[DOT]]), output) == output + [SLASH]
    ensures RemoveDotSegments(Flat([[DOT, DOT]]), output) == WithoutLastSegment(output) + [SLASH]
  {
    LastDots(output);
    assert Flat([[DOT]]) == [SLASH, DOT] && Flat([[DOT, DOT]]) == [SLASH, DOT, DOT];
  }

  lemma FlatLast(out: seq<Str>, last: Str)
    ensures Flat(out + [last]) == Flat(out) + [SLASH] + last
  {
    FlatConcat(out, [last]);
    assert Flat([last]) == [SLASH] + last;
    assert Flat(out) + ([SLASH] + last) == Flat(out) + [SLASH] + last;
  }

  lemma {:induction false} SegmentsAgree(segments: seq<Str>, out: seq<Str>)
    requires AllFree(segments, SLASH) && AllFree(out, SLASH)
    ensures RemoveDotSegments(Flat(segments), Flat(out)) == Flat(NormalizeSegments(segments, out))
  {
    hide RemoveDotSegments, WithoutLastSegment, Flat;
    WithoutLastFlat(out);
    DotsEnd(Flat(out));
    FlatLast(out, []);
    FlatLast(DropLast(out), []);
    assert Flat(out) + [SLASH] + [] == Flat(out) + [SLASH];
    assert Flat(DropLast(out)) + [SLASH] + [] == Flat(DropLast(out)) + [SLASH];
    if segments == [] || segments == [[DOT]] || segments == [[DOT, DOT]] {
    } else if segments[0] == [DOT] {
      assert |segments| == 1 ==> segments == [[DOT]];
      DotStep(segments, Flat(out));
      SegmentsAgree(segments[1..], out);
    } else if segments[0] == [DOT, DOT] {
      assert |segments| == 1 ==> segments == [[DOT, DOT]];
      DotDotStep(segments, Flat(out));
      SegmentsAgree(segments[1..], DropLast(out));
    } else {
      MoveSegment(segments, Flat(out));
      FlatLast(out, segments[0]);
      SegmentsAgree(segments[1..], out + [segments[0]]);
    }
  }

  lemma {:induction false} NormalizedSegments(segments: seq<Str>, out: seq<Str>)
    requires AllFree(segments, SLASH) && AllFree(out, SLASH) && NoDots(out)
    ensures AllFree(NormalizeSegments(segments, out), SLASH)
    ensures NoDots(NormalizeSegments(segments, out))
    ensures segments != [] || out != [] ==> NormalizeSegments(segments, out) != []
  {
    if segments == [] || segments == [[DOT]] || segments == [[DOT, DOT]] {
    } else if segments[0] == [DOT] {
      NormalizedSegments(segments[1..], out);
    } else if segments[0] == [DOT, DOT] {
      NormalizedSegments(segments[1..], DropLast(out));
    } else {
      NormalizedSegments(segments[1..], out + [segments[0]]);
    }
  }

  lemma {:induction false} DotFreeUnchanged(segments: seq<Str>, out: seq<Str>)
    requires NoDots(segments)
    ensures NormalizeSegments(segments, out) == out + segments
  {
    if segments != [] {
      assert !IsDotSegment(segments[0]);
      DotFreeUnchanged(segments[1..], out + [segments[0]]);
      assert out + [segments[0]] + segments[1..] == out + segments;
    }
  }

  /** A rooted path is its segments, each after a `/`. */
  lemma RootedPath(path: Str)
    requires [SLASH] <= path
    ensures Segments(path) != [] && AllFree(Segments(path), SLASH)
    ensures path == Flat(Segments(path)) == [SLASH] + JoinWith(Segments(path), [SLASH])
  {
    SplitIsFree(path, SLASH);
    JoinSplit(path[1..], [SLASH]);
    assert path == [SLASH] + path[1..];
    assert SplitOn(path, [SLASH]) == [[]] + SplitOn(path[1..], [SLASH]);
    FlatJoin(Segments(path));
  }

  /** Segments with no `/` in them are the segments of the path they spell. */
  lemma SegmentsOf(segments: seq<Str>)
    requires segments != [] && AllFree(segments, SLASH)
    ensures Segments([SLASH] + JoinWith(segments, [SLASH])) == segments
  {
    SplitJoin(segments, SLASH);
    var path := [SLASH] + JoinWith(segments, [SLASH]);
    assert path[1..] == JoinWith(segments, [SLASH]);
  }

  /** A path in the form `NormalizePath` answers. */
  predicate Normalized(path: Str) {
    [SLASH] <= path && NoDots(Segments(path))
  }

  /** On every rooted path, empty segments included, normalization computes
      what the buffer rewriting of section 5.2.4 of RFC 3986 computes. */
  lemma NormalizeIsRemoveDotSegments(path: Str)
    requires [SLASH] <= path
    ensures NormalizePath(path) == RemoveDotSegments(path, [])
  {
    RootedPath(path);
    StartsWithMeans(path, [SLASH]);
    SegmentsAgree(Segments(path), []);
    NormalizedSegments(Segments(path), []);
    FlatJoin(NormalizeSegments(Segments(path), []));
  }

  /** Whatever is normalized comes out rooted, non-empty and free of dot
      segments, and exactly the paths in that form are left as they are. */
  lemma NormalizeIsCanonical(path: Str)
    ensures Normalized(NormalizePath(path))
    ensures NormalizePath(path) == path <==> Normalized(path)
  {
    StartsWithMeans(path, [SLASH]);
    var rooted := if [SLASH] <= path then path else [SLASH] + path;
    RootedPath(rooted);
    NormalizedSegments(Segments(rooted), []);
    SegmentsOf(NormalizeSegments(Segments(rooted), []));
    if Normalized(path) {
      DotFreeUnchanged(Segments(path), []);
      assert [] + Segments(path) == Segments(path);
    }
  }

  lemma {:induction false} UpToLastSlashMeans(a: Str, b: Str)
    requires Free(b, SLASH)
    ensures UpToLastSlash(a + [SLASH] + b) == a + [SLASH]
    decreases |b|
  {
    var s := a + [SLASH] + b;
    if b != [] {
      assert b[|b| - 1] in b;
      UpToLastSlashMeans(a, b[..|b| - 1]);
      assert s[..|s| - 1] == a + [SLASH] + b[..|b| - 1];
    }
  }

  /** Dropping the last of several segments keeps what is before the last `/`. */
  lemma DirectoryOf(init: seq<Str>, last: Str)
    requires init != [] && Free(last, SLASH)
    ensures var path := [SLASH] + JoinWith(init + [last], [SLASH]);
            UpToLastSlash(path) == JoinWith([[]] + init, [SLASH]) + [SLASH]
  {
    var dir := [SLASH] + JoinWith(init, [SLASH]);
    JoinAfter(init, [SLASH]);
    JoinConcat(init, [last], [SLASH]);
    UpToLastSlashMeans(dir, last);
    assert [SLASH] + JoinWith(init + [last], [SLASH]) == dir + [SLASH] + last;
  }

  /** The directory of a rooted path is the path up to and including its last
      `/`: what section 5.2.3 of RFC 3986 keeps when it merges. */
  lemma PathDirectoryMeans(path: Str)
    requires [SLASH] <= path
    ensures PathDirectory(path) == UpToLastSlash(path)
    ensures [SLASH] <= PathDirectory(path)
  {
    RootedPath(path);
    var segments := Segments(path);
    var parts := SplitOn(path, [SLASH]);
    assert parts == [[]] + segments;
    var init, last := segments[..|segments| - 1], segments[|segments| - 1];
    assert segments == init + [last];
    if init != [] {
      DirectoryOf(init, last);
      JoinAfter(init, [SLASH]);
      assert parts[..|parts| - 1] == [[]] + init;
    } else {
      assert path == [] + [SLASH] + last;
      UpToLastSlashMeans([], last);
    }
  }
}
