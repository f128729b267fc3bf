/** Writing a path in canonical form and removing its dot segments are
    independent of each other. */
module CanonicalPaths {
  import opened Text
  import opened Ascii
  import opened Component
  import opened Rfc3986
  import opened Paths

  // ----- Canonical form, piece by piece -----

  lemma AcceptableConcat(a: Str, b: Str, kind: Kind)
    requires Acceptable(a, kind) && Acceptable(b, kind)
    ensures Acceptable(a + b, kind)
  {
    forall i | 0 <= i < |a + b| ensures FineAt(a + b, kind, i) {
      if i < |a| { assert FineAt(a, kind, i); } else { assert FineAt(b, kind, i - |a|); }
    }
  }

  /** An acceptable string cut at a byte that is no part of an escape. */
  lemma AcceptableCut(a: Str, c: Byte, b: Str, kind: Kind)
    requires Acceptable(a + [c] + b, kind)
    requires c != PERCENT && !IsHex(c)
    ensures Acceptable(a, kind) && Acceptable(b, kind)
  {
    var s := a + [c] + b;
    forall i | 0 <= i < |a| ensures FineAt(a, kind, i) {
      assert FineAt(s, kind, i) && s[i] == a[i] && s[|a|] == c;
    }
    AcceptableTail(s, kind, |a| + 1);
    assert s[|a| + 1..] == b;
  }

  lemma CanonUnitConcat(a: Str, b: Str, kind: Kind)
    requires Acceptable(a, kind) && a != []
    ensures CanonUnit(a + b) == CanonUnit(a)
    ensures UnitLength(a + b) == UnitLength(a) && (a + b)[UnitLength(a)..] == a[UnitLength(a)..] + b
  {
    assert FineAt(a, kind, 0);
    UnitConcat(a, b);
    assert (a + b)[0] == a[0];
    if a[0] == PERCENT { assert (a + b)[1] == a[1] && (a + b)[2] == a[2]; }
  }

  lemma {:induction false} CanonConcat(a: Str, b: Str, kind: Kind)
    requires Acceptable(a, kind)
    ensures Canon(a + b) == Canon(a) + Canon(b)
    decreases |a|
  {
    hide CanonUnit, UnitLength, Acceptable;
    if a == [] {
      assert a + b == b;
    } else {
      var tail := a[UnitLength(a)..];
      CanonUnitConcat(a, b, kind);
      AcceptableTail(a, kind, UnitLength(a));
      CanonConcat(tail, b, kind);
      assert CanonUnit(a) + (Canon(tail) + Canon(b)) == CanonUnit(a) + Canon(tail) + Canon(b);
    }
  }

  lemma CanonSlash()
    ensures Canon([SLASH]) == [SLASH] && Acceptable([SLASH], Path)
  {
    assert [SLASH][1..] == [];
  }

  lemma CanonStarts(s: Str)
    ensures Canon(s) == [] <==> s == []
    ensures [SLASH] <= Canon(s) <==> [SLASH] <= s
  {
    if s != [] { assert Canon(s) == CanonUnit(s) + Canon(s[UnitLength(s)..]); }
  }

  // ----- Segments -----

  ghost predicate AcceptableSegments(segments: seq<Str>) {
    forall k :: 0 <= k < |segments| ==> Acceptable(segments[k], Path)
  }

  function CanonAll(segments: seq<Str>): (r: seq<Str>)
    ensures |r| == |segments| && forall k :: 0 <= k < |r| ==> r[k] == Canon(segments[k])
  {
    if segments == [] then [] else [Canon(segments[0])] + CanonAll(segments[1..])
  }

  lemma CanonOfDot(s: Str)
    ensures Canon(s) == [DOT] <==> s == [DOT]
  {
    if s != [] {
      var rest := s[UnitLength(s)..];
      assert Canon(s) == CanonUnit(s) + Canon(rest);
      CanonStarts(rest);
      if Canon(s) == [DOT] {
        assert |CanonUnit(s)| == 1 && |Canon(rest)| == 0;
        assert CanonUnit(s) == Canon(s)[..1];
        assert s == [s[0]] + rest;
      }
    }
  }

  /** Canonical form neither makes nor hides a dot segment: an escaped dot stays
      escaped. */
  lemma CanonDots(s: Str)
    ensures Canon(s) == [DOT] <==> s == [DOT]
    ensures Canon(s) == [DOT, DOT] <==> s == [DOT, DOT]
  {
    CanonOfDot(s);
    if s != [] {
      var rest := s[UnitLength(s)..];
      CanonOfDot(rest);
      assert Canon(s) == CanonUnit(s) + Canon(rest);
      if Canon(s) == [DOT, DOT] {
        assert CanonUnit(s) == [s[0]] && Canon(s)[1..] == Canon(rest);
        assert s == [s[0]] + rest;
      }
      if s == [DOT, DOT] { assert rest == [DOT]; }
    }
  }

  lemma CanonUnitFree(s: Str, kind: Kind)
    requires Acceptable(s, kind) && s != [] && Free(s, SLASH)
    ensures Free(CanonUnit(s), SLASH)
  {
    assert FineAt(s, kind, 0) && s[0] in s;
  }

  lemma {:induction false} CanonFree(s: Str)
    requires Acceptable(s, Path) && Free(s, SLASH)
    ensures Free(Canon(s), SLASH)
    decreases |s|
  {
    if s != [] {
      CanonUnitFree(s, Path);
      AcceptableTail(s, Path, UnitLength(s));
      CanonFree(s[UnitLength(s)..]);
    }
  }

  /** Normalizing canonical segments gives the canonical normalized segments. */
  lemma {:induction false} NormalizeCanon(segments: seq<Str>, out: seq<Str>)
    ensures NormalizeSegments(CanonAll(segments), CanonAll(out)) == CanonAll(NormalizeSegments(segments, out))
  {
    hide Canon, CanonAll;
    if segments != [] {
      var head, tail := segments[0], segments[1..];
      CanonDots(head);
      CanonStarts([]);
      assert CanonAll(segments)[1..] == CanonAll(tail);
      assert CanonAll(DropLast(out)) == DropLast(CanonAll(out));
      assert CanonAll(out + [[]]) == CanonAll(out) + [[]];
      assert CanonAll(DropLast(out) + [[]]) == CanonAll(DropLast(out)) + [[]];
      assert CanonAll(out + [head]) == CanonAll(out) + [Canon(head)];
      assert |segments| == 1 ==> segments == [head] && CanonAll(segments) == [Canon(head)];
      NormalizeCanon(tail, out);
      NormalizeCanon(tail, DropLast(out));
      NormalizeCanon(tail, out + [head]);
    }
  }

  lemma {:induction false} NormalizedAcceptable(segments: seq<Str>, out: seq<Str>)
    requires AcceptableSegments(segments) && AcceptableSegments(out)
    ensures AcceptableSegments(NormalizeSegments(segments, out))
  {
    if segments == [] || segments == [[DOT]] || segments == [[DOT, DOT]] {
    } else if segments[0] == [DOT] {
      NormalizedAcceptable(segments[1..], out);
    } else if segments[0] == [DOT, DOT] {
      NormalizedAcceptable(segments[1..], DropLast(out));
    } else {
      NormalizedAcceptable(segments[1..], out + [segments[0]]);
    }
  }

  lemma NothingIsAcceptable()
    ensures Acceptable([], Path)
  {
  }

  lemma {:induction false} FlatCanon(segments: seq<Str>)
    requires AcceptableSegments(segments)
    ensures Canon(Flat(segments)) == Flat(CanonAll(segments)) && Acceptable(Flat(segments), Path)
  {
    hide Acceptable, Canon;
    if segments == [] {
      CanonStarts([]);
      NothingIsAcceptable();
    } else {
      var head, tail := segments[0], segments[1..];
      CanonSlash();
      FlatCanon(tail);
      AcceptableConcat([SLASH], head, Path);
      AcceptableConcat([SLASH] + head, Flat(tail), Path);
      CanonConcat([SLASH], head, Path);
      CanonConcat([SLASH] + head, Flat(tail), Path);
    }
  }

  lemma {:induction false} SegmentsAcceptable(s: Str)
    requires Acceptable(s, Path)
    ensures AcceptableSegments(SplitOn(s, [SLASH]))
    decreases |s|
  {
    hide Acceptable;
    SplitFirstMeans(s, SLASH);
    if Free(s, SLASH) {
      SplitFree(s, SLASH);
    } else {
      var f := SplitFirst(s, [SLASH]);
      AcceptableCut(f.before, SLASH, f.after, Path);
      SegmentsAcceptable(f.after);
      SplitConcat(f.before, SLASH, f.after);
      SplitFree(f.before, SLASH);
    }
  }

  /** Removing the dot segments of a canonical path and writing a path without
      dot segments in canonical form are the same. */
  lemma RemoveDotsCanon(path: Str)
    requires [SLASH] <= path && Acceptable(path, Path)
    ensures RemoveDotSegments(Canon(path), []) == Canon(RemoveDotSegments(path, []))
    ensures Acceptable(RemoveDotSegments(path, []), Path)
  {
    hide RemoveDotSegments, Acceptable, Canon, NormalizeSegments;
    RootedPath(path);
    SegmentsAcceptable(path);
    var segments := Segments(path);
    assert AcceptableSegments(segments);
    forall k | 0 <= k < |segments| ensures Free(Canon(segments[k]), SLASH) {
      CanonFree(segments[k]);
    }
    FlatCanon(segments);
    SegmentsAgree(segments, []);
    SegmentsAgree(CanonAll(segments), []);
    NormalizeCanon(segments, []);
    NormalizedAcceptable(segments, []);
    FlatCanon(NormalizeSegments(segments, []));
  }
}
