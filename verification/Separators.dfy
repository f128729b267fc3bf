/** Splitting and joining on separators of any length. */
module Separators {
  import opened Text

  /** An occurrence of `sep` at `i`. */
  predicate At(s: Str, sep: Str, i: nat) {
    i + |sep| <= |s| && s[i..i + |sep|] == sep
  }

  ghost predicate NotIn(s: Str, sep: Str) {
    forall i: nat :: !At(s, sep, i)
  }

  lemma AtTail(s: Str, sep: Str, i: nat)
    requires s != []
    ensures At(s[1..], sep, i) <==> At(s, sep, i + 1)
  {
    if i + 1 + |sep| <= |s| { assert s[1..][i..i + |sep|] == s[i + 1..i + 1 + |sep|]; }
  }

  /** `n` is where the first piece ends. */
  ghost predicate HeadEnds(s: Str, sep: Str, n: nat) {
    && n <= |s| && (forall i: nat :: i < n ==> !At(s, sep, i))
    && (if At(s, sep, n) then n + |sep| <= |s| else n == |s| && NotIn(s, sep))
  }

  lemma AtFits(s: Str, sep: Str, i: nat)
    requires At(s, sep, i)
    ensures i + |sep| <= |s|
  {
  }

  lemma HeadOfTail(s: Str, sep: Str, m: nat)
    requires s != [] && !At(s, sep, 0) && HeadEnds(s[1..], sep, m)
    ensures HeadEnds(s, sep, m + 1)
  {
    hide At;
    AtTail(s, sep, m);
    forall i: nat ensures At(s, sep, i) ==> i > 0 && At(s[1..], sep, i - 1) {
      if i > 0 { AtTail(s, sep, i - 1); }
    }
    if At(s, sep, m + 1) { AtFits(s, sep, m + 1); }
  }

  lemma SplitByteOff(s: Str, sep: Str, piece: Str, rest: seq<Str>)
    requires sep != [] && s != [] && !(sep <= s) && SplitOn(s[1..], sep) == [piece] + rest
    ensures SplitOn(s, sep) == [[s[0]] + piece] + rest
  {
  }

  lemma FirstTaken(s: Str, m: nat)
    requires m < |s|
    ensures [s[0]] + s[1..][..m] == s[..m + 1]
  {
  }

  lemma SplitWhole(s: Str, sep: Str)
    requires sep != [] && s != [] && !(sep <= s) && SplitOn(s[1..], sep) == [s[1..]]
    ensures SplitOn(s, sep) == [s]
  {
    assert [s[0]] + s[1..] == s;
  }

  lemma HeadHere(s: Str, sep: Str)
    requires sep != []
    ensures At(s, sep, 0) <==> sep <= s
    ensures s == [] || sep <= s ==> HeadEnds(s, sep, 0)
  {
  }

  /** The first piece ends at the first occurrence, and the other pieces are
      those of what follows it. */
  lemma {:induction false} SplitHead(s: Str, sep: Str) returns (n: nat)
    requires sep != []
    ensures HeadEnds(s, sep, n)
    ensures SplitOn(s, sep) == if At(s, sep, n) then [s[..n]] + SplitOn(s[n + |sep|..], sep) else [s]
    decreases |s|
  {
    hide At, HeadEnds;
    n := 0;
    HeadHere(s, sep);
    if s != [] && !(sep <= s) {
      hide SplitOn;
      var m := SplitHead(s[1..], sep);
      n := m + 1;
      AtTail(s, sep, m);
      HeadOfTail(s, sep, m);
      if At(s, sep, n) {
        AtFits(s, sep, n);
        FirstTaken(s, m);
        assert s[1..][m + |sep|..] == s[n + |sep|..];
        SplitByteOff(s, sep, s[1..][..m], SplitOn(s[n + |sep|..], sep));
      } else {
        SplitWhole(s, sep);
      }
    }
  }

  lemma HeadIsUnique(s: Str, sep: Str, m: nat, n: nat)
    requires HeadEnds(s, sep, m) && HeadEnds(s, sep, n)
    ensures m == n
  {
  }

  lemma AtCuts(s: Str, sep: Str, n: nat)
    requires At(s, sep, n)
    ensures s == s[..n] + sep + s[n + |sep|..]
  {
  }

  /** The first split point is the first occurrence. */
  lemma SplitFirstFinds(s: Str, sep: Str)
    requires sep != []
    ensures SplitFirst(s, sep) == NotFound <==> NotIn(s, sep)
    ensures SplitFirst(s, sep).Found? ==>
              var f := SplitFirst(s, sep);
              s == f.before + sep + f.after && forall i: nat :: i < |f.before| ==> !At(s, sep, i)
  {
    hide SplitOn, At;
    var n := SplitHead(s, sep);
    if At(s, sep, n) {
      AtCuts(s, sep, n);
      var rest := s[n + |sep|..];
      JoinSplit(rest, sep);
      assert SplitOn(s, sep)[1..] == SplitOn(rest, sep);
    }
  }

  lemma {:induction false} LastPiece(s: Str, sep: Str)
    requires sep != []
    ensures var parts := SplitOn(s, sep); NotIn(parts[|parts| - 1], sep)
    decreases |s|
  {
    var n := SplitHead(s, sep);
    if At(s, sep, n) { LastPiece(s[n + |sep|..], sep); }
  }

  /** Followed by a separator, `piece` ends at it and not before. */
  ghost predicate EndsAtSeparator(piece: Str, sep: Str) {
    forall i: nat :: i < |piece| ==> !At(piece + sep, sep, i)
  }

  /** Pieces that joining keeps apart. */
  ghost predicate ProperPieces(parts: seq<Str>, sep: Str) {
    && parts != [] && NotIn(parts[|parts| - 1], sep)
    && forall k :: 0 <= k < |parts| - 1 ==> EndsAtSeparator(parts[k], sep)
  }

  lemma ProperInit(init: seq<Str>, last: Str, sep: Str)
    requires init != [] && sep != [] && ProperPieces(init + [last], sep)
    ensures ProperPieces(init, sep)
  {
    var parts := init + [last];
    forall k | 0 <= k < |init| ensures EndsAtSeparator(init[k], sep) {
      assert EndsAtSeparator(parts[k], sep);
    }
    var piece := init[|init| - 1];
    forall i: nat ensures !At(piece, sep, i) {
      if At(piece, sep, i) { assert At(piece + sep, sep, i) by { assert (piece + sep)[i..i + |sep|] == piece[i..i + |sep|]; } }
    }
  }

  lemma ProperCons(piece: Str, rest: seq<Str>, sep: Str)
    requires rest != []
    ensures ProperPieces([piece] + rest, sep) <==> EndsAtSeparator(piece, sep) && ProperPieces(rest, sep)
  {
    var parts := [piece] + rest;
    if ProperPieces(parts, sep) {
      assert EndsAtSeparator(parts[0], sep);
      forall k | 0 <= k < |rest| - 1 ensures EndsAtSeparator(rest[k], sep) {
        assert EndsAtSeparator(parts[k + 1], sep);
      }
    }
  }

  /** Only the piece and the separator decide what occurs inside the piece. */
  lemma AtInPiece(piece: Str, sep: Str, after: Str, i: nat)
    requires i <= |piece|
    ensures At(piece + sep + after, sep, i) <==> At(piece + sep, sep, i)
  {
    assert (piece + sep + after)[i..i + |sep|] == (piece + sep)[i..i + |sep|];
  }

  lemma {:induction false} SplitProper(s: Str, sep: Str)
    requires sep != []
    ensures ProperPieces(SplitOn(s, sep), sep)
    decreases |s|
  {
    var n := SplitHead(s, sep);
    if At(s, sep, n) {
      var rest := s[n + |sep|..];
      SplitProper(rest, sep);
      assert s == s[..n] + sep + rest;
      forall i: nat | i < n ensures !At(s[..n] + sep, sep, i) {
        AtInPiece(s[..n], sep, rest, i);
      }
      ProperCons(s[..n], SplitOn(rest, sep), sep);
    }
  }

  lemma {:induction false} SplitJoinProper(parts: seq<Str>, sep: Str)
    requires sep != [] && ProperPieces(parts, sep)
    ensures SplitOn(JoinWith(parts, sep), sep) == parts
  {
    var s := JoinWith(parts, sep);
    var n := SplitHead(s, sep);
    if |parts| == 1 {
      assert parts == [s];
    } else {
      var piece, after := parts[0], JoinWith(parts[1..], sep);
      assert parts == [piece] + parts[1..];
      ProperCons(piece, parts[1..], sep);
      SplitJoinProper(parts[1..], sep);
      forall i: nat | i <= |piece| ensures At(s, sep, i) <==> i == |piece| {
        AtInPiece(piece, sep, after, i);
        assert At(piece + sep, sep, |piece|);
      }
      assert HeadEnds(s, sep, |piece|);
      HeadIsUnique(s, sep, n, |piece|);
      assert s[..n] == piece && s[n + |sep|..] == after;
    }
  }

  /** The last split point is the last of the occurrences that do not overlap,
      counted from the left: no other follows it, and the pieces before it are
      the pieces of the text before it. */
  lemma SplitLastFinds(s: Str, sep: Str)
    requires sep != []
    ensures SplitLast(s, sep) == NotFound <==> NotIn(s, sep)
    ensures SplitLast(s, sep).Found? ==>
              var f := SplitLast(s, sep);
              s == f.before + sep + f.after && NotIn(f.after, sep)
              && SplitOn(s, sep) == SplitOn(f.before, sep) + [f.after]
  {
    LastPiece(s, sep);
    var n := SplitHead(s, sep);
    if At(s, sep, n) {
      var parts := SplitOn(s, sep);
      var init, last := parts[..|parts| - 1], parts[|parts| - 1];
      assert parts == init + [last];
      JoinSplit(s, sep);
      JoinConcat(init, [last], sep);
      SplitProper(s, sep);
      ProperInit(init, last, sep);
      SplitJoinProper(init, sep);
    }
  }

  /** Splitting undoes joining exactly for pieces that hold no separator, even
      with the separator that follows them. */
  lemma SplitJoinExactly(parts: seq<Str>, sep: Str)
    requires sep != [] && parts != []
    ensures SplitOn(JoinWith(parts, sep), sep) == parts <==> ProperPieces(parts, sep)
  {
    SplitProper(JoinWith(parts, sep), sep);
    if ProperPieces(parts, sep) { SplitJoinProper(parts, sep); }
  }

  predicate IsSuffix(s: Str, suffix: Str) {
    |suffix| <= |s| && At(s, suffix, |s| - |suffix|)
  }

  /** The first `b` bytes of `s` are also its last. */
  predicate BorderAt(s: Str, b: nat) {
    0 < b < |s| && s[..b] == s[|s| - b..]
  }

  ghost predicate Unbordered(s: Str) {
    forall b: nat :: !BorderAt(s, b)
  }

  /** Past the first piece the end decides. */
  lemma EndsWithRest(s: Str, suffix: Str, piece: Str, rest: Str)
    requires suffix != [] && SplitOn(s, suffix) == [piece] + SplitOn(rest, suffix)
    ensures EndsWith(s, suffix) <==> EndsWith(rest, suffix)
  {
    hide SplitOn;
    var parts := SplitOn(rest, suffix);
    assert SplitOn(s, suffix)[|parts|] == parts[|parts| - 1];
  }

  lemma EndsWithNothing(suffix: Str)
    requires suffix != []
    ensures EndsWith([], suffix)
  {
  }

  lemma SuffixOfTail(s: Str, suffix: Str, n: nat)
    requires n <= |s| && IsSuffix(s[n..], suffix)
    ensures IsSuffix(s, suffix)
  {
    assert s[|s| - |suffix|..] == s[n..][|s[n..]| - |suffix|..];
  }

  lemma AtEnd(s: Str, suffix: Str, n: nat)
    requires At(s, suffix, n) && n + |suffix| == |s|
    ensures IsSuffix(s, suffix)
  {
  }

  lemma {:induction false} EndsWithIsSuffix(s: Str, suffix: Str)
    requires suffix != [] && s != [] && EndsWith(s, suffix)
    ensures IsSuffix(s, suffix)
    decreases |s|
  {
    hide At, SplitOn, IsSuffix;
    var n := SplitHead(s, suffix);
    if At(s, suffix, n) {
      var rest := s[n + |suffix|..];
      EndsWithRest(s, suffix, s[..n], rest);
      if rest != [] {
        EndsWithIsSuffix(rest, suffix);
        SuffixOfTail(s, suffix, n + |suffix|);
      } else {
        AtEnd(s, suffix, n);
      }
    }
  }

  lemma OverlapIsBorder(s: Str, sep: Str, i: nat, j: nat)
    requires At(s, sep, i) && At(s, sep, j) && i < j < i + |sep|
    ensures BorderAt(sep, i + |sep| - j)
  {
    var b := i + |sep| - j;
    assert sep[..b] == s[j..j + |sep|][..b] == s[j..j + b];
    assert sep[|sep| - b..] == s[i..i + |sep|][|sep| - b..] == s[j..j + b];
  }

  lemma SuffixOfRest(s: Str, suffix: Str, n: nat)
    requires IsSuffix(s, suffix) && n + |suffix| <= |s| - |suffix|
    ensures IsSuffix(s[n + |suffix|..], suffix)
  {
    var rest := s[n + |suffix|..];
    assert rest[|rest| - |suffix|..] == s[|s| - |suffix|..];
  }

  lemma {:induction false} SuffixEndsWith(s: Str, suffix: Str)
    requires suffix != [] && Unbordered(suffix) && IsSuffix(s, suffix)
    ensures EndsWith(s, suffix)
    decreases |s|
  {
    hide At, BorderAt, SplitOn, EndsWith;
    var n := SplitHead(s, suffix);
    var end := |s| - |suffix|;
    assert n <= end;
    EndsWithRest(s, suffix, s[..n], s[n + |suffix|..]);
    EndsWithNothing(suffix);
    assert n == end ==> s[n + |suffix|..] == [];
    if n < end < n + |suffix| {
      OverlapIsBorder(s, suffix, n, end);
    } else if n < end {
      SuffixOfRest(s, suffix, n);
      SuffixEndsWith(s[n + |suffix|..], suffix);
    }
  }

  lemma BorderedFails(suffix: Str, b: nat)
    requires BorderAt(suffix, b)
    ensures var s := suffix + suffix[b..]; IsSuffix(s, suffix) && !EndsWith(s, suffix)
  {
    var rest := suffix[b..];
    var s := suffix + rest;
    assert s[|s| - |suffix|..] == suffix[|suffix| - b..] + rest == suffix;
    assert s[|suffix|..] == rest;
    var n := SplitHead(rest, suffix);
  }

  /** The split-based suffix test answers true of the empty string, and of the
      other strings it is the suffix test exactly when no overlap of the suffix
      with itself can hide its last occurrence. */
  lemma EndsWithExactly(suffix: Str)
    ensures suffix == [] ==> forall s :: EndsWith(s, suffix)
    ensures EndsWith([], suffix)
    ensures (forall s :: s != [] ==> (EndsWith(s, suffix) <==> IsSuffix(s, suffix))) <==> Unbordered(suffix)
  {
    if suffix == [] {
      assert forall s :: EndsWith(s, suffix) && IsSuffix(s, suffix);
      assert Unbordered(suffix);
    } else if Unbordered(suffix) {
      forall s | s != [] ensures EndsWith(s, suffix) <==> IsSuffix(s, suffix) {
        if EndsWith(s, suffix) { EndsWithIsSuffix(s, suffix); }
        if IsSuffix(s, suffix) { SuffixEndsWith(s, suffix); }
      }
    } else {
      var b: nat :| BorderAt(suffix, b);
      BorderedFails(suffix, b);
    }
  }
}
