/** Byte strings and the two string operations every other module builds on:
    splitting on a separator and joining with one. */
module Text {

  type Byte = b: int | 0 <= b < 256
  type Str = seq<Byte>

  datatype Option<+T> = None | Some(value: T)
  datatype Result<+T, +E> = Ok(value: T) | Err(error: E) {
    predicate IsFailure() { Err? }

    function PropagateFailure<U>(): Result<U, E>
      requires Err?
    {
      Err(error)
    }

    function Extract(): T
      requires Ok?
    {
      value
    }
  }

  /** The pieces of `s` between non-overlapping occurrences of `sep`, found
      from the left. There is always at least one piece. */
  function SplitOn(s: Str, sep: Str): (parts: seq<Str>)
    requires sep != []
    ensures parts != []
    decreases |s|
  {
    if s == [] then [[]]
    else if sep <= s then [[]] + SplitOn(s[|sep|..], sep)
    else
      var rest := SplitOn(s[1..], sep);
      [[s[0]] + rest[0]] + rest[1..]
  }

  function JoinWith(parts: seq<Str>, sep: Str): Str {
    if parts == [] then []
    else if |parts| == 1 then parts[0]
    else parts[0] + sep + JoinWith(parts[1..], sep)
  }

  function Repeat<T>(value: T, count: nat): (r: seq<T>)
    ensures |r| == count && forall i :: 0 <= i < count ==> r[i] == value
  {
    if count == 0 then [] else [value] + Repeat(value, count - 1)
  }

  function Concat<T>(parts: seq<seq<T>>): seq<T> {
    if parts == [] then [] else parts[0] + Concat(parts[1..])
  }

  lemma {:induction false} ConcatLast<T>(parts: seq<seq<T>>, last: seq<T>)
    ensures Concat(parts + [last]) == Concat(parts) + last
  {
    if parts != [] {
      ConcatLast(parts[1..], last);
      assert (parts + [last])[1..] == parts[1..] + [last];
    }
  }

  /** Index of the first `x`, or the length. */
  function IndexOf<T(==)>(s: seq<T>, x: T): (n: nat)
    ensures n <= |s| && x !in s[..n] && (n < |s| ==> s[n] == x)
  {
    if s == [] || s[0] == x then 0 else 1 + IndexOf(s[1..], x)
  }

  datatype Split = Found(before: Str, after: Str) | NotFound

  function SplitFirst(s: Str, sep: Str): Split
    requires sep != []
  {
    var parts := SplitOn(s, sep);
    if |parts| > 1 then Found(parts[0], JoinWith(parts[1..], sep)) else NotFound
  }

  function SplitLast(s: Str, sep: Str): Split
    requires sep != []
  {
    var parts := SplitOn(s, sep);
    if |parts| > 1 then Found(JoinWith(parts[..|parts| - 1], sep), parts[|parts| - 1]) else NotFound
  }

  predicate StartsWith(s: Str, prefix: Str) {
    if prefix == [] then true
    else
      match SplitFirst(s, prefix)
      case Found(before, _) => before == []
      case NotFound => false
  }

  predicate EndsWith(s: Str, suffix: Str) {
    if suffix == [] then true
    else
      var parts := SplitOn(s, suffix);
      parts[|parts| - 1] == []
  }

  function DropPrefix(s: Str, prefix: Str): Str
    requires prefix != []
  {
    JoinWith(SplitOn(s, prefix)[1..], prefix)
  }

  /** No byte of `s` is `c`. */
  predicate Free(s: Str, c: Byte) {
    c !in s
  }

  predicate AllFree(parts: seq<Str>, c: Byte) {
    forall k :: 0 <= k < |parts| ==> Free(parts[k], c)
  }

  lemma JoinPrepend(b: Byte, parts: seq<Str>, sep: Str)
    requires parts != []
    ensures JoinWith([[b] + parts[0]] + parts[1..], sep) == [b] + JoinWith(parts, sep)
  {
    var longer := [[b] + parts[0]] + parts[1..];
    assert longer[0] == [b] + parts[0] && longer[1..] == parts[1..];
  }

  lemma JoinAfter(parts: seq<Str>, sep: Str)
    requires parts != []
    ensures JoinWith([[]] + parts, sep) == sep + JoinWith(parts, sep)
  {
    assert ([[]] + parts)[1..] == parts;
    assert [] + sep == sep;
  }

  /** Joining undoes splitting, whatever the separator. */
  lemma {:induction false} JoinSplit(s: Str, sep: Str)
    requires sep != []
    ensures JoinWith(SplitOn(s, sep), sep) == s
    decreases |s|
  {
    if s == [] {
    } else if sep <= s {
      JoinSplit(s[|sep|..], sep);
      JoinAfter(SplitOn(s[|sep|..], sep), sep);
      assert s == sep + s[|sep|..];
    } else {
      JoinSplit(s[1..], sep);
      JoinPrepend(s[0], SplitOn(s[1..], sep), sep);
      assert s == [s[0]] + s[1..];
    }
  }

  /** The pieces of a split on one byte do not hold it. */
  lemma {:induction false} SplitIsFree(s: Str, c: Byte)
    ensures AllFree(SplitOn(s, [c]), c)
    decreases |s|
  {
    if s != [] {
      SplitIsFree(s[1..], c);
      assert ([c] <= s) == (s[0] == c);
    }
  }

  /** Splitting a string with none of the separator in it. */
  lemma {:induction false} SplitFree(s: Str, c: Byte)
    requires Free(s, c)
    ensures SplitOn(s, [c]) == [s]
    decreases |s|
  {
    if s != [] {
      assert s[0] in s;
      SplitFree(s[1..], c);
      assert s == [s[0]] + s[1..];
    }
  }

  /** One byte that does not start a separator joins the first piece. */
  lemma SplitByte(b: Byte, s: Str, c: Byte)
    ensures b == c ==> SplitOn([b] + s, [c]) == [[]] + SplitOn(s, [c])
    ensures b != c ==> SplitOn([b] + s, [c]) == [[b] + SplitOn(s, [c])[0]] + SplitOn(s, [c])[1..]
  {
    var t := [b] + s;
    assert t[0] == b && t[1..] == s;
  }

  lemma PrependConcat(b: Byte, x: seq<Str>, y: seq<Str>)
    requires x != []
    ensures [[b] + (x + y)[0]] + (x + y)[1..] == ([[b] + x[0]] + x[1..]) + y
  {
  }

  /** Splitting distributes over a separating byte. */
  lemma {:induction false} SplitConcat(a: Str, c: Byte, b: Str)
    ensures SplitOn(a + [c] + b, [c]) == SplitOn(a, [c]) + SplitOn(b, [c])
    decreases |a|
  {
    hide SplitOn;
    SplitFree([], c);
    if a == [] {
      assert a + [c] + b == [c] + b;
      SplitByte(c, b, c);
    } else {
      var tail := a[1..];
      SplitConcat(tail, c, b);
      assert a + [c] + b == [a[0]] + (tail + [c] + b) && a == [a[0]] + tail;
      SplitByte(a[0], tail + [c] + b, c);
      SplitByte(a[0], tail, c);
      if a[0] == c {
        assert [[]] + (SplitOn(tail, [c]) + SplitOn(b, [c])) == ([[]] + SplitOn(tail, [c])) + SplitOn(b, [c]);
      } else {
        PrependConcat(a[0], SplitOn(tail, [c]), SplitOn(b, [c]));
      }
    }
  }

  /** Splitting undoes joining, when no piece holds the separating byte. */
  lemma {:induction false} SplitJoin(parts: seq<Str>, c: Byte)
    requires parts != [] && AllFree(parts, c)
    ensures SplitOn(JoinWith(parts, [c]), [c]) == parts
  {
    SplitFree(parts[0], c);
    if |parts| == 1 {
      assert parts == [parts[0]];
    } else {
      SplitJoin(parts[1..], c);
      SplitConcat(parts[0], c, JoinWith(parts[1..], [c]));
      assert parts == [parts[0]] + parts[1..];
    }
  }

  /** Joining distributes over concatenation of two non-empty lists. */
  lemma {:induction false} JoinConcat(a: seq<Str>, b: seq<Str>, sep: Str)
    requires a != [] && b != []
    ensures JoinWith(a + b, sep) == JoinWith(a, sep) + sep + JoinWith(b, sep)
  {
    if |a| == 1 {
      assert (a + b)[1..] == b;
    } else {
      JoinConcat(a[1..], b, sep);
      assert (a + b)[1..] == a[1..] + b && (a + b)[0] == a[0];
      var x, y := JoinWith(a[1..], sep), JoinWith(b, sep);
      assert a[0] + sep + (x + sep + y) == (a[0] + sep + x) + sep + y;
    }
  }

  /** The first split point: everything before it is free of the separator. */
  lemma SplitFirstMeans(s: Str, c: Byte)
    ensures SplitFirst(s, [c]) == NotFound <==> Free(s, c)
    ensures SplitFirst(s, [c]).Found? ==>
              var f := SplitFirst(s, [c]);
              s == f.before + [c] + f.after && Free(f.before, c)
  {
    JoinSplit(s, [c]);
    SplitIsFree(s, c);
    if Free(s, c) { SplitFree(s, c); }
  }

  /** A split point with nothing before it is the first. */
  lemma SplitFirstAt(before: Str, c: Byte, after: Str)
    requires Free(before, c)
    ensures SplitFirst(before + [c] + after, [c]) == Found(before, after)
  {
    SplitConcat(before, c, after);
    SplitFree(before, c);
    JoinSplit(after, [c]);
    assert SplitOn(before + [c] + after, [c])[1..] == SplitOn(after, [c]);
  }

  lemma SplitLastMeans(s: Str, c: Byte)
    ensures SplitLast(s, [c]) == NotFound <==> Free(s, c)
    ensures SplitLast(s, [c]).Found? ==>
              var f := SplitLast(s, [c]);
              s == f.before + [c] + f.after && Free(f.after, c)
  {
    JoinSplit(s, [c]);
    SplitIsFree(s, c);
    var parts := SplitOn(s, [c]);
    if |parts| > 1 {
      var init, last := parts[..|parts| - 1], parts[|parts| - 1];
      JoinConcat(init, [last], [c]);
      assert parts == init + [last];
    }
    if Free(s, c) { SplitFree(s, c); }
  }

  lemma SplitLastAt(before: Str, c: Byte, after: Str)
    requires Free(after, c)
    ensures SplitLast(before + [c] + after, [c]) == Found(before, after)
  {
    SplitConcat(before, c, after);
    SplitFree(after, c);
    JoinSplit(before, [c]);
    var parts := SplitOn(before + [c] + after, [c]);
    assert parts[..|parts| - 1] == SplitOn(before, [c]);
  }

  /** The split-based prefix test is the prefix test. */
  lemma StartsWithMeans(s: Str, prefix: Str)
    ensures StartsWith(s, prefix) <==> prefix <= s
  {
    if prefix != [] && s != [] && !(prefix <= s) {
      var rest := SplitOn(s[1..], prefix);
      assert SplitOn(s, prefix)[0] == [s[0]] + rest[0];
    }
  }

  lemma DropPrefixMeans(s: Str, prefix: Str)
    requires prefix != [] && prefix <= s
    ensures DropPrefix(s, prefix) == s[|prefix|..]
  {
    JoinSplit(s[|prefix|..], prefix);
    assert SplitOn(s, prefix)[1..] == SplitOn(s[|prefix|..], prefix);
  }

  /** The split-based suffix test is the suffix test for one byte. */
  lemma EndsWithMeans(s: Str, c: Byte)
    ensures EndsWith(s, [c]) <==> s == [] || s[|s| - 1] == c
  {
    if s != [] {
      var init, last := s[..|s| - 1], s[|s| - 1];
      if last == c {
        SplitConcat(init, c, []);
        assert s == init + [c] + [];
      } else if EndsWith(s, [c]) {
        SplitLastMeans(s, c);
        if Free(s, c) { SplitFree(s, c); }
      }
    }
  }

  // ----- Properties of every byte -----

  ghost predicate Every(s: Str, p: Byte -> bool) {
    forall i :: 0 <= i < |s| ==> p(s[i])
  }

  ghost predicate EveryPiece(parts: seq<Str>, p: Byte -> bool) {
    forall k :: 0 <= k < |parts| ==> Every(parts[k], p)
  }

  ghost predicate EveryOther(s: Str, c: Byte, p: Byte -> bool) {
    forall i :: 0 <= i < |s| ==> s[i] == c || p(s[i])
  }

  lemma EveryCons(b: Byte, s: Str, p: Byte -> bool)
    ensures Every([b] + s, p) <==> p(b) && Every(s, p)
  {
    var t := [b] + s;
    if Every(t, p) {
      assert p(t[0]);
      forall i | 0 <= i < |s| ensures p(s[i]) {
        assert p(t[i + 1]);
      }
    }
  }

  lemma EveryPieceCons(head: Str, rest: seq<Str>, p: Byte -> bool)
    ensures EveryPiece([head] + rest, p) <==> Every(head, p) && EveryPiece(rest, p)
  {
    var parts := [head] + rest;
    if EveryPiece(parts, p) {
      assert Every(parts[0], p);
      forall k | 0 <= k < |rest| ensures Every(rest[k], p) {
        assert Every(parts[k + 1], p);
      }
    }
  }

  lemma EveryOtherCons(b: Byte, s: Str, c: Byte, p: Byte -> bool)
    ensures EveryOther([b] + s, c, p) <==> (b == c || p(b)) && EveryOther(s, c, p)
  {
    var t := [b] + s;
    if EveryOther(t, c, p) {
      assert t[0] == c || p(t[0]);
      forall i | 0 <= i < |s| ensures s[i] == c || p(s[i]) {
        assert t[i + 1] == c || p(t[i + 1]);
      }
    }
  }

  /** What holds of the bytes of the pieces holds of the other bytes of the
      whole, and conversely. */
  lemma {:induction false} SplitEvery(s: Str, c: Byte, p: Byte -> bool)
    ensures EveryOther(s, c, p) <==> EveryPiece(SplitOn(s, [c]), p)
    decreases |s|
  {
    if s != [] {
      var rest := SplitOn(s[1..], [c]);
      SplitEvery(s[1..], c, p);
      assert s == [s[0]] + s[1..];
      EveryOtherCons(s[0], s[1..], c, p);
      assert ([c] <= s) == (s[0] == c);
      if s[0] == c {
        EveryPieceCons([], rest, p);
      } else {
        assert rest == [rest[0]] + rest[1..];
        EveryPieceCons(rest[0], rest[1..], p);
        EveryPieceCons([s[0]] + rest[0], rest[1..], p);
        EveryCons(s[0], rest[0], p);
      }
    }
  }
}
