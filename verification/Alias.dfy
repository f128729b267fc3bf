/** The walk that looks for the confined root under another spelling. */
module Alias {
  import opened Text

  /** Components of a Unix path, `.` and repeated `/` already dropped. */
  datatype Component = RootDir | CurDir | ParentDir | Normal(name: Str)

  type Path = seq<Component>

  predicate IsPlain(c: Component) { c.RootDir? || c.Normal? }

  /** How many components from the front are plain names or the root. */
  function PlainCount(parts: Path): (n: nat)
    ensures n <= |parts|
    ensures forall i :: 0 <= i < n ==> IsPlain(parts[i])
    ensures n < |parts| ==> !IsPlain(parts[n])
  {
    if parts == [] || !IsPlain(parts[0]) then 0 else 1 + PlainCount(parts[1..])
  }

  /** The rest after the prefix that was found, and the lengths of the prefixes
      that were resolved, in order. */
  datatype Walked = Walked(rest: Option<Path>, asked: seq<nat>)

  /** The lazy chain: resolve longer and longer prefixes, stop at the first that
      does not resolve, and take the first that resolves to the root. */
  function WalkFrom(parts: Path, base: Path, canonicalize: Path -> Option<Path>, k: nat, plain: nat): Walked
    requires plain <= |parts|
    decreases plain + 1 - k
  {
    if k > plain then Walked(None, [])
    else
      match canonicalize(parts[..k])
      case None => Walked(None, [k])
      case Some(resolved) =>
        if resolved == base then Walked(Some(parts[k..]), [k])
        else
          var more := WalkFrom(parts, base, canonicalize, k + 1, plain);
          Walked(more.rest, [k] + more.asked)
  }

  function AliasedRestBy(parts: Path, base: Path, canonicalize: Path -> Option<Path>): Walked {
    WalkFrom(parts, base, canonicalize, 1, PlainCount(parts))
  }

  // ----- The exhaustive search -----

  predicate Matches(parts: Path, base: Path, canonicalize: Path -> Option<Path>, k: nat)
    requires k <= |parts|
  {
    canonicalize(parts[..k]) == Some(base)
  }

  predicate Fails(parts: Path, canonicalize: Path -> Option<Path>, k: nat)
    requires k <= |parts|
  {
    canonicalize(parts[..k]) == None
  }

  /** No `.` and no `..` among the first `k` components. */
  predicate AllPlain(parts: Path, k: nat)
    requires k <= |parts|
  {
    forall i :: 0 <= i < k ==> parts[i] == RootDir || parts[i].Normal?
  }

  lemma PlainCountMeans(parts: Path)
    ensures forall k: nat :: k <= |parts| ==> (AllPlain(parts, k) <==> k <= PlainCount(parts))
  {
  }

  /** `k` is the shortest plain prefix that resolves to the root. */
  ghost predicate Shortest(parts: Path, base: Path, canonicalize: Path -> Option<Path>, k: nat) {
    && 1 <= k <= |parts| && AllPlain(parts, k) && Matches(parts, base, canonicalize, k)
    && forall j: nat :: 1 <= j < k ==> !Matches(parts, base, canonicalize, j)
  }

  /** What an exhaustive search over every plain prefix answers. */
  ghost predicate Exhaustive(parts: Path, base: Path, canonicalize: Path -> Option<Path>, rest: Option<Path>) {
    match rest
    case Some(r) => exists k: nat :: Shortest(parts, base, canonicalize, k) && r == parts[k..]
    case None => forall k: nat :: 1 <= k <= |parts| && AllPlain(parts, k) ==> !Matches(parts, base, canonicalize, k)
  }

  /** A path under one that does not resolve does not resolve either. */
  ghost predicate PrefixClosed(parts: Path, canonicalize: Path -> Option<Path>) {
    forall j: nat, k: nat :: 1 <= j <= k <= |parts| && Fails(parts, canonicalize, j) ==> Fails(parts, canonicalize, k)
  }

  /** Some prefix fails before the shortest one that resolves to the root. */
  ghost predicate HiddenMatch(parts: Path, base: Path, canonicalize: Path -> Option<Path>) {
    exists j: nat, k: nat :: 1 <= j < k && Shortest(parts, base, canonicalize, k) && Fails(parts, canonicalize, j)
  }

  /** Where the walk ends: `k`, with every shorter prefix resolved and no match. */
  ghost predicate EndsAt(parts: Path, base: Path, canonicalize: Path -> Option<Path>, k: nat, found: Walked, from: nat) {
    && from <= k <= |parts|
    && (forall j: nat :: from <= j < k ==> !Matches(parts, base, canonicalize, j) && !Fails(parts, canonicalize, j))
    && (if Matches(parts, base, canonicalize, k) then found.rest == Some(parts[k..])
        else Fails(parts, canonicalize, k) && found.rest == None)
    && |found.asked| == k + 1 - from && forall i :: 0 <= i < |found.asked| ==> found.asked[i] == from + i
  }

  lemma {:induction false} WalkMeans(parts: Path, base: Path, canonicalize: Path -> Option<Path>, from: nat, plain: nat)
    returns (k: nat)
    requires plain <= |parts|
    ensures var found := WalkFrom(parts, base, canonicalize, from, plain);
            (k <= plain && EndsAt(parts, base, canonicalize, k, found, from))
            || (found.rest == None
                && (forall j: nat :: from <= j <= plain ==> !Matches(parts, base, canonicalize, j) && !Fails(parts, canonicalize, j))
                && (from <= plain + 1 ==> |found.asked| == plain + 1 - from)
                && forall i :: 0 <= i < |found.asked| ==> found.asked[i] == from + i)
    decreases plain + 1 - from
  {
    k := from;
    if from <= plain && canonicalize(parts[..from]).Some? && canonicalize(parts[..from]) != Some(base) {
      k := WalkMeans(parts, base, canonicalize, from + 1, plain);
    }
  }

  /** A match has a shortest match at or before it. */
  lemma {:induction false} LeastMatch(parts: Path, base: Path, canonicalize: Path -> Option<Path>, k: nat) returns (m: nat)
    requires 1 <= k <= |parts| && AllPlain(parts, k) && Matches(parts, base, canonicalize, k)
    ensures m <= k && Shortest(parts, base, canonicalize, m)
  {
    if j: nat :| 1 <= j < k && Matches(parts, base, canonicalize, j) {
      m := LeastMatch(parts, base, canonicalize, j);
    } else {
      m := k;
    }
  }

  lemma ClosedHidesNothing(parts: Path, base: Path, canonicalize: Path -> Option<Path>)
    requires PrefixClosed(parts, canonicalize)
    ensures !HiddenMatch(parts, base, canonicalize)
  {
    forall j: nat, k: nat | 1 <= j < k && Shortest(parts, base, canonicalize, k)
      ensures !Fails(parts, canonicalize, j)
    {
      assert !Fails(parts, canonicalize, k);
    }
  }

  /** A match answered by the walk is the shortest, and nothing hides it. */
  lemma WalkFound(parts: Path, base: Path, canonicalize: Path -> Option<Path>, k: nat)
    requires 1 <= k <= PlainCount(parts)
    requires EndsAt(parts, base, canonicalize, k, AliasedRestBy(parts, base, canonicalize), 1)
    requires Matches(parts, base, canonicalize, k)
    ensures Shortest(parts, base, canonicalize, k) && !HiddenMatch(parts, base, canonicalize)
  {
    PlainCountMeans(parts);
    forall i: nat, j: nat | 1 <= i < j && Shortest(parts, base, canonicalize, j)
      ensures !Fails(parts, canonicalize, i)
    {
      assert j <= k;
    }
  }

  /** The walk answers what the exhaustive search answers exactly when no
      failing prefix hides the match; in particular always when failure is
      inherited by longer paths. */
  lemma WalkIsExhaustive(parts: Path, base: Path, canonicalize: Path -> Option<Path>)
    ensures Exhaustive(parts, base, canonicalize, AliasedRestBy(parts, base, canonicalize).rest)
            <==> !HiddenMatch(parts, base, canonicalize)
    ensures PrefixClosed(parts, canonicalize) ==> !HiddenMatch(parts, base, canonicalize)
  {
    PlainCountMeans(parts);
    if PrefixClosed(parts, canonicalize) { ClosedHidesNothing(parts, base, canonicalize); }
    var found := AliasedRestBy(parts, base, canonicalize);
    var k := WalkMeans(parts, base, canonicalize, 1, PlainCount(parts));
    if found.rest.Some? {
      WalkFound(parts, base, canonicalize, k);
    } else if m: nat :| 1 <= m <= |parts| && AllPlain(parts, m) && Matches(parts, base, canonicalize, m) {
      var least := LeastMatch(parts, base, canonicalize, m);
      assert k < least && Fails(parts, canonicalize, k);
    }
  }

  /** The prefixes resolved are the first, the second and so on, all of plain
      names, up to the first that matches or fails and none after it. */
  lemma WalkAsksNoMore(parts: Path, base: Path, canonicalize: Path -> Option<Path>)
    ensures var asked := AliasedRestBy(parts, base, canonicalize).asked;
            && |asked| <= |parts| && AllPlain(parts, |asked|)
            && (forall i :: 0 <= i < |asked| ==> asked[i] == i + 1)
            && (forall k: nat :: 1 <= k < |asked| ==>
                  !Matches(parts, base, canonicalize, k) && !Fails(parts, canonicalize, k))
            && (|asked| < |parts| && AllPlain(parts, |asked| + 1) ==>
                  |asked| > 0 && (Matches(parts, base, canonicalize, |asked|) || Fails(parts, canonicalize, |asked|)))
  {
    PlainCountMeans(parts);
    var k := WalkMeans(parts, base, canonicalize, 1, PlainCount(parts));
  }
}
