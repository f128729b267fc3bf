/** Rewriting an absolute path to one relative to the confined root, by the byte
    loops of the code and of the standard library's path components. */
module ConfinedPath {
  import opened Text
  import opened Ascii
  import Alias

  const SLASH_DOT: Str := [SLASH, DOT]

  /** A piece between slashes that names nothing. */
  predicate Skipped(piece: Str) {
    piece == [] || piece == [DOT]
  }

  function Kept(piece: Str): seq<Str> {
    if Skipped(piece) then [] else [piece]
  }

  /** The names among the pieces. */
  function Plain(pieces: seq<Str>): seq<Str> {
    if pieces == [] then [] else Kept(pieces[0]) + Plain(pieces[1..])
  }

  /** The components of a path after the root, as names; `..` is one of them. */
  function Names(path: Str): seq<Str> {
    Plain(SplitOn(path, [SLASH]))
  }

  // ----- Stripping a prefix, as the standard library does -----

  /** What follows the first piece and its slash. */
  function AfterPiece(path: Str): (rest: Str)
    ensures path != [] ==> |rest| < |path|
  {
    var n := IndexOf(path, SLASH);
    if n < |path| then path[n + 1..] else []
  }

  datatype Next = Name(name: Str, rest: Str) | Done

  /** The next component, past pieces that name nothing. */
  function NextName(path: Str): (r: Next)
    ensures r.Name? ==> |r.rest| < |path|
    decreases |path|
  {
    if path == [] then Done
    else
      var piece := path[..IndexOf(path, SLASH)];
      if Skipped(piece) then NextName(AfterPiece(path)) else Name(piece, AfterPiece(path))
  }

  /** What is left of `path` after the components of `prefix`, if it has them. */
  function IterAfter(path: Str, prefix: Str): Option<Str>
    decreases |path|
  {
    match NextName(prefix)
    case Done => Some(path)
    case Name(want, prefixRest) =>
      match NextName(path)
      case Done => None
      case Name(have, rest) => if have == want then IterAfter(rest, prefixRest) else None
  }

  function TrimLeft(path: Str): Str
    decreases |path|
  {
    if path != [] && Skipped(path[..IndexOf(path, SLASH)]) then TrimLeft(AfterPiece(path)) else path
  }

  /** Start of the last piece. */
  function PieceStart(path: Str): (n: nat)
    ensures n <= |path| && Free(path[n..], SLASH) && (n > 0 ==> path[n - 1] == SLASH)
  {
    if path == [] || path[|path| - 1] == SLASH then |path| else PieceStart(path[..|path| - 1])
  }

  function TrimRight(path: Str): Str
    decreases |path|
  {
    if path == [] then path
    else
      var n := PieceStart(path);
      if !Skipped(path[n..]) then path
      else if n == 0 then []
      else TrimRight(path[..n - 1])
  }

  /** `cand` without the components of `base`, both absolute: the slice of
      `cand` that is left, with nothing that names nothing at either end. */
  function StripPrefix(cand: Str, base: Str): Option<Str>
    requires [SLASH] <= cand && [SLASH] <= base
  {
    match IterAfter(cand[1..], base[1..])
    case None => None
    case Some(rest) => Some(TrimRight(TrimLeft(rest)))
  }

  // ----- The code -----

  predicate EndsWithDot(path: Str) {
    |path| >= 2 && path[|path| - 2..] == SLASH_DOT
  }

  predicate EndsWithParent(path: Str) {
    |path| >= 3 && path[|path| - 3..] == [SLASH, DOT, DOT]
  }

  /** The loop of `trailing_spelling`, as a function of its variables. */
  function SpellingFrom(rest: Str, dot: bool, slash: bool): Str
    decreases |rest|
  {
    if rest != [] && rest[|rest| - 1] == SLASH then SpellingFrom(rest[..|rest| - 1], dot, true)
    else if EndsWithDot(rest) then SpellingFrom(rest[..|rest| - 2], true, slash)
    else if dot then SLASH_DOT
    else if slash then [SLASH]
    else []
  }

  function EndRun(pieces: seq<Str>): seq<Str> {
    if pieces == [] || !Skipped(pieces[|pieces| - 1]) then []
    else EndRun(pieces[..|pieces| - 1]) + [pieces[|pieces| - 1]]
  }

  /** The pieces at the end that name nothing, the first piece not counted. */
  function TrailingRun(path: Str): seq<Str> {
    EndRun(SplitOn(path, [SLASH])[1..])
  }

  /** `/.` when a `.` is among them, `/` when there are others, else nothing. */
  function Spelling(run: seq<Str>): Str {
    if [DOT] in run then SLASH_DOT else if run != [] then [SLASH] else []
  }

  /** The pieces that name nothing, and the spellings of a run of them, as texts. */
  lemma Spellings(piece: Str, run: seq<Str>)
    ensures Skipped(piece) <==> piece == [] || piece == Lit(".")
    ensures Spelling(run) == if Lit(".") in run then Lit("/.") else if run != [] then Lit("/") else []
  {
    assert Lit(".") == [DOT] && Lit("/") == [SLASH] && Lit("/.") == SLASH_DOT;
  }

  function Trailing(path: Str): Str {
    Spelling(TrailingRun(path))
  }

  datatype PathError = OutsidePreopen | BaseUnresolved

  /** The text the standard library collects from components without a root. */
  function Collect(names: seq<Str>): Str {
    JoinWith(names, [SLASH])
  }

  function AsComponent(name: Str): Alias.Component {
    if name == [DOT, DOT] then Alias.ParentDir else Alias.Normal(name)
  }

  function AsComponents(names: seq<Str>): (p: Alias.Path)
    ensures |p| == |names|
    ensures forall k :: 0 <= k < |names| ==> p[k] == AsComponent(names[k])
  {
    if names == [] then [] else [AsComponent(names[0])] + AsComponents(names[1..])
  }

  /** The components of an absolute path. */
  function ComponentsOf(path: Str): Alias.Path {
    [Alias.RootDir] + AsComponents(Names(path))
  }

  function ComponentText(c: Alias.Component): Str {
    match c
    case RootDir => []
    case CurDir => [DOT]
    case ParentDir => [DOT, DOT]
    case Normal(name) => name
  }

  function ComponentTexts(p: Alias.Path): (names: seq<Str>)
    ensures |names| == |p|
    ensures forall k :: 0 <= k < |p| ==> names[k] == ComponentText(p[k])
  {
    if p == [] then [] else [ComponentText(p[0])] + ComponentTexts(p[1..])
  }

  /** Text collected from components that start at the root. */
  function RootedText(p: Alias.Path): Str {
    if p == [] then [] else [SLASH] + Collect(ComponentTexts(p[1..]))
  }

  /** Resolution by text as resolution by components, which is how paths are
      compared. */
  function ByComponents(canonicalize: Str -> Option<Str>): Alias.Path -> Option<Alias.Path> {
    (p: Alias.Path) =>
      match canonicalize(RootedText(p))
      case None => None
      case Some(t) => Some(ComponentsOf(t))
  }

  /** What follows a prefix that is the root under another spelling. */
  function Aliased(cand: Str, resolvedBase: Str, canonicalize: Str -> Option<Str>): Option<seq<Str>> {
    match Alias.AliasedRestBy(ComponentsOf(cand), ComponentsOf(resolvedBase), ByComponents(canonicalize)).rest
    case None => None
    case Some(rest) => Some(ComponentTexts(rest))
  }

  /** Resolving a path answers an absolute one, or fails. */
  ghost predicate AnswersAbsolute(canonicalize: Str -> Option<Str>) {
    forall p :: canonicalize(p).Some? ==> [SLASH] <= canonicalize(p).value
  }

  /** The path of `cand` beneath the root, before its trailing spelling. */
  function Beneath(base: Str, cand: Str, canonicalize: Str -> Option<Str>): Result<Str, PathError>
    requires [SLASH] <= cand && [SLASH] <= base && AnswersAbsolute(canonicalize)
  {
    match StripPrefix(cand, base)
    case Some(r) => Ok(r)
    case None =>
      match canonicalize(base)
      case None => Err(BaseUnresolved)
      case Some(resolved) =>
        match StripPrefix(cand, resolved)
        case Some(r) => Ok(r)
        case None =>
          match Aliased(cand, resolved, canonicalize)
          case Some(names) => Ok(Collect(names))
          case None => Err(OutsidePreopen)
  }

  function RelativeToRoot(base: Str, cand: Str, canonicalize: Str -> Option<Str>): Result<Str, PathError>
    requires [SLASH] <= cand && [SLASH] <= base && AnswersAbsolute(canonicalize)
  {
    var rel :- Beneath(base, cand, canonicalize);
    Ok((if rel == [] then [DOT] else rel) + Trailing(cand))
  }

  predicate NamesDirectory(path: Str) {
    (path != [] && path[|path| - 1] == SLASH) || EndsWithDot(path)
  }

  /** `root` joined with a relative path. */
  function Join(root: Str, relative: Str): Str {
    if root != [] && root[|root| - 1] == SLASH then root + relative else root + [SLASH] + relative
  }

  // ----- Pieces -----

  lemma PlainCons(piece: Str, pieces: seq<Str>)
    ensures Plain([piece] + pieces) == Kept(piece) + Plain(pieces)
  {
    assert ([piece] + pieces)[1..] == pieces;
  }

  lemma Associates(x: seq<Str>, y: seq<Str>, z: seq<Str>)
    ensures (x + y) + z == x + (y + z)
  {
  }

  lemma {:induction false} PlainConcat(a: seq<Str>, b: seq<Str>)
    ensures Plain(a + b) == Plain(a) + Plain(b)
  {
    hide Kept;
    if a == [] {
      assert a + b == b;
    } else {
      hide Plain;
      var tail := a[1..];
      PlainConcat(tail, b);
      assert a == [a[0]] + tail;
      Associates([a[0]], tail, b);
      PlainCons(a[0], tail + b);
      PlainCons(a[0], tail);
      Associates(Kept(a[0]), Plain(tail), Plain(b));
    }
  }

  lemma NamesConcat(a: Str, b: Str)
    ensures Names(a + [SLASH] + b) == Names(a) + Names(b)
  {
    SplitConcat(a, SLASH, b);
    PlainConcat(SplitOn(a, [SLASH]), SplitOn(b, [SLASH]));
  }

  lemma NamesOfPiece(piece: Str)
    requires Free(piece, SLASH)
    ensures Names(piece) == Kept(piece)
  {
    SplitFree(piece, SLASH);
    assert Plain([piece]) == Kept(piece) + Plain([]);
  }

  lemma FirstPieceMeans(path: Str)
    ensures var piece := path[..IndexOf(path, SLASH)];
            Names(path) == Kept(piece) + Names(AfterPiece(path))
  {
    hide Names, Free;
    var n := IndexOf(path, SLASH);
    NamesOfPiece(path[..n]);
    NamesOfPiece([]);
    if n < |path| {
      assert path == path[..n] + [SLASH] + path[n + 1..];
      NamesConcat(path[..n], path[n + 1..]);
    } else {
      assert path[..n] == path;
    }
  }

  lemma LastPieceMeans(path: Str)
    ensures var n := PieceStart(path);
            var piece := path[n..];
            Names(path) == (if n == 0 then [] else Names(path[..n - 1])) + Kept(piece)
  {
    hide Names, Free;
    var n := PieceStart(path);
    NamesOfPiece(path[n..]);
    if n > 0 {
      assert path == path[..n - 1] + [SLASH] + path[n..];
      NamesConcat(path[..n - 1], path[n..]);
    } else {
      assert path[n..] == path;
    }
  }

  lemma {:induction false} NextNameMeans(path: Str)
    ensures match NextName(path)
            case Done => Names(path) == []
            case Name(name, rest) => Names(path) == [name] + Names(rest)
    decreases |path|
  {
    FirstPieceMeans(path);
    if path == [] {
      NamesOfPiece([]);
    } else if Skipped(path[..IndexOf(path, SLASH)]) {
      NextNameMeans(AfterPiece(path));
    }
  }

  lemma PrefixCons(x: Str, a: seq<Str>, y: Str, b: seq<Str>)
    ensures [x] + a <= [y] + b <==> x == y && a <= b
  {
    var s, t := [x] + a, [y] + b;
    assert s[0] == x && t[0] == y && s[1..] == a && t[1..] == b;
    if s <= t { assert t[..|s|][1..] == b[..|a|]; }
  }

  /** Stripping succeeds exactly when the prefix's names come first, and leaves
      the names after them. */
  lemma {:induction false} IterAfterMeans(path: Str, prefix: Str)
    ensures IterAfter(path, prefix).Some? <==> Names(prefix) <= Names(path)
    ensures IterAfter(path, prefix).Some? ==> Names(path) == Names(prefix) + Names(IterAfter(path, prefix).value)
    decreases |path|
  {
    hide Names, NextName;
    NextNameMeans(prefix);
    NextNameMeans(path);
    if NextName(prefix).Done? {
      assert Names(path) == [] + Names(path);
    } else if NextName(path).Name? {
      var p, q := NextName(prefix), NextName(path);
      PrefixCons(p.name, Names(p.rest), q.name, Names(q.rest));
      if p.name == q.name {
        IterAfterMeans(q.rest, p.rest);
        if IterAfter(path, prefix).Some? {
          assert [p.name] + (Names(p.rest) + Names(IterAfter(q.rest, p.rest).value)) == Names(path);
        }
      }
    }
  }

  lemma {:induction false} TrimLeftMeans(path: Str)
    ensures Names(TrimLeft(path)) == Names(path)
    ensures TrimLeft(path) != [] ==> TrimLeft(path)[0] != SLASH && Names(path) != []
    decreases |path|
  {
    FirstPieceMeans(path);
    if path != [] {
      if Skipped(path[..IndexOf(path, SLASH)]) { TrimLeftMeans(AfterPiece(path)); }
    } else {
      NamesOfPiece([]);
    }
  }

  /** The last piece names something. */
  predicate EndsInName(path: Str) {
    !Skipped(path[PieceStart(path)..])
  }

  lemma {:induction false} TrimRightMeans(path: Str)
    ensures Names(TrimRight(path)) == Names(path) && TrimRight(path) <= path
    ensures TrimRight(path) == [] <==> Names(path) == []
    ensures TrimRight(path) != [] ==> EndsInName(TrimRight(path))
    decreases |path|
  {
    hide Names, Free;
    LastPieceMeans(path);
    NamesOfPiece([]);
    if path != [] {
      var n := PieceStart(path);
      if Skipped(path[n..]) && n > 0 { TrimRightMeans(path[..n - 1]); }
    }
  }

  lemma RootNames(path: Str)
    requires [SLASH] <= path
    ensures Names(path) == Names(path[1..])
  {
    FirstPieceMeans(path);
    assert path[..IndexOf(path, SLASH)] == [];
  }

  /** The slice that is left: its names are the ones after the prefix's, it is
      not rooted, and it ends in a name unless it is empty. */
  lemma StripPrefixMeans(cand: Str, base: Str)
    requires [SLASH] <= cand && [SLASH] <= base
    ensures StripPrefix(cand, base).Some? <==> Names(base) <= Names(cand)
    ensures StripPrefix(cand, base).Some? ==>
              var r := StripPrefix(cand, base).value;
              && Names(cand) == Names(base) + Names(r)
              && (r == [] <==> Names(cand) == Names(base))
              && (r != [] ==> r[0] != SLASH && EndsInName(r))
  {
    RootNames(cand);
    RootNames(base);
    IterAfterMeans(cand[1..], base[1..]);
    if StripPrefix(cand, base).Some? {
      var rest := IterAfter(cand[1..], base[1..]).value;
      TrimLeftMeans(rest);
      TrimRightMeans(TrimLeft(rest));
      var r := StripPrefix(cand, base).value;
      assert Names(cand) == Names(base) + Names(r);
      if Names(cand) == Names(base) { assert |Names(r)| == 0; }
    }
  }

  // ----- The trailing spelling -----

  lemma RunOfPiece(a: Str, piece: Str)
    requires Free(piece, SLASH)
    ensures TrailingRun(a + [SLASH] + piece) == if Skipped(piece) then TrailingRun(a) + [piece] else []
  {
    SplitConcat(a, SLASH, piece);
    SplitFree(piece, SLASH);
    var pieces, init := SplitOn(a + [SLASH] + piece, [SLASH]), SplitOn(a, [SLASH]);
    assert pieces[1..] == init[1..] + [piece];
    assert pieces[1..][..|pieces[1..]| - 1] == init[1..];
  }

  lemma NoRun(path: Str)
    requires Free(path, SLASH)
    ensures TrailingRun(path) == []
  {
    SplitFree(path, SLASH);
  }

  lemma NoLeadingSlash(path: Str)
    requires Free(path, SLASH)
    ensures path != [] ==> path[|path| - 1] != SLASH
    ensures !EndsWithDot(path) && !EndsWithParent(path)
  {
    if path != [] { assert path[|path| - 1] in path; }
    if |path| >= 2 {
      assert path[|path| - 2] in path;
      assert path[|path| - 2..][0] == path[|path| - 2];
    }
    if |path| >= 3 {
      assert path[|path| - 3] in path;
      assert path[|path| - 3..][0] == path[|path| - 3];
    }
  }

  /** The two suffix tests look at the last piece. */
  lemma LastTwo(a: Str, piece: Str)
    requires Free(piece, SLASH)
    ensures var path := a + [SLASH] + piece;
            && (path[|path| - 1] == SLASH <==> piece == [])
            && (EndsWithDot(path) <==> piece == [DOT])
  {
    var path := a + [SLASH] + piece;
    if |piece| >= 1 { assert path[|path| - 1] == piece[|piece| - 1] && piece[|piece| - 1] in piece; }
    if |piece| >= 2 { assert path[|path| - 2] == piece[|piece| - 2] && piece[|piece| - 2] in piece; }
    if |piece| == 1 { assert path[|path| - 2..] == [SLASH] + piece; }
    if |piece| == 0 && |path| >= 2 { assert path[|path| - 2..][1] == SLASH; }
  }

  /** The loop collects the run from the end. */
  lemma {:induction false} SpellingMeans(path: Str, dot: bool, slash: bool)
    ensures SpellingFrom(path, dot, slash) ==
            if dot || [DOT] in TrailingRun(path) then SLASH_DOT
            else if slash || TrailingRun(path) != [] then [SLASH]
            else []
    decreases |path|
  {
    hide TrailingRun, EndsWithDot;
    var n := PieceStart(path);
    var piece := path[n..];
    if n == 0 {
      assert piece == path;
      NoRun(path);
      NoLeadingSlash(path);
    } else {
      var a := path[..n - 1];
      assert path == a + [SLASH] + piece;
      RunOfPiece(a, piece);
      LastTwo(a, piece);
      if piece == [] {
        assert path[..|path| - 1] == a;
        SpellingMeans(a, dot, true);
      } else if piece == [DOT] {
        assert |path| >= 2 && path[..|path| - 2] == a;
        SpellingMeans(a, true, slash);
      }
    }
  }

  /** What rebuilding a path from its components drops from its end. */
  method TrailingSpelling(path: Str) returns (r: Str)
    ensures r == Trailing(path)
  {
    SpellingMeans(path, false, false);
    var rest, dot, slash := path, false, false;
    while true
      invariant SpellingFrom(rest, dot, slash) == Trailing(path)
      decreases |rest|
    {
      if rest != [] && rest[|rest| - 1] == SLASH {
        slash := true;
        rest := rest[..|rest| - 1];
      } else if EndsWithDot(rest) {
        dot := true;
        rest := rest[..|rest| - 2];
      } else {
        break;
      }
    }
    r := if dot then SLASH_DOT else if slash then [SLASH] else [];
  }

  /** A path names a directory exactly when it has a trailing spelling. */
  lemma NamesDirectoryMeans(path: Str)
    ensures NamesDirectory(path) <==> Trailing(path) != []
  {
    var n := PieceStart(path);
    if n == 0 {
      assert path[n..] == path;
      SplitFree(path, SLASH);
      NoLeadingSlash(path);
    } else {
      assert path == path[..n - 1] + [SLASH] + path[n..];
      RunOfPiece(path[..n - 1], path[n..]);
      LastTwo(path[..n - 1], path[n..]);
    }
  }

  lemma NameHasNoRun(core: Str)
    requires EndsInName(core)
    ensures TrailingRun(core) == []
  {
    var n := PieceStart(core);
    if n == 0 {
      assert core[n..] == core;
      SplitFree(core, SLASH);
    } else {
      assert core == core[..n - 1] + [SLASH] + core[n..];
      RunOfPiece(core[..n - 1], core[n..]);
    }
  }

  predicate IsSpelling(t: Str) {
    t == [] || t == [SLASH] || t == SLASH_DOT
  }

  /** Adding a spelling to a path without one gives it that spelling and no
      name. */
  lemma AddSpelling(core: Str, t: Str)
    requires IsSpelling(t)
    ensures TrailingRun(core) == [] ==> Trailing(core + t) == t
    ensures [DOT] in TrailingRun(core) ==> Trailing(core + t) == SLASH_DOT
    ensures Names(core + t) == Names(core)
  {
    hide Names, TrailingRun;
    NamesOfPiece([]);
    NamesOfPiece([DOT]);
    if t == [SLASH] {
      RunOfPiece(core, []);
      NamesConcat(core, []);
      assert core + t == core + [SLASH] + [];
    } else if t == SLASH_DOT {
      RunOfPiece(core, [DOT]);
      NamesConcat(core, [DOT]);
      assert core + t == core + [SLASH] + [DOT];
    } else {
      assert core + t == core;
    }
  }

  // ----- The rewritten path -----

  /** Names the component loop can produce. */
  predicate ProperNames(names: seq<Str>) {
    forall k :: 0 <= k < |names| ==> Free(names[k], SLASH) && !Skipped(names[k])
  }

  lemma {:induction false} PlainOfProper(names: seq<Str>)
    requires ProperNames(names)
    ensures Plain(names) == names
  {
    if names != [] { PlainOfProper(names[1..]); }
  }

  lemma CollectNames(names: seq<Str>)
    requires ProperNames(names) && names != []
    ensures Names(Collect(names)) == names
  {
    SplitJoin(names, SLASH);
    PlainOfProper(names);
  }

  lemma {:induction false} StartAlone(last: Str)
    requires Free(last, SLASH)
    ensures PieceStart(last) == 0 && last[0..] == last
  {
    if last != [] {
      assert last[|last| - 1] in last;
      StartAlone(last[..|last| - 1]);
    }
  }

  lemma {:induction false} StartOfLast(a: Str, last: Str)
    requires Free(last, SLASH)
    ensures PieceStart(a + [SLASH] + last) == |a| + 1 && (a + [SLASH] + last)[|a| + 1..] == last
    decreases |last|
  {
    var path := a + [SLASH] + last;
    if last != [] {
      assert last[|last| - 1] in last;
      StartOfLast(a, last[..|last| - 1]);
      assert path[..|path| - 1] == a + [SLASH] + last[..|last| - 1];
    }
  }

  lemma CollectEnds(names: seq<Str>)
    requires ProperNames(names) && names != []
    ensures EndsInName(Collect(names))
  {
    var init, last := names[..|names| - 1], names[|names| - 1];
    assert names == init + [last];
    if init == [] {
      StartAlone(last);
    } else {
      JoinConcat(init, [last], [SLASH]);
      StartOfLast(JoinWith(init, [SLASH]), last);
    }
  }

  lemma CollectStarts(names: seq<Str>)
    requires ProperNames(names) && names != []
    ensures Collect(names) != [] && Collect(names)[0] != SLASH
  {
    assert !Skipped(names[0]) && Free(names[0], SLASH) && names[0][0] in names[0];
  }

  lemma CollectMeans(names: seq<Str>)
    requires ProperNames(names)
    ensures Collect(names) == [] <==> names == []
    ensures names != [] ==> Collect(names)[0] != SLASH && EndsInName(Collect(names)) && Names(Collect(names)) == names
  {
    if names != [] {
      CollectNames(names);
      CollectEnds(names);
      CollectStarts(names);
    }
  }

  /** What every branch puts before the trailing spelling: the root itself, or
      a relative path that ends in a name. */
  predicate Core(core: Str) {
    core == [DOT] || (core != [] && core[0] != SLASH && EndsInName(core))
  }

  lemma CoreSpelling(core: Str, t: Str)
    requires Core(core) && IsSpelling(t)
    ensures core + t != [] && (core + t)[0] != SLASH
    ensures Trailing(core + t) == t && (NamesDirectory(core + t) <==> t != [])
    ensures Names(core + t) == Names(core)
  {
    if core == [DOT] {
      SplitFree(core, SLASH);
    } else {
      NameHasNoRun(core);
    }
    AddSpelling(core, t);
    NamesDirectoryMeans(core + t);
  }

  lemma {:induction false} NamesAreProper(path: Str)
    ensures ProperNames(Names(path))
    decreases |path|
  {
    FirstPieceMeans(path);
    if path == [] {
      NamesOfPiece([]);
    } else {
      NamesAreProper(AfterPiece(path));
    }
  }

  lemma TextOfComponent(name: Str)
    ensures ComponentText(AsComponent(name)) == name
  {
  }

  lemma TextsOfComponents(names: seq<Str>, k: nat)
    requires k <= |names|
    ensures ComponentTexts(AsComponents(names)[k..]) == names[k..]
  {
    hide *;
    var texts, rest := ComponentTexts(AsComponents(names)[k..]), names[k..];
    forall i | 0 <= i < |rest| ensures texts[i] == rest[i] {
      TextOfComponent(names[k + i]);
    }
  }

  lemma TailIsProper(names: seq<Str>, k: nat)
    requires k <= |names| && ProperNames(names)
    ensures ProperNames(names[k..])
  {
  }

  // ----- The root under another spelling, over texts -----

  /** An absolute text of these names, one slash before each and none doubled. */
  predicate Spells(text: Str, names: seq<Str>) {
    && text != [] && text[0] == '/' as int
    && (if names == [] then |text| == 1 else SplitOn(text[1..], Lit("/")) == names)
  }

  /** `text` resolves to the place `base` names. */
  predicate ResolvesTo(canonicalize: Str -> Option<Str>, text: Str, base: Str) {
    match canonicalize(text)
    case None => false
    case Some(resolved) => resolved != [] && resolved[0] == '/' as int && Names(resolved) == Names(base)
  }

  /** The candidate's first `k` names, none of them `..`, spell a path that
      resolves to the root, and every shorter one resolves to another place. */
  ghost predicate AliasFound(cand: Str, base: Str, canonicalize: Str -> Option<Str>, k: nat) {
    && k <= |Names(cand)|
    && (forall i :: 0 <= i < k ==> Names(cand)[i] != Lit(".."))
    && (forall text :: Spells(text, Names(cand)[..k]) ==> ResolvesTo(canonicalize, text, base))
    && (forall j: nat, text :: j < k && Spells(text, Names(cand)[..j]) ==>
          canonicalize(text).Some? && !ResolvesTo(canonicalize, text, base))
  }

  function PrefixText(names: seq<Str>): Str {
    [SLASH] + JoinWith(names, [SLASH])
  }

  /** Exactly one text spells proper names. */
  lemma SpelledOnce(names: seq<Str>)
    requires ProperNames(names)
    ensures Spells(PrefixText(names), names)
    ensures forall text :: Spells(text, names) ==> text == PrefixText(names)
  {
    hide SplitOn;
    assert Lit("/") == [SLASH];
    var text := PrefixText(names);
    assert text[1..] == JoinWith(names, [SLASH]);
    if names != [] { SplitJoin(names, SLASH); }
    forall other | Spells(other, names) ensures other == text {
      assert other == [SLASH] + other[1..];
      if names == [] { assert other[1..] == []; } else { JoinSplit(other[1..], [SLASH]); }
    }
  }

  lemma PrefixRooted(cand: Str, k: nat)
    requires k <= |Names(cand)|
    ensures k + 1 <= |ComponentsOf(cand)| && RootedText(ComponentsOf(cand)[..k + 1]) == PrefixText(Names(cand)[..k])
  {
    hide Names;
    var parts, names := ComponentsOf(cand)[..k + 1], Names(cand);
    var texts := ComponentTexts(parts[1..]);
    forall i | 0 <= i < k ensures texts[i] == names[i] {
      TextOfComponent(names[i]);
    }
    assert texts == names[..k];
  }

  lemma ComponentsTell(a: Str, b: Str)
    ensures ComponentsOf(a) == ComponentsOf(b) <==> Names(a) == Names(b)
  {
    hide Names, AsComponents;
    if ComponentsOf(a) == ComponentsOf(b) {
      var p, q := AsComponents(Names(a)), AsComponents(Names(b));
      assert p == ComponentsOf(a)[1..] && q == ComponentsOf(b)[1..];
      forall i | 0 <= i < |Names(a)| ensures Names(a)[i] == Names(b)[i] {
        assert p[i] == AsComponent(Names(a)[i]) && q[i] == AsComponent(Names(b)[i]);
      }
    }
  }

  /** What the walk asks about a prefix, as what the resolver says of its text. */
  lemma PrefixAsked(cand: Str, base: Str, canonicalize: Str -> Option<Str>, k: nat)
    requires k <= |Names(cand)| && AnswersAbsolute(canonicalize)
    ensures var parts, canon, text := ComponentsOf(cand), ByComponents(canonicalize), PrefixText(Names(cand)[..k]);
            && k + 1 <= |parts|
            && (Alias.Fails(parts, canon, k + 1) <==> canonicalize(text).None?)
            && (Alias.Matches(parts, ComponentsOf(base), canon, k + 1) <==> ResolvesTo(canonicalize, text, base))
  {
    hide Names, RootedText, ComponentsOf, PrefixText;
    PrefixRooted(cand, k);
    var text := PrefixText(Names(cand)[..k]);
    if canonicalize(text).Some? { ComponentsTell(canonicalize(text).value, base); }
  }

  lemma PlainPrefix(cand: Str, k: nat)
    requires k <= |Names(cand)|
    ensures k + 1 <= |ComponentsOf(cand)|
    ensures Alias.AllPlain(ComponentsOf(cand), k + 1) <==> forall i :: 0 <= i < k ==> Names(cand)[i] != Lit("..")
  {
    hide Names, AsComponents;
    assert Lit("..") == [DOT, DOT];
    var parts, names := ComponentsOf(cand), Names(cand);
    assert forall i :: 0 <= i < |names| ==> parts[i + 1] == AsComponent(names[i]);
    if Alias.AllPlain(parts, k + 1) {
      forall i | 0 <= i < k ensures names[i] != [DOT, DOT] {
        assert parts[i + 1] == AsComponent(names[i]);
      }
    }
  }

  lemma HeadIsProper(names: seq<Str>, k: nat)
    requires k <= |names| && ProperNames(names)
    ensures ProperNames(names[..k])
  {
  }

  /** The prefix texts are the only texts asked about. */
  lemma FoundByText(cand: Str, base: Str, canonicalize: Str -> Option<Str>, k: nat)
    requires k <= |Names(cand)| && AnswersAbsolute(canonicalize)
    ensures var parts, canon := ComponentsOf(cand), ByComponents(canonicalize);
            && k + 1 <= |parts|
            && (AliasFound(cand, base, canonicalize, k) <==>
                  && Alias.AllPlain(parts, k + 1) && Alias.Matches(parts, ComponentsOf(base), canon, k + 1)
                  && forall j: nat :: 1 <= j < k + 1 ==>
                       !Alias.Matches(parts, ComponentsOf(base), canon, j) && !Alias.Fails(parts, canon, j))
  {
    hide Names, ComponentsOf, ByComponents, PrefixText, Spells, ResolvesTo, ProperNames, Alias.AllPlain, Alias.Matches, Alias.Fails;
    NamesAreProper(cand);
    PlainPrefix(cand, k);
    forall j: nat | j <= k
      ensures var text := PrefixText(Names(cand)[..j]);
              && j + 1 <= |ComponentsOf(cand)|
              && Spells(text, Names(cand)[..j])
              && (forall other :: Spells(other, Names(cand)[..j]) ==> other == text)
              && (Alias.Fails(ComponentsOf(cand), ByComponents(canonicalize), j + 1) <==> canonicalize(text).None?)
              && (Alias.Matches(ComponentsOf(cand), ComponentsOf(base), ByComponents(canonicalize), j + 1) <==>
                    ResolvesTo(canonicalize, text, base))
    {
      HeadIsProper(Names(cand), j);
      SpelledOnce(Names(cand)[..j]);
      PrefixAsked(cand, base, canonicalize, j);
    }
    var parts, canon := ComponentsOf(cand), ByComponents(canonicalize);
    if AliasFound(cand, base, canonicalize, k) {
      forall j: nat | 1 <= j < k + 1
        ensures !Alias.Matches(parts, ComponentsOf(base), canon, j) && !Alias.Fails(parts, canon, j)
      {
        var text := PrefixText(Names(cand)[..j - 1]);
        assert Spells(text, Names(cand)[..j - 1]);
        assert (j - 1) + 1 == j;
      }
      assert Spells(PrefixText(Names(cand)[..k]), Names(cand)[..k]);
    } else if Alias.AllPlain(parts, k + 1) && Alias.Matches(parts, ComponentsOf(base), canon, k + 1) {
      if j: nat, text :| j < k && Spells(text, Names(cand)[..j])
                         && (canonicalize(text).None? || ResolvesTo(canonicalize, text, base)) {
        assert Alias.Matches(parts, ComponentsOf(base), canon, j + 1) || Alias.Fails(parts, canon, j + 1);
      }
    }
  }

  lemma FoundIsShort(cand: Str, base: Str, canonicalize: Str -> Option<Str>, n: nat)
    requires n > |Names(cand)|
    ensures !AliasFound(cand, base, canonicalize, n)
  {
  }

  /** An aliased rest is the candidate's names after the shortest prefix that
      resolves to the root with every shorter one resolving elsewhere, and there
      is none when no prefix is such. */
  lemma AliasedMeans(cand: Str, base: Str, canonicalize: Str -> Option<Str>) returns (k: nat)
    requires AnswersAbsolute(canonicalize)
    ensures Aliased(cand, base, canonicalize).Some? ==>
              && AliasFound(cand, base, canonicalize, k) && k <= |Names(cand)|
              && Aliased(cand, base, canonicalize) == Some(Names(cand)[k..]) && ProperNames(Names(cand)[k..])
    ensures Aliased(cand, base, canonicalize).None? ==> forall n: nat :: !AliasFound(cand, base, canonicalize, n)
  {
    hide Names, ByComponents, ComponentTexts, AsComponents, ProperNames, AliasFound, Alias.Matches, Alias.Fails, Alias.AllPlain;
    var parts, root, canon := ComponentsOf(cand), ComponentsOf(base), ByComponents(canonicalize);
    Alias.PlainCountMeans(parts);
    var m := Alias.WalkMeans(parts, root, canon, 1, Alias.PlainCount(parts));
    k := 0;
    if Aliased(cand, base, canonicalize).Some? {
      k := m - 1;
      FoundByText(cand, base, canonicalize, k);
      assert parts[m..] == AsComponents(Names(cand))[k..];
      TextsOfComponents(Names(cand), k);
      NamesAreProper(cand);
      TailIsProper(Names(cand), k);
    } else {
      forall n: nat ensures !AliasFound(cand, base, canonicalize, n) {
        if n <= |Names(cand)| { FoundByText(cand, base, canonicalize, n); } else { FoundIsShort(cand, base, canonicalize, n); }
      }
    }
  }

  lemma EmptyNames(names: seq<Str>)
    requires names == []
    ensures Names(Collect(names)) == names
  {
    NamesOfPiece([]);
  }

  /** The components of the root as the code looks for it: first as spelled,
      then resolved, then under the shortest plain prefix of the candidate that
      resolves to it; and exactly when there is none of them. */
  lemma BeneathBranches(base: Str, cand: Str, canonicalize: Str -> Option<Str>)
    requires [SLASH] <= cand && [SLASH] <= base && AnswersAbsolute(canonicalize)
    ensures var r := Beneath(base, cand, canonicalize);
            if Names(base) <= Names(cand) then r.Ok? && Names(r.value) == Names(cand)[|Names(base)|..]
            else
              match canonicalize(base)
              case None => r == Err(BaseUnresolved)
              case Some(resolved) =>
                if Names(resolved) <= Names(cand) then r.Ok? && Names(r.value) == Names(cand)[|Names(resolved)|..]
                else if r.Ok? then
                  exists k: nat :: AliasFound(cand, resolved, canonicalize, k) && Names(r.value) == Names(cand)[k..]
                else r == Err(OutsidePreopen) && forall k: nat :: !AliasFound(cand, resolved, canonicalize, k)
  {
    hide Names, AliasFound;
    StripPrefixMeans(cand, base);
    if StripPrefix(cand, base).None? && canonicalize(base).Some? {
      var resolved := canonicalize(base).value;
      StripPrefixMeans(cand, resolved);
      if StripPrefix(cand, resolved).None? {
        var k := AliasedMeans(cand, resolved, canonicalize);
        if Aliased(cand, resolved, canonicalize).Some? {
          CollectMeans(Names(cand)[k..]);
          if k == |Names(cand)| { EmptyNames(Names(cand)[k..]); }
        }
      }
    }
  }

  /** The root the code finds, and how many of the candidate's components spell
      it: the root as given, else resolved, else under another spelling. */
  ghost predicate FoundRoot(base: Str, cand: Str, canonicalize: Str -> Option<Str>, root: Str, k: nat) {
    if Names(base) <= Names(cand) then root == base && k == |Names(base)|
    else
      && canonicalize(base) == Some(root)
      && if Names(root) <= Names(cand) then k == |Names(root)|
         else AliasFound(cand, root, canonicalize, k)
  }

  /** What is found beneath the root, with where it starts in the candidate. */
  lemma FoundBeneath(base: Str, cand: Str, canonicalize: Str -> Option<Str>) returns (root: Str, k: nat)
    requires [SLASH] <= cand && [SLASH] <= base && AnswersAbsolute(canonicalize)
    requires Beneath(base, cand, canonicalize).Ok?
    ensures FoundRoot(base, cand, canonicalize, root, k) && root != [] && k <= |Names(cand)|
    ensures var rel := Beneath(base, cand, canonicalize).value;
            && Names(rel) == Names(cand)[k..] && (rel == [] <==> k == |Names(cand)|)
            && (rel != [] ==> rel[0] != SLASH && EndsInName(rel))
  {
    hide Names, Aliased, AliasFound, StripPrefix, EndsInName;
    StripPrefixMeans(cand, base);
    NamesOfPiece([]);
    root, k := base, |Names(base)|;
    if StripPrefix(cand, base).None? {
      root := canonicalize(base).value;
      k := |Names(root)|;
      StripPrefixMeans(cand, root);
      if StripPrefix(cand, root).None? {
        k := AliasedMeans(cand, root, canonicalize);
        CollectMeans(Names(cand)[k..]);
      }
    }
  }

  /** The rewriting succeeds exactly when the candidate is found beneath the root.
      The answer is never empty and never absolute, its components are the last
      ones of the candidate, and it has the candidate's own trailing spelling,
      so it names a directory exactly when the candidate does. */
  lemma RelativeIsRelative(base: Str, cand: Str, canonicalize: Str -> Option<Str>)
    requires [SLASH] <= cand && [SLASH] <= base && AnswersAbsolute(canonicalize)
    ensures var r, beneath := RelativeToRoot(base, cand, canonicalize), Beneath(base, cand, canonicalize);
            && (r.Ok? <==> beneath.Ok?) && (r.Err? ==> r.error == beneath.error)
            && (r.Ok? ==>
                  && r.value != [] && r.value[0] != SLASH
                  && (exists k :: 0 <= k <= |Names(cand)| && Names(r.value) == Names(cand)[k..])
                  && Trailing(r.value) == Trailing(cand)
                  && (NamesDirectory(r.value) <==> NamesDirectory(cand)))
  {
    hide Beneath, Names, NamesDirectory, FoundRoot;
    NamesDirectoryMeans(cand);
    var rel := Beneath(base, cand, canonicalize);
    if rel.Ok? {
      var root, k := FoundBeneath(base, cand, canonicalize);
      var core := if rel.value == [] then [DOT] else rel.value;
      CoreSpelling(core, Trailing(cand));
      if rel.value == [] {
        NamesOfPiece([DOT]);
        assert Names(cand)[|Names(cand)|..] == [];
      }
    }
  }

  /** Joining puts one slash between a root and a relative path. */
  lemma JoinText(root: Str, relative: Str) returns (a: Str)
    requires root != []
    ensures Join(root, relative) == a + [SLASH] + relative && Names(a) == Names(root)
  {
    a := root;
    if root[|root| - 1] == SLASH {
      a := root[..|root| - 1];
      assert root == a + [SLASH] + [];
      NamesOfPiece([]);
      NamesConcat(a, []);
    }
  }

  lemma JoinedEnd(a: Str, core: Str)
    requires EndsInName(core)
    ensures TrailingRun(a + [SLASH] + core) == []
  {
    var n := PieceStart(core);
    var piece := core[n..];
    var before := if n == 0 then a else a + [SLASH] + core[..n - 1];
    if n > 0 { assert core == core[..n - 1] + [SLASH] + piece; } else { assert piece == core; }
    assert a + [SLASH] + core == before + [SLASH] + piece;
    RunOfPiece(before, piece);
  }

  lemma JoinMeans(root: Str, core: Str, t: Str)
    requires root != [] && Core(core) && IsSpelling(t)
    ensures Names(Join(root, core + t)) == Names(root) + Names(core)
    ensures Trailing(Join(root, core + t)) == if core == [DOT] then SLASH_DOT else t
  {
    hide Names, Trailing, Join;
    var a := JoinText(root, core + t);
    var joined := a + [SLASH] + core;
    assert a + [SLASH] + (core + t) == joined + t;
    NamesConcat(a, core);
    if core == [DOT] {
      RunOfPiece(a, [DOT]);
      assert [DOT] in TrailingRun(joined);
    } else {
      JoinedEnd(a, core);
    }
    AddSpelling(joined, t);
  }

  lemma DotIsNoName(rel: Str)
    requires rel != [] ==> EndsInName(rel)
    ensures rel != [DOT]
  {
    if rel == [DOT] { StartAlone(rel); }
  }

  /** A rest beneath a root, spelled as the code spells it and joined to it. */
  lemma JoinBeneath(root: Str, rel: Str, cand: Str)
    requires root != [] && (rel != [] ==> rel[0] != SLASH && EndsInName(rel))
    ensures var joined := Join(root, (if rel == [] then [DOT] else rel) + Trailing(cand));
            && Names(joined) == Names(root) + Names(rel)
            && (Trailing(joined) == Trailing(cand) <==> rel != [] || Trailing(cand) == SLASH_DOT)
            && ((NamesDirectory(joined) <==> NamesDirectory(cand)) <==> rel != [] || Trailing(cand) != [])
  {
    hide Join, Names, NamesDirectory, EndsInName, TrailingRun;
    var core := if rel == [] then [DOT] else rel;
    JoinMeans(root, core, Trailing(cand));
    NamesOfPiece([DOT]);
    NamesOfPiece([]);
    NamesDirectoryMeans(cand);
    NamesDirectoryMeans(Join(root, core + Trailing(cand)));
    DotIsNoName(rel);
  }

  lemma FoundPrefix(base: Str, cand: Str, canonicalize: Str -> Option<Str>, root: Str, k: nat)
    ensures FoundRoot(base, cand, canonicalize, root, k) && k <= |Names(cand)| && Names(root) <= Names(cand) ==>
              Names(root) + Names(cand)[k..] == Names(cand)
  {
    hide Names, AliasFound;
  }

  /** The root that was found, joined with the answer, has its own components
      and then the candidate's remaining ones, which makes the candidate's when
      the root's come first in them. It has the candidate's trailing spelling
      too, except for the root itself, which is spelled `.` and so joins to a
      path ending in `/.`. */
  lemma JoinedIsCandidate(base: Str, cand: Str, canonicalize: Str -> Option<Str>) returns (root: Str, k: nat)
    requires [SLASH] <= cand && [SLASH] <= base && AnswersAbsolute(canonicalize)
    requires RelativeToRoot(base, cand, canonicalize).Ok?
    ensures FoundRoot(base, cand, canonicalize, root, k) && k <= |Names(cand)|
    ensures var joined := Join(root, RelativeToRoot(base, cand, canonicalize).value);
            && Names(joined) == Names(root) + Names(cand)[k..]
            && (Names(root) <= Names(cand) ==> Names(joined) == Names(cand))
            && (Trailing(joined) == Trailing(cand) <==> k < |Names(cand)| || Trailing(cand) == SLASH_DOT)
            && ((NamesDirectory(joined) <==> NamesDirectory(cand)) <==> k < |Names(cand)| || Trailing(cand) != [])
  {
    hide Beneath, FoundRoot, Names, NamesDirectory, EndsInName, Trailing, Join;
    root, k := FoundBeneath(base, cand, canonicalize);
    JoinBeneath(root, Beneath(base, cand, canonicalize).value, cand);
    if Names(root) <= Names(cand) { FoundPrefix(base, cand, canonicalize, root, k); }
  }

  /** `/r/` has the one component of `/r` and the trailing spelling `/`. */
  lemma SlashAfterRoot(base: Str, cand: Str)
    requires base == [SLASH, 114] && cand == [SLASH, 114, SLASH]
    ensures Names(cand) == Names(base) && Trailing(cand) == [SLASH]
  {
    hide Names, TrailingRun;
    var name: Str := [114];
    NamesOfPiece([]);
    assert base == [] + [SLASH] + name && cand == base + [SLASH] + [];
    NamesConcat(base, []);
    RunOfPiece([], name);
    RunOfPiece(base, []);
  }

  /** The root itself with a trailing slash: joined again it ends in `/.`. */
  lemma RootIsSpelledDot(canonicalize: Str -> Option<Str>)
    requires AnswersAbsolute(canonicalize)
    ensures var base, cand: Str := [SLASH, 114], [SLASH, 114, SLASH];
            var r := RelativeToRoot(base, cand, canonicalize);
            && r == Ok([DOT, SLASH])
            && Trailing(cand) == [SLASH] && Trailing(Join(base, r.value)) == SLASH_DOT
  {
    hide Names, Trailing, StripPrefix, EndsInName, Join;
    var base, cand: Str := [SLASH, 114], [SLASH, 114, SLASH];
    SlashAfterRoot(base, cand);
    StripPrefixMeans(cand, base);
    JoinMeans(base, [DOT], [SLASH]);
    assert [DOT] + [SLASH] == [DOT, SLASH];
  }

  // ----- Stripping trailing slashes -----

  predicate NamesItself(name: Str) {
    !(name == [] || EndsWithDot(name) || name == [DOT] || EndsWithParent(name) || name == [DOT, DOT])
  }

  lemma {:induction false} SlashesAreNoNames(p: Str, end: nat)
    requires end < |p| && forall i :: end <= i < |p| ==> p[i] == SLASH
    ensures Names(p[..end]) == Names(p)
    ensures Trailing(p) == if Trailing(p[..end]) == SLASH_DOT then SLASH_DOT else [SLASH]
    decreases |p|
  {
    hide Names, TrailingRun;
    var q := p[..|p| - 1];
    assert p == q + [SLASH] + [];
    NamesOfPiece([]);
    NamesConcat(q, []);
    RunOfPiece(q, []);
    if end < |q| {
      SlashesAreNoNames(q, end);
      assert q[..end] == p[..end];
    } else {
      assert p[..end] == q;
    }
  }

  lemma LastThree(a: Str, piece: Str)
    requires Free(piece, SLASH)
    ensures EndsWithParent(a + [SLASH] + piece) <==> piece == [DOT, DOT]
  {
    var path := a + [SLASH] + piece;
    if |piece| >= 3 {
      assert path[|path| - 3..][0] == piece[|piece| - 3] && piece[|piece| - 3] in piece;
    } else if |piece| == 2 {
      assert path[|path| - 3..] == [SLASH] + piece;
      assert ([SLASH] + piece)[1..] == piece && [SLASH, DOT, DOT][1..] == [DOT, DOT];
    } else if |path| >= 3 {
      assert path[|path| - 3..][2 - |piece|] == SLASH;
    }
  }

  lemma ItselfAfterSlash(a: Str, piece: Str)
    requires Free(piece, SLASH) && piece != []
    ensures NamesItself(a + [SLASH] + piece) <==> !Skipped(piece) && piece != [DOT, DOT]
  {
    hide EndsWithDot, EndsWithParent;
    var name := a + [SLASH] + piece;
    LastTwo(a, piece);
    LastThree(a, piece);
    assert name[|a|] == SLASH;
  }

  lemma ItselfAlone(name: Str)
    requires Free(name, SLASH)
    ensures NamesItself(name) <==> !Skipped(name) && name != [DOT, DOT]
  {
    NoLeadingSlash(name);
  }

  /** The tests look at the last piece. */
  lemma ItselfMeans(name: Str)
    requires name != [] ==> name[|name| - 1] != SLASH
    ensures var piece := name[PieceStart(name)..];
            NamesItself(name) <==> !Skipped(piece) && piece != [DOT, DOT]
  {
    hide NamesItself, Skipped;
    var n := PieceStart(name);
    if n > 0 {
      assert name == name[..n - 1] + [SLASH] + name[n..];
      ItselfAfterSlash(name[..n - 1], name[n..]);
    } else {
      assert name[n..] == name;
      ItselfAlone(name);
    }
  }

  lemma LastPieceNames(name: Str)
    requires name != [] ==> name[|name| - 1] != SLASH
    ensures var piece := name[PieceStart(name)..];
            if Skipped(piece) then Names(name) == [] || Trailing(name) == SLASH_DOT
            else Names(name) != [] && Names(name)[|Names(name)| - 1] == piece && Trailing(name) == [] && EndsInName(name)
                 && !NamesDirectory(name)
  {
    hide Names, NamesDirectory, Free, TrailingRun;
    LastPieceMeans(name);
    NamesDirectoryMeans(name);
    var n := PieceStart(name);
    var piece := name[n..];
    if n > 0 {
      assert name == name[..n - 1] + [SLASH] + piece;
      RunOfPiece(name[..n - 1], piece);
    } else {
      assert piece == name;
      NoRun(name);
    }
  }

  lemma StrippedMeans(p: Str, end: nat)
    requires end < |p| && (forall i :: end <= i < |p| ==> p[i] == SLASH) && (end > 0 ==> p[end - 1] != SLASH)
    ensures var name := p[..end];
            && Names(name) == Names(p)
            && (NamesItself(name) <==>
                  Names(p) != [] && Names(p)[|Names(p)| - 1] != [DOT, DOT] && Trailing(p) != SLASH_DOT)
            && (NamesItself(name) ==> EndsInName(name) && !NamesDirectory(name))
  {
    var name := p[..end];
    hide NamesItself, Names, Trailing, EndsInName, Skipped;
    SlashesAreNoNames(p, end);
    ItselfMeans(name);
    LastPieceNames(name);
  }

  /** `p` without its trailing slashes, when it has some and what is left ends
      in a name. */
  method SlashesStripped(p: Str) returns (r: Option<Str>)
    ensures r.Some? <==>
              && p != [] && p[|p| - 1] == SLASH && Trailing(p) != SLASH_DOT
              && Names(p) != [] && Names(p)[|Names(p)| - 1] != [DOT, DOT]
    ensures r.Some? ==>
              && r.value < p && (forall i :: |r.value| <= i < |p| ==> p[i] == SLASH)
              && Names(r.value) == Names(p) && EndsInName(r.value) && !NamesDirectory(r.value)
  {
    if p == [] || p[|p| - 1] != SLASH { return None; }
    var end := |p| - 1;
    while end > 0 && p[end - 1] == SLASH
      invariant 0 <= end < |p|
      invariant forall i :: end <= i < |p| ==> p[i] == SLASH
    {
      end := end - 1;
    }
    var name := p[..end];
    StrippedMeans(p, end);
    if !NamesItself(name) { return None; }
    r := Some(name);
  }
}
