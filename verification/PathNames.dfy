/** The last name of a path and its extension, and why slicing a UTF-8 path for
    them leaves UTF-8. */
module PathNames {
  import opened Text
  import opened Transcode

  datatype NameError = IsDirPath | EndsInDots

  /** Index of the last separator plus one, or zero. */
  function NameStart<T>(units: seq<T>, isSep: T -> bool): (n: nat)
    ensures n <= |units|
    ensures forall k :: n <= k < |units| ==> !isSep(units[k])
    ensures n > 0 ==> isSep(units[n - 1])
  {
    if units == [] then 0
    else if isSep(units[|units| - 1]) then |units|
    else NameStart(units[..|units| - 1], isSep)
  }

  function EndsWithTwo<T(==)>(units: seq<T>, unit: T): bool {
    |units| >= 2 && units[|units| - 2] == unit && units[|units| - 1] == unit
  }

  /** Everything after the last separator. */
  function FileName<T(==)>(units: seq<T>, isSep: T -> bool, dot: T): Result<seq<T>, NameError> {
    if units != [] && isSep(units[|units| - 1]) then Err(IsDirPath)
    else if EndsWithTwo(units, dot) then Err(EndsInDots)
    else Ok(units[NameStart(units, isSep)..])
  }

  function ExtUnits<T(==)>(units: seq<T>, dot: T): seq<T> {
    var n := IndexOf(units, dot);
    if n == |units| then []
    else if n == 0 then
      var rest := units[1..];
      var m := IndexOf(rest, dot);
      if m == |rest| then [] else rest[m + 1..]
    else units[n + 1..]
  }

  function Extension<T(==)>(units: seq<T>, isSep: T -> bool, dot: T): Result<seq<T>, NameError> {
    match FileName(units, isSep, dot)
    case Err(e) => Err(e)
    case Ok(name) => Ok(ExtUnits(name, dot))
  }

  predicate IsSlash(b: bv8) { b == 0x2F }

  /** `None` is the crash: sliced bytes that are not UTF-8. */
  function Utf8FileName(path: Bytes): Option<Result<Bytes, NameError>> {
    match FileName(path, IsSlash, 0x2E)
    case Err(e) => Some(Err(e))
    case Ok(name) =>
      if NameStart(path, IsSlash) == 0 || DecodeUtf8(name).Some? then Some(Ok(name)) else None
  }

  function Utf8Extension(path: Bytes): Option<Result<Bytes, NameError>> {
    match Utf8FileName(path)
    case None => None
    case Some(Err(e)) => Some(Err(e))
    case Some(Ok(name)) =>
      var ext := ExtUnits(name, 0x2E);
      if DecodeUtf8(ext).Some? then Some(Ok(ext)) else None
  }

  /** Index `k` is the first `dot` that is not the first unit. */
  ghost predicate FirstInnerDot<T>(name: seq<T>, dot: T, k: nat) {
    && 1 <= k < |name| && name[k] == dot && forall j :: 1 <= j < k ==> name[j] != dot
  }

  /** The extension of a name is what follows the first dot past its first unit. */
  lemma ExtMeans<T>(name: seq<T>, dot: T)
    ensures forall k: nat :: FirstInnerDot(name, dot, k) ==> ExtUnits(name, dot) == name[k + 1..]
    ensures (forall k: nat :: !FirstInnerDot(name, dot, k)) ==> ExtUnits(name, dot) == []
  {
    var n := IndexOf(name, dot);
    if n == 0 && name != [] {
      var m := IndexOf(name[1..], dot);
      assert forall j :: 0 <= j < |name| - 1 ==> name[1..][j] == name[j + 1];
      if m < |name[1..]| {
        assert FirstInnerDot(name, dot, m + 1);
        assert name[1..][m + 1..] == name[m + 2..];
      }
    } else if n < |name| {
      assert FirstInnerDot(name, dot, n);
    }
  }

  /** A path has a file name unless it ends in a separator or in two dots; the
      name is the longest tail without a separator, and its extension is what
      follows the first dot past its first unit. */
  lemma ExtensionMeans<T>(units: seq<T>, isSep: T -> bool, dot: T)
    ensures FileName(units, isSep, dot) == Err(IsDirPath) <==> units != [] && isSep(units[|units| - 1])
    ensures FileName(units, isSep, dot) == Err(EndsInDots) <==>
              !(units != [] && isSep(units[|units| - 1])) && |units| >= 2 && units[|units| - 2..] == [dot, dot]
    ensures FileName(units, isSep, dot).Ok? ==>
              var name := FileName(units, isSep, dot).value;
              && (exists i :: 0 <= i <= |units| && name == units[i..] && (i > 0 ==> isSep(units[i - 1]))
                              && forall k :: i <= k < |units| ==> !isSep(units[k]))
              && (forall k: nat :: FirstInnerDot(name, dot, k) ==> Extension(units, isSep, dot) == Ok(name[k + 1..]))
              && ((forall k: nat :: !FirstInnerDot(name, dot, k)) ==> Extension(units, isSep, dot) == Ok([]))
  {
    hide FirstInnerDot, ExtUnits, IndexOf;
    if FileName(units, isSep, dot).Ok? {
      ExtMeans(FileName(units, isSep, dot).value, dot);
    }
  }

  lemma Slices(s: Bytes, n: nat, i: nat)
    requires n <= i < |s|
    ensures s[n..][..i - n] == s[..i][n..]
    ensures s[n..][i - n] == s[i] && s[n..][i - n + 1..] == s[i + 1..]
    ensures s[..i][..n] == s[..n]
  {
  }

  /** Decoding one character and then the rest. */
  lemma DecodeStep(s: Bytes)
    requires s != []
    ensures var n := Utf8Length(s[0]);
            DecodeUtf8(s).Some? <==> 1 <= n <= |s| && Utf8Char(s[..n]) && DecodeUtf8(s[n..]).Some?
    ensures DecodeUtf8(s).Some? ==>
              var n := Utf8Length(s[0]);
              DecodeUtf8(s).value == [Utf8Value(s[..n])] + DecodeUtf8(s[n..]).value
  {
    hide Utf8Value, Utf8Char;
  }

  lemma Associate<T>(first: T, left: seq<T>, middle: T, right: seq<T>)
    ensures [first] + (left + [middle] + right) == ([first] + left) + [middle] + right
  {
  }

  lemma OneByte(b: bv8)
    requires b < 0x80
    ensures Utf8Length(b) == 1 && Utf8Char([b]) && Utf8Value([b]) == b as bv32
  {
  }

  lemma EmptyIsUtf8()
    ensures DecodeUtf8([]) == Some([])
  {
  }

  lemma CutAtFirst(s: Bytes)
    requires DecodeUtf8(s).Some? && s != [] && s[0] < 0x80
    ensures DecodeUtf8(s[..0]) == Some([]) && DecodeUtf8(s[1..]).Some?
    ensures DecodeUtf8(s).value == DecodeUtf8(s[..0]).value + [s[0] as bv32] + DecodeUtf8(s[1..]).value
  {
    hide Utf8Length, DecodeUtf8, Utf8Value, Utf8Char;
    DecodeStep(s);
    OneByte(s[0]);
    EmptyIsUtf8();
    assert s[..1] == [s[0]] && s[..0] == [];
  }

  lemma TailBytes(s: Bytes)
    requires Utf8Char(s)
    ensures forall k :: 1 <= k < |s| ==> s[k] >= 0x80
    ensures s[0] < 0x80 <==> |s| == 1
  {
  }

  /** An ASCII byte past the first character's first byte lies past that character. */
  lemma FirstCharEnds(s: Bytes, i: nat) returns (n: nat)
    requires DecodeUtf8(s).Some? && 0 < i < |s| && s[i] < 0x80
    ensures 1 <= n <= i && n == Utf8Length(s[0]) && Utf8Char(s[..n])
  {
    DecodeStep(s);
    n := Utf8Length(s[0]);
    hide DecodeUtf8, Utf8Value;
    TailBytes(s[..n]);
    assert forall k :: 0 <= k < n ==> s[..n][k] == s[k];
  }

  /** Cutting UTF-8 at an ASCII byte leaves UTF-8 on both sides, and cuts the
      text there. */
  lemma {:induction false} CutAtAscii(s: Bytes, i: nat)
    requires DecodeUtf8(s).Some? && i < |s| && s[i] < 0x80
    ensures DecodeUtf8(s[..i]).Some? && DecodeUtf8(s[i + 1..]).Some?
    ensures DecodeUtf8(s).value == DecodeUtf8(s[..i]).value + [s[i] as bv32] + DecodeUtf8(s[i + 1..]).value
    decreases |s|
  {
    hide Utf8Value, Utf8Char, Utf8Length, DecodeUtf8;
    if i == 0 {
      CutAtFirst(s);
    } else {
      var n := FirstCharEnds(s, i);
      DecodeStep(s);
      Slices(s, n, i);
      CutAtAscii(s[n..], i - n);
      DecodeStep(s[..i]);
      Associate(Utf8Value(s[..n]), DecodeUtf8(s[..i][n..]).value, s[i] as bv32, DecodeUtf8(s[i + 1..]).value);
    }
  }

  lemma ExtIsSafe(name: Bytes)
    requires DecodeUtf8(name).Some?
    ensures DecodeUtf8(ExtUnits(name, 0x2E)).Some?
  {
    hide DecodeUtf8;
    EmptyIsUtf8();
    var n := IndexOf(name, 0x2E);
    if n < |name| {
      CutAtAscii(name, n);
      if n == 0 {
        var m := IndexOf(name[1..], 0x2E);
        if m < |name[1..]| { CutAtAscii(name[1..], m); }
      }
    }
  }

  /** On a UTF-8 path neither slice crashes, and both answers are UTF-8. */
  lemma SlicingIsSafe(path: Bytes)
    requires DecodeUtf8(path).Some?
    ensures Utf8FileName(path) == Some(FileName(path, IsSlash, 0x2E))
    ensures Utf8Extension(path) == Some(Extension(path, IsSlash, 0x2E))
    ensures FileName(path, IsSlash, 0x2E).Ok? ==>
              && DecodeUtf8(FileName(path, IsSlash, 0x2E).value).Some?
              && DecodeUtf8(Extension(path, IsSlash, 0x2E).value).Some?
    ensures FileName(path, IsSlash, 0x2E).Ok? ==>
              var name := FileName(path, IsSlash, 0x2E).value;
              && |name| <= |path| && path[|path| - |name|..] == name && 0x2F !in name
              && (|name| < |path| ==> path[|path| - |name| - 1] == 0x2F)
  {
    if FileName(path, IsSlash, 0x2E).Ok? {
      var name := FileName(path, IsSlash, 0x2E).value;
      var n := NameStart(path, IsSlash);
      if n > 0 { CutAtAscii(path, n - 1); } else { assert name == path; }
      ExtIsSafe(name);
    }
  }
}
