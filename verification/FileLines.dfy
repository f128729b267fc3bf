/** Reading a file line by line, under a cap on the length of a line. */
module FileLines {
  import opened Text
  import opened Streams
  import opened StdinHandles

  datatype FileLine = FileLine(bytes: Str) | LineTooLong | FileErr(kind: ErrorKind)

  predicate EndsWithNewline(bytes: Str) {
    bytes != [] && bytes[|bytes| - 1] == 10
  }

  /** The answer to what the delimited read returned. */
  function LineAnswerOf(r: Result<Str, ErrorKind>, maxLine: nat): FileLine {
    match r
    case Err(kind) => FileErr(kind)
    case Ok(bytes) => if |bytes| > maxLine && !EndsWithNewline(bytes) then LineTooLong else FileLine(bytes)
  }

  function ReadLine(s: Buffered, maxLine: nat): (FileLine, Buffered) {
    var r := ReadUntil(s, 10, Some(maxLine + 1), []);
    (LineAnswerOf(r.result, maxLine), r.rest)
  }

  class FileReader {
    const stream: BufReader
    const maxLine: nat

    constructor (stream: BufReader, maxLine: nat)
      ensures this.stream == stream && this.maxLine == maxLine
    {
      this.stream := stream;
      this.maxLine := maxLine;
    }

    method FileReadLine() returns (line: FileLine)
      modifies stream, stream.source
      ensures (line, stream.State()) == ReadLine(old(stream.State()), maxLine)
    {
      var bytes := stream.ReadUntil(10, Some(maxLine + 1));
      line := LineAnswerOf(bytes, maxLine);
    }
  }

  lemma NothingLeft(text: Str, rest: Str)
    requires text == text + rest
    ensures rest == []
  {
    assert |text| == |text| + |rest|;
  }

  /** One call: exactly when more than `maxLine` bytes come before any newline
      is the line too long; a success without a newline is the end of the file;
      either way the bytes taken are the first line, cut after one byte more
      than the cap. */
  lemma ReadLineMeans(s: Buffered, maxLine: nat)
    requires Regular(s.script)
    ensures var (answer, rest) := ReadLine(s, maxLine);
            var text := Remaining(s);
            && Regular(rest.script)
            && text == FirstPiece(text, 10, Some(maxLine + 1)) + Remaining(rest)
            && (answer.LineTooLong? <==> IndexOf(text, 10) > maxLine)
            && (!answer.LineTooLong? ==> answer == FileLine(FirstPiece(text, 10, Some(maxLine + 1))))
            && (answer.FileLine? && !EndsWithNewline(answer.bytes) ==> Remaining(rest) == [])
  {
    hide ReadUntil, Regular, Remaining;
    ReadUntilIsFirstPiece(s, 10, Some(maxLine + 1));
    var text := Remaining(s);
    var piece := FirstPiece(text, 10, Some(maxLine + 1));
    var n := IndexOf(text, 10);
    if n > maxLine {
      assert piece == text[..n][..maxLine + 1];
      assert piece[maxLine] == text[..n][maxLine];
    } else if n < |text| {
      assert piece == text[..n + 1];
    } else {
      assert piece == text;
      NothingLeft(text, Remaining(ReadLine(s, maxLine).1));
    }
  }

  /** On any source: an error is answered exactly when the source failed first,
      with its kind; otherwise the piece taken is the answer, or is too long. */
  lemma ReadLineFails(s: Buffered, maxLine: nat) returns (taken: Str)
    ensures var (answer, rest) := ReadLine(s, maxLine);
            && Takes(s, rest, taken) && OneLine(taken, 10) && |taken| <= maxLine + 1
            && (answer.FileErr? ==>
                  answer.kind != Interrupted && Serious(Errors(s.script)) == [answer.kind] + Serious(Errors(rest.script)))
            && (!answer.FileErr? ==> Serious(Errors(s.script)) == Serious(Errors(rest.script)))
            && (answer.LineTooLong? ==> |taken| == maxLine + 1 && taken[maxLine] != 10)
            && (answer.FileLine? ==>
                  answer.bytes == taken && (taken == [] || taken[|taken| - 1] == 10 || |taken| <= maxLine))
  {
    taken := ReadUntilFrom(s, 10, Some(maxLine + 1), []);
    ReadUntilFails(s, 10, Some(maxLine + 1), []);
    assert [] + taken == taken;
  }

  // ----- Reading a whole file -----

  lemma {:induction false} ReadUntilWork(s: Buffered, max: Option<nat>, out: Str)
    ensures var r := ReadUntil(s, 10, max, out);
            && Work(r.rest) <= Work(s)
            && (r.result.Ok? && r.result.value != out ==> Work(r.rest) < Work(s))
    decreases Work(s)
  {
    if max != Some(0) {
      var r := FillBuf(s);
      FillWork(s);
      if r.result == Err(Interrupted) {
        ReadUntilWork(r.rest, max, out);
      } else if r.result.Ok? && r.result.value != [] {
        var shown := Shown(r.result.value, max);
        if IndexOf(shown, 10) == |shown| {
          ReadUntilWork(Consume(r.rest, |shown|), Less(max, |shown|), out + shown);
        }
      }
    }
  }

  lemma ReadLineWork(s: Buffered, maxLine: nat)
    ensures var (answer, rest) := ReadLine(s, maxLine);
            answer.LineTooLong? || (answer.FileLine? && answer.bytes != []) ==> Work(rest) < Work(s)
  {
    ReadUntilWork(s, Some(maxLine + 1), []);
  }

  /** Calls repeated until one answers no bytes or an error. */
  function ReadAll(s: Buffered, maxLine: nat): seq<FileLine>
    decreases Work(s)
  {
    var (answer, rest) := ReadLine(s, maxLine);
    ReadLineWork(s, maxLine);
    if answer.FileErr? || answer == FileLine([]) then [answer] else [answer] + ReadAll(rest, maxLine)
  }

  lemma PieceIsNonEmpty(text: Str, max: nat)
    requires text != [] && max > 0
    ensures FirstPiece(text, 10, Some(max)) != [] && FirstPiece(text, 10, Some(max)) <= text
  {
  }

  /** The pieces the calls take, from the text alone. */
  function Pieces(text: Str, maxLine: nat): (parts: seq<Str>)
    decreases |text|
  {
    if text == [] then []
    else
      var piece := FirstPiece(text, 10, Some(maxLine + 1));
      PieceIsNonEmpty(text, maxLine + 1);
      [piece] + Pieces(text[|piece|..], maxLine)
  }

  function PieceAnswers(parts: seq<Str>, maxLine: nat): (r: seq<FileLine>)
    ensures |r| == |parts|
    ensures forall k :: 0 <= k < |parts| ==> r[k] == LineAnswerOf(Ok(parts[k]), maxLine)
  {
    if parts == [] then [] else [LineAnswerOf(Ok(parts[0]), maxLine)] + PieceAnswers(parts[1..], maxLine)
  }

  /** Repeated calls answer for consecutive pieces that depend on the file's
      contents only, and end with an empty success at the end of the file. */
  lemma {:induction false} ReadAllMeans(s: Buffered, maxLine: nat)
    requires Regular(s.script)
    ensures ReadAll(s, maxLine) == PieceAnswers(Pieces(Remaining(s), maxLine), maxLine) + [FileLine([])]
    decreases Work(s)
  {
    hide ReadUntil, Regular, FirstPiece;
    var text := Remaining(s);
    var (answer, rest) := ReadLine(s, maxLine);
    var piece := FirstPiece(text, 10, Some(maxLine + 1));
    ReadUntilIsFirstPiece(s, 10, Some(maxLine + 1));
    ReadLineWork(s, maxLine);
    if text == [] {
      assert piece == [];
    } else {
      PieceIsNonEmpty(text, maxLine + 1);
      assert text[|piece|..] == Remaining(rest);
      ReadAllMeans(rest, maxLine);
      var more := Pieces(Remaining(rest), maxLine);
      assert Pieces(text, maxLine) == [piece] + more;
      assert PieceAnswers([piece] + more, maxLine) == [answer] + PieceAnswers(more, maxLine);
    }
  }

  /** The pieces taken concatenate to the file. */
  lemma {:induction false} PiecesAreTheFile(text: Str, maxLine: nat)
    ensures Concat(Pieces(text, maxLine)) == text
    decreases |text|
  {
    hide FirstPiece;
    if text != [] {
      var piece := FirstPiece(text, 10, Some(maxLine + 1));
      PieceIsNonEmpty(text, maxLine + 1);
      PiecesAreTheFile(text[|piece|..], maxLine);
      var more := Pieces(text[|piece|..], maxLine);
      assert Pieces(text, maxLine) == [piece] + more && ([piece] + more)[1..] == more;
      assert text == piece + text[|piece|..];
    }
  }

  function Ended(parts: seq<Str>): (r: seq<Str>)
    ensures |r| == |parts|
    ensures forall k :: 0 <= k < |parts| ==> r[k] == parts[k] + [10]
  {
    if parts == [] then [] else [parts[0] + [10]] + Ended(parts[1..])
  }

  /** The lines of a text, each with its newline; a final piece without one is
      a line unless it is empty. */
  function LinesOf(text: Str): seq<Str> {
    var parts := SplitOn(text, [10]);
    var last := parts[|parts| - 1];
    Ended(parts[..|parts| - 1]) + if last == [] then [] else [last]
  }

  /** No line is longer than the cap before its newline. */
  predicate FitsCap(text: Str, maxLine: nat) {
    forall k :: 0 <= k < |SplitOn(text, [10])| ==> |SplitOn(text, [10])[k]| <= maxLine
  }

  lemma LinesStep(head: Str, tail: Str, maxLine: nat)
    requires Free(head, 10)
    ensures var text := head + [10] + tail;
            && LinesOf(text) == [head + [10]] + LinesOf(tail)
            && (FitsCap(text, maxLine) ==> |head| <= maxLine && FitsCap(tail, maxLine))
  {
    hide SplitOn;
    var text := head + [10] + tail;
    SplitConcat(head, 10, tail);
    SplitFree(head, 10);
    var parts, rest := SplitOn(text, [10]), SplitOn(tail, [10]);
    assert parts == [head] + rest;
    assert parts[..|parts| - 1] == [head] + rest[..|rest| - 1];
    assert Ended(parts[..|parts| - 1]) == [head + [10]] + Ended(rest[..|rest| - 1]);
    if FitsCap(text, maxLine) {
      assert |parts[0]| <= maxLine;
      forall k | 0 <= k < |rest| ensures |rest[k]| <= maxLine {
        assert |parts[k + 1]| <= maxLine;
      }
    }
  }

  /** When no line is longer than the cap, the pieces are the lines. */
  lemma {:induction false} PiecesAreLines(text: Str, maxLine: nat)
    requires FitsCap(text, maxLine)
    ensures Pieces(text, maxLine) == LinesOf(text)
    decreases |text|
  {
    var n := IndexOf(text, 10);
    if text == [] {
    } else if n == |text| {
      assert text[..n] == text;
      SplitFree(text, 10);
      assert |SplitOn(text, [10])[0]| <= maxLine;
      assert FirstPiece(text, 10, Some(maxLine + 1)) == text;
      assert Pieces(text, maxLine) == [text];
    } else {
      var head, tail := text[..n], text[n + 1..];
      assert text == head + [10] + tail;
      LinesStep(head, tail, maxLine);
      assert FirstPiece(text, 10, Some(maxLine + 1)) == text[..n + 1] == head + [10];
      PiecesAreLines(tail, maxLine);
    }
  }

  lemma LinesFit(text: Str, maxLine: nat, k: nat)
    requires FitsCap(text, maxLine) && k < |LinesOf(text)|
    ensures LineAnswerOf(Ok(LinesOf(text)[k]), maxLine) == FileLine(LinesOf(text)[k])
  {
    var parts := SplitOn(text, [10]);
    assert |parts[k]| <= maxLine;
  }

  /** When no line is longer than the cap, reading the file answers its lines
      in order and then the end. */
  lemma ReadAllIsLines(s: Buffered, maxLine: nat)
    requires Regular(s.script) && FitsCap(Remaining(s), maxLine)
    ensures var lines := LinesOf(Remaining(s));
            var answers := ReadAll(s, maxLine);
            && |answers| == |lines| + 1 && answers[|lines|] == FileLine([])
            && forall k :: 0 <= k < |lines| ==> answers[k] == FileLine(lines[k])
  {
    var lines := LinesOf(Remaining(s));
    ReadAllMeans(s, maxLine);
    PiecesAreLines(Remaining(s), maxLine);
    forall k | 0 <= k < |lines| ensures LineAnswerOf(Ok(lines[k]), maxLine) == FileLine(lines[k]) {
      LinesFit(Remaining(s), maxLine, k);
    }
  }
}
