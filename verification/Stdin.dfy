/** Stdin handles over one process-global buffer and its lock. Every method is
    proved against the values of module Streams. */
module StdinHandles {
  import opened Text
  import opened Streams

  /** The operating system's side of a descriptor. */
  class Source {
    var script: seq<Event>
    ghost var empties: nat

    constructor (script: seq<Event>)
      ensures this.script == script && empties == 0
    {
      this.script := script;
      empties := 0;
    }

    method Read(size: nat) returns (r: Result<Str, ErrorKind>)
      modifies this
      ensures var was := Buffered([], old(script), old(empties));
              Reply(r, Buffered([], script, empties)) == RawRead(was, size)
    {
      if script == [] {
        r, empties := Ok([]), empties + 1;
      } else if script[0].Fail? {
        r, script := Err(script[0].kind), script[1..];
      } else {
        var b := script[0].bytes;
        if |b| <= size {
          script := script[1..];
        } else {
          b, script := b[..size], [Data(b[size..])] + script[1..];
        }
        r := Ok(b);
        if b == [] { empties := empties + 1; }
      }
    }
  }

  lemma ConsumeNone()
    ensures forall s: Buffered :: Streams.Consume(s, 0) == s
  {
    forall s: Buffered ensures Streams.Consume(s, 0) == s {
      assert s.buf[0..] == s.buf;
    }
  }

  /** Reading to the end does not depend on how the reads are sized. */
  lemma DrainStep(s: Buffered, size: nat, out: Str)
    requires s.buf == [] && size > 0
    ensures var r := RawRead(s, size);
            && r.rest.buf == []
            && (r.result.Ok? && r.result.value == [] ==> Streams.ReadToEnd(s, out) == Reply(Ok(out), r.rest))
            && (r.result.Ok? && r.result.value != [] ==>
                  Streams.ReadToEnd(s, out) == Streams.ReadToEnd(r.rest, out + r.result.value)
                  && ScriptWork(r.rest.script) < ScriptWork(s.script))
            && (r.result == Err(Interrupted) ==>
                  Streams.ReadToEnd(s, out) == Streams.ReadToEnd(r.rest, out)
                  && ScriptWork(r.rest.script) < ScriptWork(s.script))
            && (r.result.Err? && r.result.error != Interrupted ==>
                  Streams.ReadToEnd(s, out) == Reply(Err(r.result.error), r.rest))
  {
    if s.script != [] && s.script[0].Data? && |s.script[0].bytes| > size {
      var b := s.script[0].bytes;
      var tail := [Data(b[size..])] + s.script[1..];
      assert tail[1..] == s.script[1..];
      assert out + b == out + b[..size] + b[size..];
    }
  }

  /** The standard library's buffered reader. */
  class BufReader {
    const source: Source
    var buf: Str

    constructor (source: Source)
      ensures this.source == source && buf == []
    {
      this.source := source;
      buf := [];
    }

    ghost function State(): Buffered
      reads this, source
    {
      Buffered(buf, source.script, source.empties)
    }

    method FillBuf() returns (r: Result<Str, ErrorKind>)
      modifies this, source
      ensures Reply(r, State()) == Streams.FillBuf(old(State()))
    {
      if buf == [] {
        r := source.Read(CAPACITY);
        if r.Ok? { buf := r.value; }
      } else {
        r := Ok(buf);
      }
    }

    method Consume(n: nat)
      requires n <= |buf|
      modifies this
      ensures State() == Streams.Consume(old(State()), n)
    {
      buf := buf[n..];
    }

    method Read(size: nat) returns (r: Result<Str, ErrorKind>)
      modifies this, source
      ensures Reply(r, State()) == ReadOnce(old(State()), size)
    {
      if buf == [] && size >= CAPACITY {
        r := source.Read(size);
      } else {
        r := FillBuf();
        if r.Ok? {
          var n := if |r.value| <= size then |r.value| else size;
          Consume(n);
          r := Ok(r.value[..n]);
        }
      }
    }

    /** The library's delimited read, behind a `Take` when there is a cap. */
    method ReadUntil(delim: Byte, max: Option<nat>) returns (r: Result<Str, ErrorKind>)
      modifies this, source
      ensures Reply(r, State()) == Streams.ReadUntil(old(State()), delim, max, [])
    {
      var limit, out := max, [];
      while true
        invariant Streams.ReadUntil(State(), delim, limit, out) == Streams.ReadUntil(old(State()), delim, max, [])
        decreases Work(State())
      {
        var available := [];
        if limit != Some(0) {
          FillWork(State());
          var got := FillBuf();
          if got == Err(Interrupted) { continue; }
          if got.Err? { return Err(got.error); }
          available := Shown(got.value, limit);
        }
        var n := IndexOf(available, delim);
        var done := n < |available|;
        var used := if done then n + 1 else |available|;
        assert !done ==> available[..used] == available;
        assert used == 0 ==> out + available[..used] == out;
        out := out + available[..used];
        ConsumeNone();
        Consume(used);
        if done || used == 0 { return Ok(out); }
        limit := Less(limit, used);
      }
    }

    /** Empties the buffer and then reads the source until it answers nothing.
        The size of each read is the library's choice. */
    method ReadToEnd() returns (r: Result<Str, ErrorKind>)
      modifies this, source
      ensures Reply(r, State()) == Streams.ReadToEnd(old(State()).(buf := []), old(buf))
    {
      var out := buf;
      buf := [];
      while true
        invariant buf == []
        invariant Streams.ReadToEnd(State(), out) == Streams.ReadToEnd(old(State()).(buf := []), old(buf))
        decreases ScriptWork(source.script)
      {
        var size: nat :| size > 0;
        DrainStep(State(), size, out);
        var got := source.Read(size);
        if got == Err(Interrupted) { continue; }
        if got.Err? { return Err(got.error); }
        if got.value == [] { return Ok(out); }
        out := out + got.value;
      }
    }
  }

  // ----- The hosted calls, as values -----

  datatype LineResult = Line(text: Str) | EndOfFile | Failed(kind: ErrorKind)

  /** The line without a final newline, and without a carriage return before it. */
  function StripLine(line: Str): (r: Str)
    ensures if line == [] || line[|line| - 1] != 10 then r == line
            else if |line| >= 2 && line[|line| - 2] == 13 then line == r + [13, 10]
            else line == r + [10]
  {
    if line != [] && line[|line| - 1] == 10 then
      var body := line[..|line| - 1];
      if body != [] && body[|body| - 1] == 13 then body[..|body| - 1] else body
    else line
  }

  function ReadLineResult(line: Result<Str, ErrorKind>, utf8: Str -> bool): LineResult {
    match line
    case Err(kind) => Failed(kind)
    case Ok(b) => if b == [] then EndOfFile else if utf8(b) then Line(StripLine(b)) else Failed(InvalidData)
  }

  /** The answer to a line read that took `taken`: nothing at the end of the
      input, the text without its ending, or a refusal of what is not text. */
  ghost predicate IsLine(line: LineResult, taken: Str, utf8: Str -> bool) {
    && (line == EndOfFile <==> taken == [])
    && (line.Line? <==> taken != [] && utf8(taken))
    && (line == Failed(InvalidData) <==> taken != [] && !utf8(taken))
    && (line.Line? ==>
          if taken[|taken| - 1] != 10 then line.text == taken
          else if |taken| >= 2 && taken[|taken| - 2] == 13 then taken == line.text + [13, 10]
          else taken == line.text + [10])
  }

  const READ_CHUNK_MAX: nat := 0x10_0000

  function Clamped(max: nat): nat {
    if max < READ_CHUNK_MAX then max else READ_CHUNK_MAX
  }

  /** A call names the handle it goes through, except those on the global. */
  datatype Call =
    | ReadCall(handle: nat, max: nat)
    | ReadUntilCall(handle: nat, delim: Byte, max: nat)
    | LineCall
    | ToEndCall

  datatype Answer = BytesAnswer(result: Result<Str, ErrorKind>) | LineAnswer(line: LineResult)

  /** What a call answers and leaves, whichever handle it goes through. */
  function Step(s: Buffered, call: Call, utf8: Str -> bool): (Answer, Buffered) {
    match call
    case ReadCall(_, max) => var r := ReadOnce(s, Clamped(max)); (BytesAnswer(r.result), r.rest)
    case ReadUntilCall(_, delim, max) =>
      var r := Streams.ReadUntil(s, delim, Some(max), []); (BytesAnswer(r.result), r.rest)
    case LineCall =>
      var r := Streams.ReadUntil(s, 10, None, []); (LineAnswer(ReadLineResult(r.result, utf8)), r.rest)
    case ToEndCall => var r := Streams.ReadToEnd(s.(buf := []), s.buf); (BytesAnswer(r.result), r.rest)
  }

  /** Reading a line from a source that only delivers: what is taken is the input
      through its first newline, or all of it, and the answer says what it is. */
  lemma ReadLineMeans(s: Buffered, utf8: Str -> bool)
    ensures Regular(s.script) ==>
              var (answer, rest) := Step(s, LineCall, utf8);
              && answer.LineAnswer? && IsLine(answer.line, Through(Remaining(s), 10), utf8)
              && Remaining(s) == Through(Remaining(s), 10) + Remaining(rest)
  {
    if Regular(s.script) { ReadUntilIsFirstPiece(s, 10, None); }
  }

  /** A line read fails with what is no text, or with the first failure of its
      source that is no interruption. */
  lemma ReadLineFails(s: Buffered, utf8: Str -> bool) returns (taken: Str)
    ensures var (answer, rest) := Step(s, LineCall, utf8);
            && answer.LineAnswer? && Takes(s, rest, taken) && OneLine(taken, 10)
            && ((IsLine(answer.line, taken, utf8) && Serious(Errors(s.script)) == Serious(Errors(rest.script)))
                || (answer.line.Failed? && answer.line.kind != Interrupted
                    && Serious(Errors(s.script)) == [answer.line.kind] + Serious(Errors(rest.script))))
  {
    taken := ReadUntilFrom(s, 10, None, []);
    ReadUntilFails(s, 10, None, []);
    assert [] + taken == taken;
  }

  // ----- The global and its handles -----

  /** The global buffer and its lock, a plain mutex: taking it while it is held
      would block for ever, so `Lock` may only be called when it is free. */
  class Stdin {
    const reader: BufReader
    var held: bool

    constructor (reader: BufReader)
      ensures this.reader == reader && !held
    {
      this.reader := reader;
      held := false;
    }

    method Lock()
      requires !held
      modifies this
      ensures held
    {
      held := true;
    }

    method Unlock()
      requires held
      modifies this
      ensures !held
    {
      held := false;
    }

    /** One line, without its ending. */
    method ReadLine(utf8: Str -> bool) returns (r: LineResult)
      requires !held
      modifies this, reader, reader.source
      ensures !held
      ensures (LineAnswer(r), reader.State()) == Step(old(reader.State()), LineCall, utf8)
      ensures Regular(old(reader.source.script)) ==> IsLine(r, Through(old(Remaining(reader.State())), 10), utf8)
    {
      ReadLineMeans(reader.State(), utf8);
      Lock();
      var line := reader.ReadUntil(10, None);
      Unlock();
      r := ReadLineResult(line, utf8);
    }

    method ReadToEnd() returns (r: Result<Str, ErrorKind>)
      requires !held
      modifies this, reader, reader.source
      ensures !held
      ensures Reply(r, reader.State()) == Streams.ReadToEnd(old(reader.State()).(buf := []), old(reader.buf))
    {
      Lock();
      r := reader.ReadToEnd();
      Unlock();
    }
  }

  /** A handle: the guard of the global lock, when a fill is waiting for its
      consume. */
  class SharedStdin {
    const stdin: Stdin
    var guard: bool

    constructor (stdin: Stdin)
      ensures this.stdin == stdin && !guard
    {
      this.stdin := stdin;
      guard := false;
    }

    /** No fill is waiting, and nobody holds the lock. */
    predicate Idle()
      reads this, stdin
    {
      !guard && !stdin.held
    }

    method FillBuf() returns (r: Result<Str, ErrorKind>)
      requires guard == stdin.held
      modifies this, stdin, stdin.reader, stdin.reader.source
      ensures Reply(r, stdin.reader.State()) == Streams.FillBuf(old(stdin.reader.State()))
      ensures guard == stdin.held == (r.Ok? && r.value != [])
    {
      if !guard {
        stdin.Lock();
        guard := true;
      }
      r := stdin.reader.FillBuf();
      if r.Err? {
        guard := false;
        stdin.Unlock();
        return;
      }
      if r.value == [] {
        guard := false;
        stdin.Unlock();
        return Ok([]);
      }
      // Answered from the buffer: the first fill was the only source read.
      r := stdin.reader.FillBuf();
    }

    method Consume(n: nat)
      requires guard == stdin.held && n <= |stdin.reader.buf|
      modifies this, stdin, stdin.reader
      ensures Idle()
      ensures stdin.reader.State() ==
              if old(guard) then Streams.Consume(old(stdin.reader.State()), n) else old(stdin.reader.State())
    {
      if guard {
        guard := false;
        stdin.reader.Consume(n);
        stdin.Unlock();
      }
    }

    /** A bounded read: whatever guard the handle held goes first. */
    method Read(size: nat) returns (r: Result<Str, ErrorKind>)
      requires guard == stdin.held
      modifies this, stdin, stdin.reader, stdin.reader.source
      ensures Idle()
      ensures Reply(r, stdin.reader.State()) == ReadOnce(old(stdin.reader.State()), size)
    {
      if guard {
        guard := false;
        stdin.Unlock();
      }
      stdin.Lock();
      r := stdin.reader.Read(size);
      stdin.Unlock();
    }

    /** The library's delimited read over `Take` over this handle. */
    method ReadUntil(delim: Byte, max: nat) returns (r: Result<Str, ErrorKind>)
      requires Idle()
      modifies this, stdin, stdin.reader, stdin.reader.source
      ensures Idle()
      ensures Reply(r, stdin.reader.State()) == Streams.ReadUntil(old(stdin.reader.State()), delim, Some(max), [])
    {
      hide Streams.FillBuf, RawRead;
      var limit: nat, out := max, [];
      while true
        invariant Idle()
        invariant Streams.ReadUntil(stdin.reader.State(), delim, Some(limit), out) ==
                  Streams.ReadUntil(old(stdin.reader.State()), delim, Some(max), [])
        decreases Work(stdin.reader.State())
      {
        var available := [];
        if limit > 0 {
          FillWork(stdin.reader.State());
          var got := FillBuf();
          if got == Err(Interrupted) { continue; }
          if got.Err? { return Err(got.error); }
          available := if limit < |got.value| then got.value[..limit] else got.value;
        }
        var n := IndexOf(available, delim);
        var done := n < |available|;
        var used := if done then n + 1 else |available|;
        assert !done ==> available[..used] == available;
        assert used == 0 ==> out + available[..used] == out;
        out := out + available[..used];
        ConsumeNone();
        Consume(used);
        if done || used == 0 { return Ok(out); }
        limit := limit - used;
      }
    }
  }

  // ----- Runs -----

  function Run(s: Buffered, calls: seq<Call>, utf8: Str -> bool): (seq<Answer>, Buffered) {
    if calls == [] then ([], s)
    else
      var (answers, mid) := Run(s, calls[..|calls| - 1], utf8);
      var (answer, rest) := Step(mid, calls[|calls| - 1], utf8);
      (answers + [answer], rest)
  }

  predicate Names(call: Call, handles: nat) {
    match call
    case ReadCall(h, _) => h < handles
    case ReadUntilCall(h, _, _) => h < handles
    case _ => true
  }

  ghost predicate AllIdle(stdin: Stdin, handles: seq<SharedStdin>)
    reads stdin, handles
  {
    !stdin.held && forall h :: h in handles ==> h.stdin == stdin && !h.guard
  }

  /** Any calls through any number of handles: the lock is free between calls,
      so no call blocks on it, and the answers are those of one reader. */
  method RunCalls(stdin: Stdin, handles: seq<SharedStdin>, calls: seq<Call>, utf8: Str -> bool)
    returns (answers: seq<Answer>)
    requires AllIdle(stdin, handles) && forall k :: 0 <= k < |calls| ==> Names(calls[k], |handles|)
    modifies handles, stdin, stdin.reader, stdin.reader.source
    ensures AllIdle(stdin, handles)
    ensures (answers, stdin.reader.State()) == Run(old(stdin.reader.State()), calls, utf8)
  {
    answers := [];
    for i := 0 to |calls|
      invariant AllIdle(stdin, handles)
      invariant (answers, stdin.reader.State()) == Run(old(stdin.reader.State()), calls[..i], utf8)
    {
      var answer: Answer;
      assert calls[..i + 1][..i] == calls[..i];
      assert Names(calls[i], |handles|);
      match calls[i] {
        case ReadCall(h, max) =>
          var r := handles[h].Read(Clamped(max));
          answer := BytesAnswer(r);
        case ReadUntilCall(h, delim, max) =>
          var r := handles[h].ReadUntil(delim, max);
          answer := BytesAnswer(r);
        case LineCall =>
          var r := stdin.ReadLine(utf8);
          answer := LineAnswer(r);
        case ToEndCall =>
          var r := stdin.ReadToEnd();
          answer := BytesAnswer(r);
      }
      answers := answers + [answer];
    }
    assert calls[..|calls|] == calls;
  }

  // ----- Conservation over a run -----

  /** What a call from `s` to `t` that took `taken` may answer, by the call. */
  ghost predicate Accounts(s: Buffered, call: Call, answer: Answer, t: Buffered, taken: Str, utf8: Str -> bool) {
    && Takes(s, t, taken)
    && match call
       case ReadCall(_, max) =>
         && answer.BytesAnswer? && AnswersFailure(s, Reply(answer.result, t))
         && (answer.result.Err? ==> taken == [])
         && (answer.result.Ok? ==> answer.result.value == taken && |taken| <= max && |taken| <= 1_048_576)
         && (answer.result.Ok? && max > 0 ==> t.empties == s.empties + (if taken == [] then 1 else 0))
       case ReadUntilCall(_, delim, max) =>
         && answer.BytesAnswer? && AnswersSerious(s, Reply(answer.result, t))
         && Delimited(s, Reply(answer.result, t), delim, Some(max), [], taken)
       case LineCall =>
         && answer.LineAnswer? && OneLine(taken, 10)
         && ((IsLine(answer.line, taken, utf8) && Serious(Errors(s.script)) == Serious(Errors(t.script)))
             || (answer.line.Failed? && answer.line.kind != Interrupted
                 && Serious(Errors(s.script)) == [answer.line.kind] + Serious(Errors(t.script))))
       case ToEndCall =>
         && answer.BytesAnswer? && AnswersSerious(s, Reply(answer.result, t))
         && (answer.result.Ok? ==> answer.result.value == taken && t.empties == s.empties + 1)
  }

  lemma ReadCallTakes(s: Buffered, handle: nat, max: nat, utf8: Str -> bool) returns (taken: Str)
    ensures var (answer, rest) := Step(s, ReadCall(handle, max), utf8);
            && Accounts(s, ReadCall(handle, max), answer, rest, taken, utf8)
            && answer.BytesAnswer? && (answer.result.Ok? <==> Available(s).Ok?)
            && (answer.result.Ok? ==>
                  answer.result.value == Front(Available(s).value, if max < 1_048_576 then max else 1_048_576))
  {
    ReadOnceMeans(s, Clamped(max));
    var r := ReadOnce(s, Clamped(max));
    hide ReadOnce;
    taken := if r.result.Ok? then r.result.value else [];
  }

  lemma StepTakes(s: Buffered, call: Call, utf8: Str -> bool) returns (taken: Str)
    ensures Accounts(s, call, Step(s, call, utf8).0, Step(s, call, utf8).1, taken, utf8)
  {
    match call
    case ReadCall(handle, max) =>
      taken := ReadCallTakes(s, handle, max, utf8);
    case ReadUntilCall(_, delim, max) =>
      taken := ReadUntilFrom(s, delim, Some(max), []);
      ReadUntilFails(s, delim, Some(max), []);
    case LineCall =>
      taken := ReadLineFails(s, utf8);
    case ToEndCall =>
      ReadToEndMeans(s);
      ReadToEndFails(s.(buf := []), s.buf);
      var r := Streams.ReadToEnd(s.(buf := []), s.buf);
      taken :| Takes(s, r.rest, taken) && (r.result.Ok? ==> r.result.value == taken)
               && r.rest.empties == s.empties + (if r.result.Ok? then 1 else 0);
  }

  lemma NothingConcat(s: Str)
    ensures Concat<Byte>([]) + s == s
  {
  }

  lemma TakenConcat(a: Str, b: Str, c: Str)
    ensures a + (b + c) == a + b + c
  {
  }

  lemma AccountsTakes(s: Buffered, call: Call, answer: Answer, t: Buffered, taken: Str, utf8: Str -> bool)
    requires Accounts(s, call, answer, t, taken, utf8)
    ensures Remaining(s) == taken + Remaining(t)
  {
  }

  /** What is left after the first `k` calls. */
  function After(s: Buffered, calls: seq<Call>, k: nat, utf8: Str -> bool): Buffered
    requires k <= |calls|
  {
    Run(s, calls[..k], utf8).1
  }

  lemma AfterInit(s: Buffered, calls: seq<Call>, k: nat, utf8: Str -> bool)
    requires k < |calls|
    ensures After(s, calls, k, utf8) == After(s, calls[..|calls| - 1], k, utf8)
  {
    assert calls[..|calls| - 1][..k] == calls[..k];
  }

  /** Over any run the calls take consecutive pieces of the input, in order and
      losing nothing, and each answers for its own piece as its kind of call
      does. */
  lemma {:induction false} RunConserves(s: Buffered, calls: seq<Call>, utf8: Str -> bool) returns (taken: seq<Str>)
    ensures var (answers, rest) := Run(s, calls, utf8);
            && |taken| == |answers| == |calls|
            && Remaining(s) == Concat(taken) + Remaining(rest)
            && forall k :: 0 <= k < |calls| ==>
                             Accounts(After(s, calls, k, utf8), calls[k], answers[k], After(s, calls, k + 1, utf8), taken[k], utf8)
  {
    hide Step, Remaining, Accounts, Concat;
    taken := [];
    if calls == [] {
      NothingConcat(Remaining(s));
    } else {
      var init, n := calls[..|calls| - 1], |calls| - 1;
      var before := RunConserves(s, init, utf8);
      var mid := Run(s, init, utf8).1;
      var last := StepTakes(mid, calls[n], utf8);
      taken := before + [last];
      assert calls[..|calls|] == calls;
      var (answers, rest) := Run(s, calls, utf8);
      forall k | 0 <= k < |calls|
        ensures Accounts(After(s, calls, k, utf8), calls[k], answers[k], After(s, calls, k + 1, utf8), taken[k], utf8)
      {
        AfterInit(s, calls, k, utf8);
        if k < n {
          AfterInit(s, calls, k + 1, utf8);
          assert calls[k] == init[k] && answers[k] == Run(s, init, utf8).0[k] && taken[k] == before[k];
        } else {
          assert init[..k] == init;
        }
      }
      ConcatLast(before, last);
      AccountsTakes(mid, calls[n], answers[n], rest, last, utf8);
      TakenConcat(Concat(before), last, Remaining(rest));
    }
  }
}
