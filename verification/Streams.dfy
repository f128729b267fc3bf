/** Buffered byte sources: what a fill, a bounded read, a delimited read and a
    read to the end do to the unread input. The state is a value here; the
    modules that follow keep it in objects. */
module Streams {
  import opened Text

  datatype ErrorKind = Interrupted | InvalidData | OtherKind

  /** One answer of the operating system to a read: bytes, possibly none, or
      an error. A finished script answers no bytes for ever. */
  datatype Event = Data(bytes: Str) | Fail(kind: ErrorKind)

  /** Bytes read ahead, the answers still to come, and how many source reads
      have answered no bytes. */
  datatype Buffered = Buffered(buf: Str, script: seq<Event>, empties: nat)

  datatype Reply<+T> = Reply(result: Result<T, ErrorKind>, rest: Buffered)

  /** Bytes the standard library's reader asks for at once. */
  const CAPACITY: nat := 8192

  function Joined(script: seq<Event>): Str {
    if script == [] then []
    else (match script[0] case Data(b) => b case Fail(_) => []) + Joined(script[1..])
  }

  /** The input nobody has taken yet. */
  function Remaining(s: Buffered): Str {
    s.buf + Joined(s.script)
  }

  /** A read of at most `size` bytes from the source itself. */
  function RawRead(s: Buffered, size: nat): Reply<Str> {
    if s.script == [] then Reply(Ok([]), s.(empties := s.empties + 1))
    else
      match s.script[0]
      case Fail(kind) => Reply(Err(kind), s.(script := s.script[1..]))
      case Data(b) =>
        var (got, rest) := if |b| <= size then (b, s.script[1..]) else (b[..size], [Data(b[size..])] + s.script[1..]);
        Reply(Ok(got), s.(script := rest, empties := if got == [] then s.empties + 1 else s.empties))
  }

  /** The buffered bytes, read from the source first when there are none. */
  function FillBuf(s: Buffered): Reply<Str> {
    if s.buf != [] then Reply(Ok(s.buf), s)
    else
      var r := RawRead(s, CAPACITY);
      match r.result
      case Err(_) => r
      case Ok(got) => Reply(Ok(got), r.rest.(buf := got))
  }

  function Consume(s: Buffered, n: nat): Buffered
    requires n <= |s.buf|
  {
    s.(buf := s.buf[n..])
  }

  /** A single read: straight from the source when the buffer is empty and the
      request is large, and from the buffer otherwise. */
  function ReadOnce(s: Buffered, size: nat): Reply<Str> {
    if s.buf == [] && size >= CAPACITY then RawRead(s, size)
    else
      var r := FillBuf(s);
      match r.result
      case Err(_) => r
      case Ok(got) =>
        var n := if |got| <= size then |got| else size;
        Reply(Ok(got[..n]), Consume(r.rest, n))
  }

  function Shown(got: Str, max: Option<nat>): Str {
    if max.Some? && max.value < |got| then got[..max.value] else got
  }

  function Less(max: Option<nat>, n: nat): Option<nat>
    requires max.Some? ==> n <= max.value
  {
    match max case None => None case Some(m) => Some(m - n)
  }

  function ScriptWork(script: seq<Event>): nat {
    if script == [] then 0
    else 1 + (match script[0] case Data(b) => |b| case Fail(_) => 0) + ScriptWork(script[1..])
  }

  /** What is left to do, for termination. */
  function Work(s: Buffered): nat {
    |s.buf| + ScriptWork(s.script)
  }

  lemma FillWork(s: Buffered)
    ensures FillBuf(s).result.Ok? ==> FillBuf(s).rest.buf == FillBuf(s).result.value
    ensures Work(FillBuf(s).rest) <= Work(s)
    ensures FillBuf(s).result.Err? ==> Work(FillBuf(s).rest) < Work(s)
  {
    if s.buf == [] && s.script != [] {
      assert ScriptWork(s.script) == 1 + (match s.script[0] case Data(b) => |b| case Fail(_) => 0) + ScriptWork(s.script[1..]);
      if s.script[0].Data? && |s.script[0].bytes| > CAPACITY {
        var tail := [Data(s.script[0].bytes[CAPACITY..])] + s.script[1..];
        assert tail[1..] == s.script[1..];
      }
    }
  }

  /** Read up to and including `delim`, at most `max` bytes when there is a
      cap. An interrupted fill is tried again; any other error loses what was
      read so far. */
  function ReadUntil(s: Buffered, delim: Byte, max: Option<nat>, out: Str): Reply<Str>
    decreases Work(s)
  {
    if max == Some(0) then Reply(Ok(out), s)
    else
      var r := FillBuf(s);
      FillWork(s);
      match r.result
      case Err(kind) => if kind == Interrupted then ReadUntil(r.rest, delim, max, out) else Reply(Err(kind), r.rest)
      case Ok(got) =>
        if got == [] then Reply(Ok(out), r.rest)
        else
          var shown := Shown(got, max);
          var n := IndexOf(shown, delim);
          if n < |shown| then Reply(Ok(out + shown[..n + 1]), Consume(r.rest, n + 1))
          else ReadUntil(Consume(r.rest, |shown|), delim, Less(max, |shown|), out + shown)
  }

  /** Everything up to the first read that answers no bytes. */
  function ReadToEnd(s: Buffered, out: Str): Reply<Str>
    requires s.buf == []
    decreases |s.script|
  {
    if s.script == [] then Reply(Ok(out), s.(empties := s.empties + 1))
    else
      var next := s.(script := s.script[1..]);
      match s.script[0]
      case Fail(kind) => if kind == Interrupted then ReadToEnd(next, out) else Reply(Err(kind), next)
      case Data(b) =>
        if b == [] then Reply(Ok(out), next.(empties := s.empties + 1)) else ReadToEnd(next, out + b)
  }

  // ----- Taking a prefix -----

  /** `taken` is what a step took from the front of the unread input. */
  ghost predicate Takes(s: Buffered, t: Buffered, taken: Str) {
    Remaining(s) == taken + Remaining(t)
  }

  lemma RawReadTakes(s: Buffered, size: nat)
    requires s.buf == []
    ensures var r := RawRead(s, size);
            && r.rest.buf == []
            && (r.result.Ok? ==> Takes(s, r.rest, r.result.value) && |r.result.value| <= size)
            && (r.result.Err? ==> Takes(s, r.rest, []) && r.rest.empties == s.empties)
            && (r.result.Ok? ==> r.rest.empties == s.empties + (if r.result.value == [] then 1 else 0))
  {
    if s.script != [] && s.script[0].Data? && |s.script[0].bytes| > size {
      var b := s.script[0].bytes;
      var tail := [Data(b[size..])] + s.script[1..];
      assert tail[1..] == s.script[1..];
      assert b + Joined(s.script[1..]) == b[..size] + (b[size..] + Joined(s.script[1..]));
    }
  }

  /** A fill takes nothing: it moves bytes from the source to the buffer, and
      counts an empty read exactly when it answers no bytes. */
  lemma FillTakes(s: Buffered)
    ensures var r := FillBuf(s);
            && Takes(s, r.rest, [])
            && (r.result.Ok? ==> r.rest.buf == r.result.value)
            && (r.result.Ok? ==> r.rest.empties == s.empties + (if r.result.value == [] then 1 else 0))
            && (r.result.Err? ==> r.rest.empties == s.empties)
  {
    if s.buf == [] { RawReadTakes(s, CAPACITY); }
  }

  lemma ConsumeTakes(s: Buffered, n: nat)
    requires n <= |s.buf|
    ensures Takes(s, Consume(s, n), s.buf[..n])
  {
    assert s.buf == s.buf[..n] + s.buf[n..];
  }

  lemma TakesCompose(s: Buffered, t: Buffered, u: Buffered, a: Str, b: Str)
    requires Takes(s, t, a) && Takes(t, u, b)
    ensures Takes(s, u, a + b)
  {
    assert a + (b + Remaining(u)) == a + b + Remaining(u);
  }

  /** What the source has failed with, in order. */
  function Errors(script: seq<Event>): seq<ErrorKind> {
    if script == [] then []
    else (match script[0] case Data(_) => [] case Fail(kind) => [kind]) + Errors(script[1..])
  }

  /** An answer from a source that still had to fail as `s` has: an error is the
      first of its failures, and a success leaves them all. */
  ghost predicate AnswersFailure<T>(s: Buffered, r: Reply<T>) {
    match r.result
    case Ok(_) => Errors(s.script) == Errors(r.rest.script)
    case Err(kind) => Errors(s.script) == [kind] + Errors(r.rest.script)
  }

  lemma RawReadFailure(s: Buffered, size: nat)
    ensures AnswersFailure(s, RawRead(s, size))
  {
    if s.script != [] && s.script[0].Data? && |s.script[0].bytes| > size {
      var tail := [Data(s.script[0].bytes[size..])] + s.script[1..];
      assert tail[1..] == s.script[1..];
    }
  }

  lemma FillFailure(s: Buffered)
    ensures AnswersFailure(s, FillBuf(s))
  {
    if s.buf == [] { RawReadFailure(s, CAPACITY); }
  }

  /** What one read can answer without waiting twice: the bytes read ahead, or
      else the source's next answer. */
  function Available(s: Buffered): Result<Str, ErrorKind> {
    if s.buf != [] || s.script == [] then Ok(s.buf)
    else match s.script[0] case Data(b) => Ok(b) case Fail(kind) => Err(kind)
  }

  /** At most `size` bytes from the front. */
  function Front(b: Str, size: nat): Str {
    if |b| <= size then b else b[..size]
  }

  /** A read answers what is available, as far as it was asked for, and exactly
      the bytes it takes; it answers none of the bytes asked for only when the
      source had none. */
  lemma ReadOnceMeans(s: Buffered, size: nat)
    ensures var r := ReadOnce(s, size);
            && (r.result.Ok? <==> Available(s).Ok?)
            && (r.result.Ok? ==> r.result.value == Front(Available(s).value, size))
            && (r.result.Ok? ==> Takes(s, r.rest, r.result.value) && |r.result.value| <= size)
            && (r.result.Ok? && size > 0 ==>
                  r.rest.empties == s.empties + (if r.result.value == [] then 1 else 0))
            && (r.result.Err? ==> r.result.error == Available(s).error && Takes(s, r.rest, []))
            && AnswersFailure(s, r)
  {
    if s.buf == [] && size >= CAPACITY {
      RawReadTakes(s, size);
      RawReadFailure(s, size);
    } else {
      FillTakes(s);
      FillFailure(s);
      var r := FillBuf(s);
      if r.result.Ok? {
        var n := if |r.result.value| <= size then |r.result.value| else size;
        ConsumeTakes(r.rest, n);
        TakesCompose(s, r.rest, Consume(r.rest, n), [], r.result.value[..n]);
        assert [] + r.result.value[..n] == r.result.value[..n];
      }
    }
  }

  /** Why a delimited read stopped: at its delimiter, at its cap, or because
      the source had no bytes. */
  ghost predicate StopsAt(line: Str, delim: Byte, max: Option<nat>) {
    || (line != [] && line[|line| - 1] == delim)
    || (max.Some? && |line| == max.value)
  }

  /** No delimiter before the last byte. */
  predicate OneLine(line: Str, delim: Byte) {
    line == [] || Free(line[..|line| - 1], delim)
  }

  /** `line` is what a delimited read took, and `r` its answer. */
  ghost predicate Delimited(s: Buffered, r: Reply<Str>, delim: Byte, max: Option<nat>, out: Str, line: Str) {
    && Takes(s, r.rest, line) && OneLine(line, delim)
    && (max.Some? ==> |line| <= max.value)
    && (r.result.Ok? ==> r.result.value == out + line)
    && (r.result.Ok? ==> r.rest.empties == s.empties + (if StopsAt(line, delim, max) then 0 else 1))
    && (r.result.Err? ==> r.rest.empties == s.empties)
  }

  lemma DelimitedNothing(s: Buffered, r: Reply<Str>, delim: Byte, max: Option<nat>, out: Str)
    requires Takes(s, r.rest, []) && (r.result.Ok? ==> r.result.value == out)
    requires r.rest.empties == s.empties + (if r.result.Ok? && !StopsAt([], delim, max) then 1 else 0)
    ensures Delimited(s, r, delim, max, out, [])
  {
    assert out + [] == out;
  }

  lemma DelimitedAfter(s: Buffered, t: Buffered, r: Reply<Str>, delim: Byte, max: Option<nat>, out: Str, line: Str)
    requires Takes(s, t, []) && t.empties == s.empties && Delimited(t, r, delim, max, out, line)
    ensures Delimited(s, r, delim, max, out, line)
  {
    TakesCompose(s, t, r.rest, [], line);
    assert [] + line == line;
  }

  lemma TakesNothing(s: Buffered)
    ensures Takes(s, s, [])
  {
    assert [] + Remaining(s) == Remaining(s);
  }

  lemma ConsumeWork(s: Buffered, n: nat)
    requires 0 < n <= |s.buf|
    ensures Work(Consume(s, n)) < Work(s)
  {
  }

  /** A fill that holds the delimiter. */
  lemma LastFill(s: Buffered, filled: Buffered, delim: Byte, max: Option<nat>, out: Str, n: nat)
    requires Takes(s, filled, []) && filled.empties == s.empties
    requires n == IndexOf(Shown(filled.buf, max), delim) < |Shown(filled.buf, max)|
    ensures var line := Shown(filled.buf, max)[..n + 1];
            Delimited(s, Reply(Ok(out + line), Consume(filled, n + 1)), delim, max, out, line)
  {
    var shown := Shown(filled.buf, max);
    var line := shown[..n + 1];
    ConsumeTakes(filled, n + 1);
    assert line == filled.buf[..n + 1] && line[..n] == shown[..n];
    TakesCompose(s, filled, Consume(filled, n + 1), [], line);
    assert [] + line == line;
  }

  lemma LineConcat(shown: Str, more: Str, delim: Byte)
    requires Free(shown, delim) && shown != [] && OneLine(more, delim)
    ensures OneLine(shown + more, delim)
    ensures (shown + more)[|shown + more| - 1] == delim <==> more != [] && more[|more| - 1] == delim
  {
    var line := shown + more;
    if more == [] {
      assert line == shown;
    } else {
      assert line[..|line| - 1] == shown + more[..|more| - 1];
    }
  }

  /** A fill without the delimiter, and what the rest of the read took. */
  lemma NextFill(s: Buffered, filled: Buffered, delim: Byte, max: Option<nat>, out: Str, more: Str, r: Reply<Str>)
    requires Takes(s, filled, []) && filled.empties == s.empties && filled.buf != [] && max != Some(0)
    requires var shown := Shown(filled.buf, max);
             IndexOf(shown, delim) == |shown|
             && Delimited(Consume(filled, |shown|), r, delim, Less(max, |shown|), out + shown, more)
    ensures Delimited(s, r, delim, max, out, Shown(filled.buf, max) + more)
  {
    var shown := Shown(filled.buf, max);
    var next := Consume(filled, |shown|);
    ConsumeTakes(filled, |shown|);
    assert filled.buf[..|shown|] == shown == shown[..|shown|];
    TakesCompose(s, filled, next, [], shown);
    assert [] + shown == shown;
    TakesCompose(s, next, r.rest, shown, more);
    assert (out + shown) + more == out + (shown + more);
    LineConcat(shown, more, delim);
  }

  lemma {:induction false} ReadUntilFrom(s: Buffered, delim: Byte, max: Option<nat>, out: Str) returns (line: Str)
    ensures Delimited(s, ReadUntil(s, delim, max, out), delim, max, out, line)
    decreases Work(s)
  {
    hide FillBuf, Takes, Delimited, Work;
    line := [];
    var answer := ReadUntil(s, delim, max, out);
    if max == Some(0) {
      TakesNothing(s);
      DelimitedNothing(s, answer, delim, max, out);
    } else {
      var r := FillBuf(s);
      FillWork(s);
      FillTakes(s);
      if r.result == Err(Interrupted) {
        line := ReadUntilFrom(r.rest, delim, max, out);
        DelimitedAfter(s, r.rest, answer, delim, max, out, line);
      } else if r.result.Err? || r.result.value == [] {
        DelimitedNothing(s, answer, delim, max, out);
      } else {
        var shown := Shown(r.result.value, max);
        var n := IndexOf(shown, delim);
        if n < |shown| {
          line := shown[..n + 1];
          LastFill(s, r.rest, delim, max, out, n);
        } else {
          ConsumeWork(r.rest, |shown|);
          var more := ReadUntilFrom(Consume(r.rest, |shown|), delim, Less(max, |shown|), out + shown);
          line := shown + more;
          NextFill(s, r.rest, delim, max, out, more, answer);
        }
      }
    }
  }

  /** The failures that are not just interruptions. */
  function Serious(kinds: seq<ErrorKind>): seq<ErrorKind> {
    if kinds == [] then [] else (if kinds[0] == Interrupted then [] else [kinds[0]]) + Serious(kinds[1..])
  }

  /** As above, for a call that tries again after an interruption. */
  ghost predicate AnswersSerious<T>(s: Buffered, r: Reply<T>) {
    match r.result
    case Ok(_) => Serious(Errors(s.script)) == Serious(Errors(r.rest.script))
    case Err(kind) => kind != Interrupted && Serious(Errors(s.script)) == [kind] + Serious(Errors(r.rest.script))
  }

  lemma SeriousCons(kind: ErrorKind, rest: seq<ErrorKind>)
    ensures Serious([kind] + rest) == (if kind == Interrupted then [] else [kind]) + Serious(rest)
  {
    assert ([kind] + rest)[1..] == rest;
  }

  /** A delimited read answers the first failure of its source that is no
      interruption, and only then an error. */
  lemma {:induction false} ReadUntilFails(s: Buffered, delim: Byte, max: Option<nat>, out: Str)
    ensures AnswersSerious(s, ReadUntil(s, delim, max, out))
    decreases Work(s)
  {
    hide FillBuf, Work, Serious, Errors;
    if max != Some(0) {
      var r := FillBuf(s);
      FillWork(s);
      FillFailure(s);
      if r.result.Err? {
        SeriousCons(r.result.error, Errors(r.rest.script));
        if r.result.error == Interrupted { ReadUntilFails(r.rest, delim, max, out); }
      } else if r.result.value != [] {
        var shown := Shown(r.result.value, max);
        if IndexOf(shown, delim) == |shown| {
          ConsumeWork(r.rest, |shown|);
          ReadUntilFails(Consume(r.rest, |shown|), delim, Less(max, |shown|), out + shown);
        }
      }
    }
  }

  lemma {:induction false} ReadToEndFails(s: Buffered, out: Str)
    requires s.buf == []
    ensures AnswersSerious(s, ReadToEnd(s, out))
    decreases |s.script|
  {
    if s.script != [] {
      var next := s.(script := s.script[1..]);
      match s.script[0]
      case Fail(kind) =>
        SeriousCons(kind, Errors(next.script));
        if kind == Interrupted { ReadToEndFails(next, out); }
      case Data(b) =>
        assert Errors(s.script) == Errors(next.script);
        if b != [] { ReadToEndFails(next, out + b); }
    }
  }

  /** A delimited read takes a prefix of the unread input that holds the
      delimiter at most as its last byte and fits the cap; a success answers
      exactly that prefix. It makes one empty source read when it ends at the
      end of input and none when it stops at its delimiter or its cap. */
  lemma ReadUntilMeans(s: Buffered, delim: Byte, max: Option<nat>)
    ensures exists line ::
              Delimited(s, ReadUntil(s, delim, max, []), delim, max, [], line)
              && (ReadUntil(s, delim, max, []).result.Ok? ==> ReadUntil(s, delim, max, []).result.value == line)
  {
    var line := ReadUntilFrom(s, delim, max, []);
    assert [] + line == line;
  }

  lemma {:induction false} ReadToEndFrom(s: Buffered, out: Str) returns (taken: Str)
    requires s.buf == []
    ensures var r := ReadToEnd(s, out);
            Takes(s, r.rest, taken) && (r.result.Ok? ==> r.result.value == out + taken)
            && r.rest.empties == s.empties + (if r.result.Ok? then 1 else 0)
    decreases |s.script|
  {
    taken := [];
    assert out + [] == out;
    if s.script != [] {
      var next := s.(script := s.script[1..]);
      match s.script[0] {
        case Fail(kind) =>
          assert Takes(s, next, []);
          if kind == Interrupted {
            taken := ReadToEndFrom(next, out);
            TakesCompose(s, next, ReadToEnd(s, out).rest, [], taken);
            assert [] + taken == taken;
          }
        case Data(b) =>
          assert Takes(s, next, b);
          if b != [] {
            var more := ReadToEndFrom(next, out + b);
            taken := b + more;
            TakesCompose(s, next, ReadToEnd(s, out).rest, b, more);
            assert out + b + more == out + taken;
          }
      }
    }
  }

  /** A read to the end takes a prefix of the unread input and a success
      answers exactly that prefix. */
  lemma ReadToEndMeans(s: Buffered)
    ensures var r := ReadToEnd(s.(buf := []), s.buf);
            exists taken ::
              Takes(s, r.rest, taken) && (r.result.Ok? ==> r.result.value == taken)
              && r.rest.empties == s.empties + (if r.result.Ok? then 1 else 0)
  {
    var empty := s.(buf := []);
    var more := ReadToEndFrom(empty, s.buf);
    assert Takes(s, empty, s.buf) by { assert [] + Joined(s.script) == Joined(s.script); }
    TakesCompose(s, empty, ReadToEnd(empty, s.buf).rest, s.buf, more);
  }

  // ----- Sources that only deliver -----

  /** Bytes in any chunks, and interruptions; no bytes only at the end. */
  ghost predicate Regular(script: seq<Event>) {
    forall k :: 0 <= k < |script| ==> script[k] == Fail(Interrupted) || (script[k].Data? && script[k].bytes != [])
  }

  /** A text through its first delimiter, or all of it. */
  function Through(text: Str, delim: Byte): Str {
    var n := IndexOf(text, delim);
    text[..if n < |text| then n + 1 else |text|]
  }

  /** The same, cut at `max` bytes. */
  function FirstPiece(text: Str, delim: Byte, max: Option<nat>): Str {
    Shown(Through(text, delim), max)
  }

  lemma RegularFill(s: Buffered)
    requires Regular(s.script)
    ensures var r := FillBuf(s);
            && Regular(r.rest.script)
            && (r.result.Err? ==> r.result.error == Interrupted)
            && (r.result.Ok? && r.result.value == [] ==> Remaining(r.rest) == [])
  {
    if s.buf == [] && s.script != [] {
      var e := s.script[0];
      assert e == Fail(Interrupted) || (e.Data? && e.bytes != []);
      assert forall k :: 0 <= k < |s.script[1..]| ==> s.script[1..][k] == s.script[k + 1];
    }
  }

  lemma StopsConcat(shown: Str, more: Str, delim: Byte, max: Option<nat>)
    requires max.Some? ==> |shown| <= max.value
    requires StopsAt(more, delim, Less(max, |shown|))
    ensures StopsAt(shown + more, delim, max)
  {
    if more != [] { assert (shown + more)[|shown + more| - 1] == more[|more| - 1]; }
  }

  /** Without errors a delimited read succeeds, and if it stops at neither its
      delimiter nor its cap then no input is left. */
  lemma {:induction false} RegularRead(s: Buffered, delim: Byte, max: Option<nat>, out: Str) returns (line: Str)
    requires Regular(s.script)
    ensures var r := ReadUntil(s, delim, max, out);
            && r.result == Ok(out + line) && Regular(r.rest.script)
            && (StopsAt(line, delim, max) || Remaining(r.rest) == [])
    decreases Work(s)
  {
    hide FillBuf, RawRead, Regular, Remaining, Work;
    line := [];
    assert out + [] == out;
    if max != Some(0) {
      var r := FillBuf(s);
      FillWork(s);
      RegularFill(s);
      if r.result.Err? {
        line := RegularRead(r.rest, delim, max, out);
      } else if r.result.value != [] {
        var shown := Shown(r.result.value, max);
        var n := IndexOf(shown, delim);
        if n < |shown| {
          line := shown[..n + 1];
        } else {
          ConsumeWork(r.rest, |shown|);
          var more := RegularRead(Consume(r.rest, |shown|), delim, Less(max, |shown|), out + shown);
          line := shown + more;
          assert out + shown + more == out + line;
          if StopsAt(more, delim, Less(max, |shown|)) { StopsConcat(shown, more, delim, max); }
        }
      }
    }
  }

  lemma PrefixOfFirstPiece(text: Str, line: Str, delim: Byte, max: Option<nat>)
    requires line <= text && (max.Some? ==> |line| <= max.value) && OneLine(line, delim)
    requires StopsAt(line, delim, max) || line == text
    ensures line == FirstPiece(text, delim, max)
  {
    var n := IndexOf(text, delim);
    assert forall i :: 0 <= i < |line| - 1 ==> line[i] == line[..|line| - 1][i] && line[i] != delim;
    assert forall i :: 0 <= i < n ==> text[i] == text[..n][i] && text[i] != delim;
  }

  /** On such a source a delimited read answers the text through its first
      delimiter, cut at the cap, however it arrives. */
  lemma ReadUntilIsFirstPiece(s: Buffered, delim: Byte, max: Option<nat>)
    requires Regular(s.script)
    ensures var r := ReadUntil(s, delim, max, []);
            && r.result == Ok(FirstPiece(Remaining(s), delim, max)) && Regular(r.rest.script)
            && Remaining(s) == FirstPiece(Remaining(s), delim, max) + Remaining(r.rest)
  {
    hide ReadUntil, Regular, Remaining, FirstPiece;
    var r := ReadUntil(s, delim, max, []);
    var line := ReadUntilFrom(s, delim, max, []);
    var same := RegularRead(s, delim, max, []);
    assert [] + line == line && [] + same == same;
    if Remaining(r.rest) == [] { assert line == Remaining(s); }
    PrefixOfFirstPiece(Remaining(s), line, delim, max);
  }

  /** On such a source a read to the end answers all that is left. */
  lemma {:induction false} RegularToEnd(s: Buffered, out: Str)
    requires s.buf == [] && Regular(s.script)
    ensures ReadToEnd(s, out).result == Ok(out + Joined(s.script)) && Remaining(ReadToEnd(s, out).rest) == []
    decreases |s.script|
  {
    assert out + [] == out;
    if s.script != [] {
      var next := s.(script := s.script[1..]);
      assert s.script[0] == Fail(Interrupted) || (s.script[0].Data? && s.script[0].bytes != []);
      assert forall k :: 0 <= k < |next.script| ==> next.script[k] == s.script[k + 1];
      match s.script[0]
      case Fail(kind) =>
        RegularToEnd(next, out);
        assert [] + Joined(next.script) == Joined(next.script);
      case Data(b) =>
        RegularToEnd(next, out + b);
        assert out + b + Joined(next.script) == out + (b + Joined(next.script));
    }
  }
}
