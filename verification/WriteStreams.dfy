/** Output streams over one file: offset streams share the open file's cursor,
    append streams write at the end. */
module WriteStreams {
  import opened Text

  datatype IoError = Interrupted | Espipe | InvalidInput | WriteZero | OtherError

  /** The kernel's answer to a write: at most this many bytes, or an error. A
      finished script takes everything. */
  datatype Outcome = Limit(n: nat) | Refuse(error: IoError)

  /** An open file description: what `dup` and `fork` share. */
  datatype Desc = Desc(cursor: nat, append: bool)

  /** One file and its open descriptions. A pipe is not seekable. */
  datatype World = World(contents: Str, seekable: bool, outcomes: seq<Outcome>, descs: seq<Desc>)

  const MAX_OFFSET: nat := 0x7FFF_FFFF_FFFF_FFFF

  /** `data` written over `contents` from `at`, past a hole of zeros if need be. */
  function Put(contents: Str, at: nat, data: Str): Str {
    if at > |contents| then contents + Repeat<Byte>(0, at - |contents|) + data
    else contents[..at] + data + (if at + |data| < |contents| then contents[at + |data|..] else [])
  }

  /** Where a write through description `d` lands. */
  function Landing(w: World, d: nat): nat
    requires d < |w.descs|
  {
    if w.descs[d].append || !w.seekable then |w.contents| else w.descs[d].cursor
  }

  function SetCursor(w: World, d: nat, at: nat): World
    requires d < |w.descs|
  {
    w.(descs := w.descs[d := w.descs[d].(cursor := at)])
  }

  datatype Written<+T> = Written(result: Result<T, IoError>, world: World)

  /** write(2). */
  function RawWrite(w: World, d: nat, buf: Str): Written<nat>
    requires d < |w.descs|
  {
    var outcome := if w.outcomes == [] then Limit(|buf|) else w.outcomes[0];
    var next := w.(outcomes := if w.outcomes == [] then [] else w.outcomes[1..]);
    match outcome
    case Refuse(error) => Written(Err(error), next)
    case Limit(n) =>
      var m := if n <= |buf| then n else |buf|;
      if m == 0 then Written(Ok(0), next)
      else
        var at := Landing(w, d);
        var put := next.(contents := Put(w.contents, at, buf[..m]));
        Written(Ok(m), if w.seekable then SetCursor(put, d, at + m) else put)
  }

  function SeekStart(w: World, d: nat, offset: nat): Written<()>
    requires d < |w.descs|
  {
    if !w.seekable then Written(Err(Espipe), w)
    else if offset > MAX_OFFSET then Written(Err(InvalidInput), w)
    else Written(Ok(()), SetCursor(w, d, offset))
  }

  function SeekEnd(w: World, d: nat): Written<()>
    requires d < |w.descs|
  {
    if !w.seekable then Written(Err(Espipe), w) else Written(Ok(()), SetCursor(w, d, |w.contents|))
  }

  /** A stream owns a duplicate of a description. `fd` is what a child may be
      handed in its place. */
  datatype Stream = Stream(desc: nat, seeksEnd: bool, fd: Option<nat>)

  /** One write through a stream. */
  function StreamWrite(w: World, s: Stream, buf: Str): Written<nat>
    requires s.desc < |w.descs|
  {
    if s.seeksEnd then
      var sought := SeekEnd(w, s.desc);
      if sought.result.Err? && sought.result.error != Espipe then Written(Err(sought.result.error), sought.world)
      else RawWrite(sought.world, s.desc, buf)
    else RawWrite(w, s.desc, buf)
  }

  lemma StreamWriteShape(w: World, s: Stream, buf: Str)
    requires s.desc < |w.descs|
    ensures var r := StreamWrite(w, s, buf);
            && |r.world.descs| == |w.descs| && r.world.seekable == w.seekable
            && |r.world.outcomes| <= |w.outcomes|
            && (forall d :: 0 <= d < |w.descs| ==> r.world.descs[d].append == w.descs[d].append)
            && (forall d :: 0 <= d < |w.descs| && d != s.desc ==> r.world.descs[d] == w.descs[d])
            && (r.result.Ok? ==> r.result.value <= |buf|)
            && (r.result == Err(Interrupted) ==> |r.world.outcomes| < |w.outcomes|)
  {
  }

  /** The library's loop over short writes. */
  function WriteWhole(w: World, s: Stream, buf: Str): Written<()>
    requires s.desc < |w.descs|
    decreases |buf| + |w.outcomes|
  {
    if buf == [] then Written(Ok(()), w)
    else
      var r := StreamWrite(w, s, buf);
      StreamWriteShape(w, s, buf);
      match r.result
      case Err(error) => if error == Interrupted then WriteWhole(r.world, s, buf) else Written(Err(error), r.world)
      case Ok(n) => if n == 0 then Written(Err(WriteZero), r.world) else WriteWhole(r.world, s, buf[n..])
  }

  function MakeOffsetStream(w: World, d: nat, offset: nat): Written<Stream>
    requires d < |w.descs|
  {
    var sought := SeekStart(w, d, offset);
    if sought.result.Err? && sought.result.error != Espipe then Written(Err(sought.result.error), sought.world)
    else Written(Ok(Stream(d, false, Some(d))), sought.world)
  }

  function MakeAppendStream(w: World, d: nat): Written<Stream>
    requires d < |w.descs|
  {
    Written(Ok(if w.descs[d].append then Stream(d, false, Some(d)) else Stream(d, true, None)), w)
  }

  // ----- In place -----

  class File {
    const seekable: bool
    var contents: Str
    var outcomes: seq<Outcome>

    constructor (contents: Str, seekable: bool, outcomes: seq<Outcome>)
      ensures this.contents == contents && this.seekable == seekable && this.outcomes == outcomes
    {
      this.contents, this.seekable, this.outcomes := contents, seekable, outcomes;
    }
  }

  class OutputStream {
    const open: OpenFile
    const seeksEnd: bool
    const handsOff: bool

    constructor (open: OpenFile, seeksEnd: bool, handsOff: bool)
      ensures this.open == open && this.seeksEnd == seeksEnd && this.handsOff == handsOff
    {
      this.open, this.seeksEnd, this.handsOff := open, seeksEnd, handsOff;
    }

    function Shape(): Stream {
      Stream(0, seeksEnd, if handsOff then Some(0) else None)
    }

    method Write(buf: Str) returns (r: Result<nat, IoError>)
      modifies open, open.file
      ensures Written(r, open.View()) == StreamWrite(old(open.View()), Shape(), buf)
    {
      if seeksEnd {
        var sought := open.SeekToEnd();
        if sought.Err? && sought.error != Espipe { return Err(sought.error); }
      }
      r := open.Write(buf);
    }

    method WriteAll(data: Str) returns (r: Result<(), IoError>)
      modifies open, open.file
      ensures Written(r, open.View()) == WriteWhole(old(open.View()), Shape(), data)
    {
      var buf := data;
      while buf != []
        invariant WriteWhole(open.View(), Shape(), buf) ==
                  WriteWhole(old(open.View()), Shape(), data)
        decreases |buf| + |open.file.outcomes|
      {
        StreamWriteShape(open.View(), Shape(), buf);
        var n := Write(buf);
        if n == Err(Interrupted) { continue; }
        if n.Err? { return Err(n.error); }
        if n.value == 0 { return Err(WriteZero); }
        buf := buf[n.value..];
      }
      r := Ok(());
    }
  }

  class OpenFile {
    const file: File
    var cursor: nat
    var append: bool

    constructor (file: File, append: bool)
      ensures this.file == file && cursor == 0 && this.append == append
    {
      this.file, cursor, this.append := file, 0, append;
    }

    /** The file as this description sees it. */
    ghost function View(): World
      reads this, file
    {
      World(file.contents, file.seekable, file.outcomes, [Desc(cursor, append)])
    }

    method Write(buf: Str) returns (r: Result<nat, IoError>)
      modifies this, file
      ensures Written(r, View()) == RawWrite(old(View()), 0, buf)
    {
      var outcome := Limit(|buf|);
      if file.outcomes != [] {
        outcome := file.outcomes[0];
        file.outcomes := file.outcomes[1..];
      }
      if outcome.Refuse? { return Err(outcome.error); }
      var m := if outcome.n <= |buf| then outcome.n else |buf|;
      if m > 0 {
        var at := if append || !file.seekable then |file.contents| else cursor;
        file.contents := Put(file.contents, at, buf[..m]);
        if file.seekable { cursor := at + m; }
      }
      r := Ok(m);
    }

    method SeekToEnd() returns (r: Result<(), IoError>)
      modifies this
      ensures Written(r, View()) == SeekEnd(old(View()), 0)
    {
      if !file.seekable { return Err(Espipe); }
      cursor := |file.contents|;
      r := Ok(());
    }

    method SeekTo(offset: nat) returns (r: Result<(), IoError>)
      modifies this
      ensures Written(r, View()) == SeekStart(old(View()), 0, offset)
      ensures append == old(append) && cursor == if r.Ok? then offset else old(cursor)
    {
      if !file.seekable { return Err(Espipe); }
      if offset > MAX_OFFSET { return Err(InvalidInput); }
      cursor := offset;
      r := Ok(());
    }

    method WriteViaStream(offset: nat) returns (r: Result<OutputStream, IoError>)
      modifies this
      ensures r.Ok? ==> fresh(r.value) && r.value.open == this && !r.value.seeksEnd && r.value.handsOff
      ensures r.Err? <==> file.seekable && offset > 0x7FFF_FFFF_FFFF_FFFF
      ensures append == old(append) && cursor == if r.Ok? && file.seekable then offset else old(cursor)
      ensures var spec := MakeOffsetStream(old(View()), 0, offset);
              View() == spec.world && (if r.Ok? then spec.result == Ok(r.value.Shape()) else spec.result == Err(r.error))
    {
      var sought := SeekTo(offset);
      if sought.Err? && sought.error != Espipe { return Err(sought.error); }
      var s := new OutputStream(this, false, true);
      r := Ok(s);
    }

    method AppendViaStream() returns (s: OutputStream)
      ensures fresh(s) && s.open == this && s.seeksEnd == !append && s.handsOff == append
      ensures MakeAppendStream(View(), 0) == Written(Ok(s.Shape()), View())
    {
      if append { s := new OutputStream(this, false, true); } else { s := new OutputStream(this, true, false); }
    }
  }

  // ----- Where writes land -----

  /** Writing at a position replaces the bytes from there, keeps the others,
      and fills a hole with zeros. */
  lemma PutMeans(contents: Str, at: nat, data: Str)
    ensures var p := Put(contents, at, data);
            && |p| == (if at + |data| > |contents| then at + |data| else |contents|)
            && p[at..at + |data|] == data
            && (forall i :: 0 <= i < |p| && i < at ==> p[i] == if i < |contents| then contents[i] else 0)
            && (forall i :: at + |data| <= i < |p| ==> i < |contents| && p[i] == contents[i])
  {
  }

  /** A stream whose writes land at the end: its description is in append mode,
      it seeks there first, or the file has no positions. */
  predicate Appends(w: World, s: Stream) {
    s.desc < |w.descs| && (w.descs[s.desc].append || s.seeksEnd || !w.seekable)
  }

  lemma AppendOnce(w: World, s: Stream, buf: Str)
    requires Appends(w, s)
    ensures var r := StreamWrite(w, s, buf);
            && Appends(r.world, s)
            && r.world.contents == w.contents + (if r.result.Ok? then buf[..r.result.value] else [])
  {
    StreamWriteShape(w, s, buf);
    var v := if s.seeksEnd then SeekEnd(w, s.desc).world else w;
    assert Landing(v, s.desc) == |w.contents|;
  }

  /** A write through a stream that appends only adds to the end of the file, a
      first piece of the data, and all of it on success. */
  lemma {:induction false} AppendKeepsContents(w: World, s: Stream, buf: Str) returns (n: nat)
    requires Appends(w, s)
    ensures var r := WriteWhole(w, s, buf);
            && n <= |buf| && r.world.contents == w.contents + buf[..n]
            && (r.result.Ok? ==> n == |buf|) && Appends(r.world, s)
    decreases |buf| + |w.outcomes|
  {
    n := 0;
    if buf != [] {
      var r := StreamWrite(w, s, buf);
      StreamWriteShape(w, s, buf);
      AppendOnce(w, s, buf);
      if r.result == Err(Interrupted) {
        n := AppendKeepsContents(r.world, s, buf);
      } else if r.result.Ok? && r.result.value > 0 {
        var m := r.result.value;
        var k := AppendKeepsContents(r.world, s, buf[m..]);
        n := m + k;
        assert w.contents + buf[..m] + buf[m..][..k] == w.contents + buf[..n];
      }
    }
  }

  lemma PutAt(contents: Str, at: nat, data: Str, i: nat)
    requires i < |Put(contents, at, data)|
    ensures at <= i < at + |data| ==> Put(contents, at, data)[i] == data[i - at]
    ensures i < at ==> Put(contents, at, data)[i] == if i < |contents| then contents[i] else 0
    ensures at + |data| <= i ==> i < |contents| && Put(contents, at, data)[i] == contents[i]
  {
    PutMeans(contents, at, data);
    hide Put;
    if at <= i < at + |data| { assert Put(contents, at, data)[at..at + |data|][i - at] == data[i - at]; }
  }

  /** Two writes one after the other are one write of both. */
  lemma PutTwice(contents: Str, at: nat, x: Str, y: Str)
    requires x != []
    ensures Put(Put(contents, at, x), at + |x|, y) == Put(contents, at, x + y)
  {
    hide Put;
    PutMeans(contents, at, x);
    var p := Put(contents, at, x);
    PutMeans(p, at + |x|, y);
    PutMeans(contents, at, x + y);
    forall i | 0 <= i < |Put(contents, at, x + y)|
      ensures Put(p, at + |x|, y)[i] == Put(contents, at, x + y)[i]
    {
      PutAt(p, at + |x|, y, i);
      PutAt(contents, at, x + y, i);
      if i < |p| { PutAt(contents, at, x, i); }
    }
  }

  /** What the file is after `buf` was written at the cursor of `d`. */
  predicate WroteAt(w: World, d: nat, buf: Str, v: World)
    requires d < |w.descs|
  {
    && v.contents == (if buf == [] then w.contents else Put(w.contents, w.descs[d].cursor, buf))
    && v.descs == w.descs[d := w.descs[d].(cursor := w.descs[d].cursor + |buf|)]
    && v.seekable == w.seekable
  }

  lemma WroteNothing(w: World, d: nat)
    requires d < |w.descs|
    ensures WroteAt(w, d, [], w)
  {
    assert w.descs[d].(cursor := w.descs[d].cursor + 0) == w.descs[d];
  }

  lemma WroteTwice(w: World, d: nat, x: Str, y: Str, v: World, u: World)
    requires d < |w.descs| && d < |v.descs| && WroteAt(w, d, x, v) && WroteAt(v, d, y, u)
    ensures WroteAt(w, d, x + y, u)
  {
    hide Put;
    if x == [] {
      assert x + y == y;
    } else if y == [] {
      assert x + y == x;
    } else {
      PutTwice(w.contents, w.descs[d].cursor, x, y);
    }
  }

  /** The shared cursor decides where a write through `s` lands. */
  predicate WritesAtCursor(w: World, s: Stream) {
    s.desc < |w.descs| && !s.seeksEnd && w.seekable && !w.descs[s.desc].append
  }

  lemma OffsetOnce(w: World, s: Stream, buf: Str)
    requires WritesAtCursor(w, s)
    ensures var r := StreamWrite(w, s, buf);
            WritesAtCursor(r.world, s)
            && (r.result.Ok? ==> r.result.value <= |buf|)
            && WroteAt(w, s.desc, if r.result.Ok? then buf[..r.result.value] else [], r.world)
  {
    WroteNothing(w, s.desc);
    hide Put;
  }

  /** A write through an offset stream, short and refused writes included, puts
      a first piece of the data where the shared cursor was and leaves the cursor
      after it; on success that is all of the data. */
  lemma {:induction false} OffsetWrite(w: World, s: Stream, buf: Str) returns (n: nat)
    requires WritesAtCursor(w, s)
    ensures var r := WriteWhole(w, s, buf);
            n <= |buf| && WroteAt(w, s.desc, buf[..n], r.world) && (r.result.Ok? ==> n == |buf|)
    decreases |buf| + |w.outcomes|
  {
    hide StreamWrite, WroteAt;
    n := 0;
    WroteNothing(w, s.desc);
    if buf != [] {
      var r := StreamWrite(w, s, buf);
      StreamWriteShape(w, s, buf);
      OffsetOnce(w, s, buf);
      if r.result == Err(Interrupted) {
        n := OffsetWrite(r.world, s, buf);
        WroteTwice(w, s.desc, [], buf[..n], r.world, WriteWhole(w, s, buf).world);
        assert [] + buf[..n] == buf[..n];
      } else if r.result.Ok? && r.result.value > 0 {
        var m := r.result.value;
        var k := OffsetWrite(r.world, s, buf[m..]);
        n := m + k;
        WroteTwice(w, s.desc, buf[..m], buf[m..][..k], r.world, WriteWhole(w, s, buf).world);
        assert buf[..m] + buf[m..][..k] == buf[..n];
      } else if r.result.Ok? {
        assert buf[..r.result.value] == [];
      }
    }
  }

  /** What still stops a write for good, in order: a refusal that is no
      interruption, and a write that takes no bytes. */
  function Stops(outcomes: seq<Outcome>): seq<IoError> {
    if outcomes == [] then []
    else
      (match outcomes[0]
       case Refuse(error) => if error == Interrupted then [] else [error]
       case Limit(n) => if n == 0 then [WriteZero] else [])
      + Stops(outcomes[1..])
  }

  /** A seek to the end fails on a pipe only, and then it is tolerated. */
  lemma StreamWriteStops(w: World, s: Stream, buf: Str)
    requires s.desc < |w.descs| && buf != []
    ensures var r := StreamWrite(w, s, buf);
            match r.result
            case Err(error) =>
              if error == Interrupted then Stops(w.outcomes) == Stops(r.world.outcomes)
              else Stops(w.outcomes) == [error] + Stops(r.world.outcomes)
            case Ok(n) => Stops(w.outcomes) == (if n == 0 then [WriteZero] else []) + Stops(r.world.outcomes)
  {
  }

  /** A whole write fails exactly with the first thing that stops it for good, and
      so succeeds whenever nothing does. */
  lemma {:induction false} WriteWholeStops(w: World, s: Stream, buf: Str)
    requires s.desc < |w.descs|
    ensures var r := WriteWhole(w, s, buf);
            match r.result
            case Ok(_) => Stops(w.outcomes) == Stops(r.world.outcomes)
            case Err(error) => error != Interrupted && buf != [] && Stops(w.outcomes) == [error] + Stops(r.world.outcomes)
    decreases |buf| + |w.outcomes|
  {
    hide StreamWrite, Stops;
    if buf != [] {
      var r := StreamWrite(w, s, buf);
      StreamWriteShape(w, s, buf);
      StreamWriteStops(w, s, buf);
      if r.result == Err(Interrupted) {
        WriteWholeStops(r.world, s, buf);
      } else if r.result.Ok? && r.result.value > 0 {
        assert [] + Stops(r.world.outcomes) == Stops(r.world.outcomes);
        WriteWholeStops(r.world, s, buf[r.result.value..]);
      }
    }
  }

  /** A write through any stream, short and refused writes included, puts a first
      piece of the data at the end of the file or where the shared cursor was,
      and all of it on success. It is the end for a description in append mode, a
      stream that seeks there, and a file without positions, a pipe say. */
  lemma WriteLands(w: World, s: Stream, buf: Str) returns (n: nat)
    requires s.desc < |w.descs|
    ensures var r := WriteWhole(w, s, buf);
            && n <= |buf| && (r.result.Ok? ==> n == |buf|)
            && (if w.descs[s.desc].append || s.seeksEnd || !w.seekable then r.world.contents == w.contents + buf[..n]
                else WroteAt(w, s.desc, buf[..n], r.world))
  {
    hide WriteWhole, WroteAt;
    if Appends(w, s) { n := AppendKeepsContents(w, s, buf); } else { n := OffsetWrite(w, s, buf); }
  }

  lemma MakingStreams(w: World, d: nat, offset: nat)
    requires d < |w.descs|
    ensures MakeAppendStream(w, d).world == w && Appends(w, MakeAppendStream(w, d).result.value)
    ensures var r := MakeOffsetStream(w, d, offset);
            r.world == (if w.seekable && offset <= MAX_OFFSET then SetCursor(w, d, offset) else w)
            && (r.result.Err? <==> w.seekable && offset > MAX_OFFSET)
  {
  }

  // ----- Handing a descriptor on -----

  /** In every state a raw write to the recorded descriptor does what the
      stream does. */
  ghost predicate Faithful(s: Stream) {
    s.fd.Some? ==> forall w: World, buf: Str :: s.desc < |w.descs| ==>
      s.fd.value < |w.descs| && RawWrite(w, s.fd.value, buf) == StreamWrite(w, s, buf)
  }

  /** For a stream that seeks to the end of a file not in append mode, a raw
      write is the same in every state exactly when the file is not seekable:
      then, and only then, a descriptor could have been recorded. */
  lemma SeekingIsNotRaw(seekable: bool)
    ensures (forall w: World, buf: Str :: w.seekable == seekable && 0 < |w.descs| && !w.descs[0].append ==>
               RawWrite(w, 0, buf) == StreamWrite(w, Stream(0, true, None), buf))
            <==> !seekable
  {
    if seekable {
      var w := World([1], true, [], [Desc(0, false)]);
      assert RawWrite(w, 0, [2]).world.contents == Put([1], 0, [2]) == [2];
      assert StreamWrite(w, Stream(0, true, None), [2]).world.contents[0] == 1;
    }
  }

  // ----- Whole runs -----

  datatype Step =
    | Open(append: bool)
    | OffsetStream(desc: nat, offset: nat)
    | AppendStream(desc: nat)
    | WriteTo(stream: nat, data: Str)

  /** The file and the streams made so far, with which of them append. */
  datatype State = State(world: World, streams: seq<Stream>, appending: seq<bool>)

  function Apply(st: State, step: Step): State {
    match step
    case Open(append) => st.(world := st.world.(descs := st.world.descs + [Desc(0, append)]))
    case OffsetStream(d, offset) =>
      if d >= |st.world.descs| then st
      else
        var r := MakeOffsetStream(st.world, d, offset);
        if r.result.Err? then st.(world := r.world)
        else State(r.world, st.streams + [r.result.value], st.appending + [false])
    case AppendStream(d) =>
      if d >= |st.world.descs| then st
      else
        var r := MakeAppendStream(st.world, d);
        State(r.world, st.streams + [r.result.value], st.appending + [true])
    case WriteTo(k, data) =>
      if k >= |st.streams| || st.streams[k].desc >= |st.world.descs| then st
      else st.(world := WriteWhole(st.world, st.streams[k], data).world)
  }

  function Run(st: State, steps: seq<Step>): State {
    if steps == [] then st else Apply(Run(st, steps[..|steps| - 1]), steps[|steps| - 1])
  }

  /** Every append stream appends, and every recorded descriptor is faithful. */
  ghost predicate Sound(st: State) {
    && |st.appending| == |st.streams|
    && forall k :: 0 <= k < |st.streams| ==>
                     && st.streams[k].desc < |st.world.descs|
                     && (st.appending[k] ==> Appends(st.world, st.streams[k]))
                     && (st.streams[k].fd.Some? ==> !st.streams[k].seeksEnd && st.streams[k].fd.value == st.streams[k].desc)
  }

  /** Descriptions keep their place and their flags. */
  predicate SameFlags(w: World, v: World) {
    && |w.descs| <= |v.descs| && w.seekable == v.seekable
    && forall d :: 0 <= d < |w.descs| ==> w.descs[d].append == v.descs[d].append
  }

  lemma {:induction false} WriteAllFlags(w: World, s: Stream, buf: Str)
    requires s.desc < |w.descs|
    ensures SameFlags(w, WriteWhole(w, s, buf).world) && |WriteWhole(w, s, buf).world.descs| == |w.descs|
    decreases |buf| + |w.outcomes|
  {
    if buf != [] {
      var r := StreamWrite(w, s, buf);
      StreamWriteShape(w, s, buf);
      if r.result == Err(Interrupted) {
        WriteAllFlags(r.world, s, buf);
      } else if r.result.Ok? && r.result.value > 0 {
        WriteAllFlags(r.world, s, buf[r.result.value..]);
      }
    }
  }

  lemma ApplySound(st: State, step: Step)
    requires Sound(st)
    ensures Sound(Apply(st, step)) && SameFlags(st.world, Apply(st, step).world)
    ensures st.streams <= Apply(st, step).streams && st.appending <= Apply(st, step).appending
  {
    match step
    case Open(append) =>
    case OffsetStream(d, offset) => if d < |st.world.descs| { MakingStreams(st.world, d, offset); }
    case AppendStream(d) => if d < |st.world.descs| { MakingStreams(st.world, d, 0); }
    case WriteTo(k, data) =>
      if k < |st.streams| && st.streams[k].desc < |st.world.descs| {
        WriteAllFlags(st.world, st.streams[k], data);
      }
  }

  /** Over any run no description's flags change and the invariant holds. */
  lemma {:induction false} RunSound(st: State, steps: seq<Step>)
    requires Sound(st)
    ensures Sound(Run(st, steps)) && SameFlags(st.world, Run(st, steps).world)
  {
    if steps != [] {
      RunSound(st, steps[..|steps| - 1]);
      ApplySound(Run(st, steps[..|steps| - 1]), steps[|steps| - 1]);
    }
  }

  /** Every write of the run goes through a stream made to append. */
  ghost predicate OnlyAppends(steps: seq<Step>, appending: seq<bool>) {
    forall i :: 0 <= i < |steps| && steps[i].WriteTo? && steps[i].stream < |appending| ==> appending[steps[i].stream]
  }

  lemma AppendStepKeeps(st: State, step: Step)
    requires Sound(st)
    requires step.WriteTo? && step.stream < |st.appending| ==> st.appending[step.stream]
    ensures st.world.contents <= Apply(st, step).world.contents
  {
    if step.WriteTo? && step.stream < |st.streams| {
      var n := AppendKeepsContents(st.world, st.streams[step.stream], step.data);
    }
  }

  /** Streams are only ever added. */
  lemma {:induction false} RunKeepsStreams(st: State, steps: seq<Step>)
    requires Sound(st)
    ensures Sound(Run(st, steps)) && st.appending <= Run(st, steps).appending
  {
    if steps != [] {
      var init := steps[..|steps| - 1];
      RunKeepsStreams(st, init);
      ApplySound(Run(st, init), steps[|steps| - 1]);
    }
  }

  /** From any sound state, a run that writes through append streams only leaves
      the contents it found as a prefix. */
  lemma {:induction false} AppendingRunKeeps(st: State, steps: seq<Step>)
    requires Sound(st) && OnlyAppends(steps, Run(st, steps).appending)
    ensures st.world.contents <= Run(st, steps).world.contents
  {
    hide Sound, Apply;
    if steps != [] {
      var init, last := steps[..|steps| - 1], steps[|steps| - 1];
      RunKeepsStreams(st, init);
      ApplySound(Run(st, init), last);
      var before, after := Run(st, init), Run(st, steps);
      assert before.appending <= after.appending;
      assert forall i :: 0 <= i < |init| ==> init[i] == steps[i];
      assert OnlyAppends(init, before.appending);
      AppendingRunKeeps(st, init);
      assert steps[|steps| - 1] == last;
      AppendStepKeeps(before, last);
    }
  }

  lemma {:induction false} RunConcat(st: State, a: seq<Step>, b: seq<Step>)
    ensures Run(st, a + b) == Run(Run(st, a), b)
  {
    if b == [] {
      assert a + b == a;
    } else {
      RunConcat(st, a, b[..|b| - 1]);
      assert (a + b)[..|a + b| - 1] == a + b[..|b| - 1];
    }
  }

  lemma SoundIsFaithful(st: State)
    requires Sound(st)
    ensures forall k :: 0 <= k < |st.streams| ==> Faithful(st.streams[k])
  {
  }

  /** After any run from a file with any open descriptions: a raw write to a
      descriptor any stream recorded does what the stream does in every state, no
      description's flags have changed, and however the run goes on, as long as
      it writes through append streams only, the contents stay a prefix. */
  lemma RunIsSafe(w: World, steps: seq<Step>, more: seq<Step>)
    ensures var t := Run(State(w, [], []), steps);
            && |t.appending| == |t.streams| && SameFlags(w, t.world)
            && (forall k :: 0 <= k < |t.streams| ==> Faithful(t.streams[k]))
    ensures var t, u := Run(State(w, [], []), steps), Run(State(w, [], []), steps + more);
            OnlyAppends(more, u.appending) ==> t.world.contents <= u.world.contents
  {
    RunSound(State(w, [], []), steps);
    RunConcat(State(w, [], []), steps, more);
    var t := Run(State(w, [], []), steps);
    SoundIsFaithful(t);
    hide Sound, Apply, OnlyAppends;
    if OnlyAppends(more, Run(t, more).appending) { AppendingRunKeeps(t, more); }
  }

  // ----- Streams from the steps that make them -----

  lemma RunOne(st: State, step: Step)
    ensures Run(st, [step]) == Apply(st, step)
  {
    hide Apply;
    assert [step][..0] == [];
  }

  lemma RunTwo(st: State, first: Step, second: Step)
    ensures Run(st, [first, second]) == Apply(Apply(st, first), second)
  {
    hide Apply;
    RunOne(st, first);
    assert [first, second][..1] == [first];
  }

  /** An offset stream, from the step that makes it: it records exactly its
      description, and its descriptor's cursor is the offset if the file has
      positions; an offset past the largest is refused and changes nothing. */
  lemma OffsetStreamStep(st: State, d: nat, offset: nat)
    requires d < |st.world.descs|
    ensures var t := Run(st, [OffsetStream(d, offset)]);
            && t.world.contents == st.world.contents && t.world.outcomes == st.world.outcomes
            && t.world.seekable == st.world.seekable
            && (if st.world.seekable && offset > 0x7FFF_FFFF_FFFF_FFFF then t == st
                else
                  && |t.streams| == |st.streams| + 1 && t.streams[..|st.streams|] == st.streams
                  && t.streams[|st.streams|].fd == Some(d)
                  && t.world.descs == if st.world.seekable then st.world.descs[d := Desc(offset, st.world.descs[d].append)]
                                      else st.world.descs)
  {
    RunOne(st, OffsetStream(d, offset));
  }

  /** A write through an offset stream just made, on a file with positions and a
      description not in append mode: a first piece of the data is at the offset,
      the cursor is after it, and it is all of the data when nothing stops the
      write. */
  lemma OffsetStreamWrites(st: State, d: nat, offset: nat, data: Str) returns (n: nat)
    requires d < |st.world.descs| && st.world.seekable && !st.world.descs[d].append && offset <= 0x7FFF_FFFF_FFFF_FFFF
    ensures var u := Run(st, [OffsetStream(d, offset), WriteTo(|st.streams|, data)]);
            && n <= |data| && (Stops(st.world.outcomes) == [] ==> n == |data|)
            && (n < |data| ==> exists error :: Stops(st.world.outcomes) == [error] + Stops(u.world.outcomes))
            && u.world.contents == (if n == 0 then st.world.contents else Put(st.world.contents, offset, data[..n]))
            && u.world.descs == st.world.descs[d := Desc(offset + n, false)]
  {
    RunTwo(st, OffsetStream(d, offset), WriteTo(|st.streams|, data));
    var t := Apply(st, OffsetStream(d, offset));
    var s := t.streams[|st.streams|];
    n := OffsetWrite(t.world, s, data);
    WriteWholeStops(t.world, s, data);
    hide WriteWhole, Put, Stops;
  }

  /** An append stream, from the step that makes it: nothing else changes, and it
      records its description exactly in append mode. */
  lemma AppendStreamStep(st: State, d: nat)
    requires d < |st.world.descs|
    ensures var t := Run(st, [AppendStream(d)]);
            && t.world == st.world
            && |t.streams| == |st.streams| + 1 && t.streams[..|st.streams|] == st.streams
            && t.streams[|st.streams|].fd == if st.world.descs[d].append then Some(d) else None
  {
    RunOne(st, AppendStream(d));
  }

  /** A write through an append stream just made, on any file and description: a
      first piece of the data is after the old contents, and it is all of the data
      when nothing stops the write. */
  lemma AppendStreamWrites(st: State, d: nat, data: Str) returns (n: nat)
    requires d < |st.world.descs|
    ensures var u := Run(st, [AppendStream(d), WriteTo(|st.streams|, data)]);
            && n <= |data| && (Stops(st.world.outcomes) == [] ==> n == |data|)
            && u.world.contents == st.world.contents + data[..n]
  {
    RunTwo(st, AppendStream(d), WriteTo(|st.streams|, data));
    var t := Apply(st, AppendStream(d));
    var s := t.streams[|st.streams|];
    n := AppendKeepsContents(t.world, s, data);
    WriteWholeStops(t.world, s, data);
    hide WriteWhole, Stops;
  }

  // ----- Append streams in the middle of a run -----

  /** The same step when one more stream was made as number `n`. */
  function Renumbered(step: Step, n: nat): Step {
    match step
    case WriteTo(k, data) => WriteTo(if k >= n then k + 1 else k, data)
    case _ => step
  }

  function RenumberedAll(steps: seq<Step>, n: nat): (r: seq<Step>)
    ensures |r| == |steps| && forall i :: 0 <= i < |r| ==> r[i] == Renumbered(steps[i], n)
  {
    if steps == [] then [] else [Renumbered(steps[0], n)] + RenumberedAll(steps[1..], n)
  }

  /** The same state but for one more stream, number `n`. */
  ghost predicate OneMore(a: State, b: State, n: nat) {
    && n <= |a.streams| && |b.streams| == |a.streams| + 1 && b.world == a.world
    && (forall k :: 0 <= k < n ==> b.streams[k] == a.streams[k])
    && forall k :: n <= k < |a.streams| ==> b.streams[k + 1] == a.streams[k]
  }

  lemma StepWithOneMore(a: State, b: State, n: nat, step: Step)
    requires OneMore(a, b, n)
    ensures OneMore(Apply(a, step), Apply(b, Renumbered(step, n)), n)
  {
    hide WriteWhole, MakeOffsetStream;
  }

  lemma {:induction false} RunWithOneMore(a: State, b: State, n: nat, steps: seq<Step>)
    requires OneMore(a, b, n)
    ensures OneMore(Run(a, steps), Run(b, RenumberedAll(steps, n)), n)
  {
    hide OneMore, Apply;
    if steps != [] {
      var init, last := steps[..|steps| - 1], steps[|steps| - 1];
      RunWithOneMore(a, b, n, init);
      assert RenumberedAll(steps, n)[..|steps| - 1] == RenumberedAll(init, n);
      StepWithOneMore(Run(a, init), Run(b, RenumberedAll(init, n)), n, last);
    }
  }

  /** Making an append stream anywhere in a run changes nothing but the numbers of
      the streams made after it: every later write, at an offset or not, finds
      the same file and leaves the same file. */
  lemma AppendStreamChangesNothing(st: State, before: seq<Step>, d: nat, after: seq<Step>)
    requires d < |Run(st, before).world.descs|
    ensures var n := |Run(st, before).streams|;
            Run(st, before + [AppendStream(d)] + RenumberedAll(after, n)).world == Run(st, before + after).world
  {
    hide Run;
    var t := Run(st, before);
    var n := |t.streams|;
    RunConcat(st, before, after);
    RunConcat(st, before + [AppendStream(d)], RenumberedAll(after, n));
    RunConcat(st, before, [AppendStream(d)]);
    RunOne(t, AppendStream(d));
    RunWithOneMore(t, Apply(t, AppendStream(d)), n, after);
  }
}
