/** A child process on a pseudo-terminal: the session that owns the pty
    handle, pumps its output through the escape filter onto the host's
    dispatch queue and tears everything down once; and the terminal adapter
    that spawns a session and writes lines to it.

    Sequential model: the pump thread runs as one method call, the host's
    `call_soon_threadsafe` appends to the session's `dispatched` queue, and
    the pty handle is a recording object whose reads come from a script. */
module TtySession {

  import opened Options
  import opened AnsiEscape

  /** What one `read()` of the pty gives: decoded text (the empty string
      meaning nothing more to read), an `EOFError`, or any other exception. */
  datatype ReadResult = Text(chars: string) | EndOfFile | ReadError

  /** A callback handed to the host's dispatch queue. */
  datatype Event = Output(text: string) | CloseNotice

  /** The read results that keep the pump going: non-empty text. */
  predicate IsLive(r: ReadResult) {
    r.Text? && r.chars != []
  }

  /** The events the pump dispatches for the read results rs: the filtered
      text of each chunk up to the first empty read, EOF or error. */
  function PumpEvents(rs: seq<ReadResult>): (r: seq<Event>)
    ensures |r| <= |rs|
  {
    if rs == [] || !IsLive(rs[0]) then []
    else [Output(Strip(rs[0].chars))] + PumpEvents(rs[1..])
  }

  /** The number of close notifications in a dispatch queue. */
  function CloseNotices(q: seq<Event>): (r: nat)
    ensures r <= |q|
  {
    if q == [] then 0
    else CloseNotices(q[..|q| - 1]) + (if q[|q| - 1] == CloseNotice then 1 else 0)
  }

  /** The pump delivers, in read order, Strip of every chunk before the first
      result that stops it, and nothing from that result on. */
  lemma {:induction false} PumpEventsDeliverLivePrefix(rs: seq<ReadResult>)
    ensures |PumpEvents(rs)| <= |rs|
    ensures forall j :: 0 <= j < |PumpEvents(rs)| ==>
              IsLive(rs[j]) && PumpEvents(rs)[j] == Output(Strip(rs[j].chars))
    ensures |PumpEvents(rs)| < |rs| ==> !IsLive(rs[|PumpEvents(rs)|])
  {
    if rs != [] && IsLive(rs[0]) {
      PumpEventsDeliverLivePrefix(rs[1..]);
    }
  }

  /** After n live results the pump has produced n events. */
  lemma {:induction false} PumpEventsOfLive(rs: seq<ReadResult>, n: nat)
    requires n <= |rs|
    requires forall j :: 0 <= j < n ==> IsLive(rs[j])
    ensures |PumpEvents(rs[..n])| == n
  {
    if n > 0 {
      assert rs[..n][1..] == rs[1..][..n - 1];
      PumpEventsOfLive(rs[1..], n - 1);
    }
  }

  /** A further live result adds its filtered text at the end. */
  lemma {:induction false} PumpEventsExtend(rs: seq<ReadResult>, n: nat)
    requires n < |rs| && IsLive(rs[n])
    requires forall j :: 0 <= j < n ==> IsLive(rs[j])
    ensures PumpEvents(rs[..n + 1]) == PumpEvents(rs[..n]) + [Output(Strip(rs[n].chars))]
  {
    var e := [Output(Strip(rs[n].chars))];
    if n == 0 {
      assert rs[..1] == [rs[0]] && rs[..0] == [];
      assert PumpEvents(rs[..1]) == e + PumpEvents([]);
    } else {
      var head := [Output(Strip(rs[0].chars))];
      assert rs[..n][1..] == rs[1..][..n - 1];
      assert rs[..n + 1][1..] == rs[1..][..n];
      PumpEventsExtend(rs[1..], n - 1);
      assert PumpEvents(rs[..n + 1]) == head + (PumpEvents(rs[1..][..n - 1]) + e);
      assert PumpEvents(rs[..n]) == head + PumpEvents(rs[1..][..n - 1]);
    }
  }

  /** The first result that is not live (or the end) makes the events final. */
  lemma {:induction false} PumpEventsStop(rs: seq<ReadResult>, n: nat)
    requires n <= |rs|
    requires forall j :: 0 <= j < n ==> IsLive(rs[j])
    requires n == |rs| || !IsLive(rs[n])
    ensures PumpEvents(rs) == PumpEvents(rs[..n])
  {
    if n == 0 {
    } else {
      assert rs[..n][1..] == rs[1..][..n - 1];
      PumpEventsStop(rs[1..], n - 1);
    }
  }

  /** How the pump's events grow read by read: a live result adds its
      filtered text; the first other result (or the end) ends them. */
  lemma PumpEventsOfPrefix(rs: seq<ReadResult>, n: nat)
    requires n <= |rs|
    requires forall j :: 0 <= j < n ==> IsLive(rs[j])
    ensures |PumpEvents(rs[..n])| == n
    ensures n < |rs| && IsLive(rs[n]) ==>
              PumpEvents(rs[..n + 1]) == PumpEvents(rs[..n]) + [Output(Strip(rs[n].chars))]
    ensures n == |rs| || !IsLive(rs[n]) ==> PumpEvents(rs) == PumpEvents(rs[..n])
  {
    PumpEventsOfLive(rs, n);
    if n < |rs| && IsLive(rs[n]) {
      PumpEventsExtend(rs, n);
    } else {
      PumpEventsStop(rs, n);
    }
  }

  /** A live result moves its event from the pump's remaining events onto
      the queue: what is queued plus what remains stays the same. */
  lemma PumpEventsQueuedStep(d: seq<Event>, d0: seq<Event>, rs: seq<ReadResult>, n: nat)
    requires n < |rs| && IsLive(rs[n])
    requires d + PumpEvents(rs[n..]) == d0 + PumpEvents(rs)
    ensures (d + [Output(Strip(rs[n].chars))]) + PumpEvents(rs[n + 1..]) == d0 + PumpEvents(rs)
  {
    assert rs[n..][0] == rs[n] && rs[n..][1..] == rs[n + 1..];
    assert PumpEvents(rs[n..]) == [Output(Strip(rs[n].chars))] + PumpEvents(rs[n + 1..]);
  }

  /** Once the remaining results start with one that is not live, the pump
      has nothing more to queue: the queue holds all of its events. */
  lemma PumpEventsQueuedAtStop(d: seq<Event>, d0: seq<Event>, rs: seq<ReadResult>, n: nat)
    requires n <= |rs| && (rs[n..] == [] || !IsLive(rs[n..][0]))
    requires d + PumpEvents(rs[n..]) == d0 + PumpEvents(rs) && |d| == |d0| + n
    ensures d == d0 + PumpEvents(rs) && |PumpEvents(rs)| == n
  {
    assert PumpEvents(rs[n..]) == [];
    assert d + [] == d;
  }

  lemma {:induction false} CloseNoticesAppend(a: seq<Event>, b: seq<Event>)
    ensures CloseNotices(a + b) == CloseNotices(a) + CloseNotices(b)
    decreases |b|
  {
    if b == [] {
      assert a + b == a;
    } else {
      assert (a + b)[..|a + b| - 1] == a + b[..|b| - 1];
      CloseNoticesAppend(a, b[..|b| - 1]);
    }
  }

  /** Output never counts as a close notification. */
  lemma {:induction false} PumpEventsHaveNoCloseNotice(rs: seq<ReadResult>)
    ensures CloseNotices(PumpEvents(rs)) == 0
  {
    if rs != [] && IsLive(rs[0]) {
      PumpEventsHaveNoCloseNotice(rs[1..]);
      CloseNoticesAppend([Output(Strip(rs[0].chars))], PumpEvents(rs[1..]));
      assert [Output(Strip(rs[0].chars))][..0] == [];
    }
  }

  /** Python's `cwd or None`: the empty directory means "inherit". */
  function NormalizeCwd(cwd: Option<string>): (r: Option<string>)
    ensures r == None <==> cwd == None || cwd == Some("")
    ensures r.Some? ==> r == cwd
  {
    if cwd == Some("") then None else cwd
  }

  const EscapedPrompt := "click to write escaped input to stdin"
  const LinePrompt := "click to write a line to stdin"

  /** The line sent to the process for the text typed by the user: the text,
      decoded first in escaped-input mode, plus one newline. None when the
      decoder rejects the text (a `UnicodeDecodeError`): no line at all. */
  function LineToSend(escapeInput: bool, unicodeEscape: string -> Option<string>, text: string): (r: Option<string>)
    ensures r.None? <==> escapeInput && unicodeEscape(text).None?
    ensures r.Some? ==> |r.value| > 0 && r.value[|r.value| - 1] == '\n'
    ensures r.Some? && !escapeInput ==> r.value[..|r.value| - 1] == text
    ensures r.Some? && escapeInput ==> r.value[..|r.value| - 1] == unicodeEscape(text).value
  {
    if !escapeInput then Some(text + "\n")
    else
      match unicodeEscape(text)
      case None => None
      case Some(decoded) => Some(decoded + "\n")
  }

  /** The platform pty: spawned for a command in a directory, read from a
      script of results (past its end the child has exited, so reads give
      EOF), and recording every write and every close it receives. */
  class PtyHandle {
    const command: seq<string>
    const cwd: Option<string>
    const pid: int
    const script: seq<ReadResult>
    const closeRaises: bool
    const writeRaises: bool
    var readCount: nat
    var written: seq<string>
    var closeArgs: seq<bool>

    constructor (command: seq<string>, cwd: Option<string>, pid: int,
                 script: seq<ReadResult>, closeRaises: bool, writeRaises: bool)
      ensures this.command == command && this.cwd == cwd && this.pid == pid
      ensures this.script == script && this.closeRaises == closeRaises
      ensures this.writeRaises == writeRaises
      ensures readCount == 0 && written == [] && closeArgs == []
    {
      this.command, this.cwd, this.pid := command, cwd, pid;
      this.script, this.closeRaises, this.writeRaises := script, closeRaises, writeRaises;
      readCount, written, closeArgs := 0, [], [];
    }

    /** The results not yet read. */
    function Pending(): (r: seq<ReadResult>)
      reads this
      ensures |r| == if readCount <= |script| then |script| - readCount else 0
    {
      if readCount <= |script| then script[readCount..] else []
    }

    method Read() returns (r: ReadResult)
      modifies this`readCount
      ensures readCount == old(readCount) + 1
      ensures old(Pending()) != [] ==> r == old(Pending())[0] && Pending() == old(Pending())[1..]
      ensures old(Pending()) == [] ==> r == EndOfFile && Pending() == []
    {
      r := if readCount < |script| then script[readCount] else EndOfFile;
      readCount := readCount + 1;
    }

    /** `write(data)`; raised says whether the native write threw, in
        which case nothing is recorded as written. */
    method Write(text: string) returns (raised: bool)
      modifies this`written
      ensures raised == writeRaises
      ensures written == old(written) + (if raised then [] else [text])
    {
      raised := writeRaises;
      if !raised {
        written := written + [text];
      }
    }

    /** `close(force)`; raised says whether the native close threw. */
    method Close(force: bool) returns (raised: bool)
      modifies this`closeArgs
      ensures closeArgs == old(closeArgs) + [force]
      ensures raised == closeRaises
    {
      closeArgs := closeArgs + [force];
      raised := closeRaises;
    }
  }

  /** A spawned process and its shutdown state. */
  class TtyProcess {
    const handle: PtyHandle
    const pid: int
    const hasOnOutput: bool
    const hasOnClose: bool
    var closed: bool
    var dispatched: seq<Event>

    /** Exactly-once teardown as a state invariant: the handle has been
        closed, with force, once if the session is closed and never
        otherwise; the close notification is queued once if there is a
        handler and the session is closed, never otherwise, and nothing is
        queued after it. */
    ghost predicate Valid()
      reads this`closed, this`dispatched, handle`closeArgs
      ensures Valid() ==> |handle.closeArgs| <= 1 && CloseNotices(dispatched) <= 1
    {
      handle.closeArgs == (if closed then [true] else []) &&
      CloseNotices(dispatched) == (if closed && hasOnClose then 1 else 0) &&
      (closed && hasOnClose ==> |dispatched| > 0 && dispatched[|dispatched| - 1] == CloseNotice)
    }

    /** Spawns the pty; `closed` starts false. The worker thread that the
        source starts here when an output callback is given is RunPump. */
    constructor (command: seq<string>, cwd: Option<string>, pid: int,
                 script: seq<ReadResult>, closeRaises: bool, writeRaises: bool,
                 hasOnOutput: bool, hasOnClose: bool)
      ensures Valid() && fresh(handle)
      ensures !closed && dispatched == []
      ensures this.pid == pid && handle.pid == pid
      ensures handle.command == command && handle.cwd == cwd
      ensures handle.script == script && handle.closeRaises == closeRaises
      ensures handle.writeRaises == writeRaises
      ensures handle.readCount == 0 && handle.written == []
      ensures this.hasOnOutput == hasOnOutput && this.hasOnClose == hasOnClose
    {
      handle := new PtyHandle(command, cwd, pid, script, closeRaises, writeRaises);
      this.pid := pid;
      this.hasOnOutput, this.hasOnClose := hasOnOutput, hasOnClose;
      closed := false;
      dispatched := [];
    }

    /** Forwards the text to the pty. The source does not look at `closed`
        here: a write after close reaches the handle like any other. An
        exception from the native write reaches the caller (raised). */
    method Write(text: string) returns (raised: bool)
      modifies handle`written
      ensures raised == handle.writeRaises
      ensures handle.written == old(handle.written) + (if raised then [] else [text])
    {
      raised := handle.Write(text);
    }

    /** First call: queue the close handler (if any), set closed, then force
        the pty closed, which may throw. Later calls return at once. */
    method Close() returns (raised: bool)
      requires Valid()
      modifies this`closed, this`dispatched, handle`closeArgs
      ensures Valid() && closed
      ensures old(closed) ==> dispatched == old(dispatched) && handle.closeArgs == old(handle.closeArgs) && !raised
      ensures !old(closed) ==> dispatched == old(dispatched) + (if hasOnClose then [CloseNotice] else [])
      ensures !old(closed) ==> raised == handle.closeRaises
    {
      if closed {
        return false;
      }
      if hasOnClose {
        CloseNoticesAppend(dispatched, [CloseNotice]);
        assert [CloseNotice][..0] == [];
        dispatched := dispatched + [CloseNotice];
      }
      closed := true;
      raised := handle.Close(true);
    }

    /** Close, with any exception from the pty swallowed (and logged). */
    method Dispose()
      requires Valid()
      modifies this`closed, this`dispatched, handle`closeArgs
      ensures Valid() && closed
      ensures old(closed) ==> dispatched == old(dispatched) && handle.closeArgs == old(handle.closeArgs)
      ensures !old(closed) ==> dispatched == old(dispatched) + (if hasOnClose then [CloseNotice] else [])
    {
      var _ := Close();
    }

    /** The pump thread's body (`_read`): the read loop, then close. raised
        says whether that final close threw. */
    method ReadLoop() returns (raised: bool)
      requires Valid()
      modifies this`closed, this`dispatched, handle`readCount, handle`closeArgs
      ensures Valid() && closed
      ensures old(closed) ==> handle.readCount == old(handle.readCount) && dispatched == old(dispatched) && !raised
      ensures !old(closed) ==> handle.readCount == old(handle.readCount) + |PumpEvents(old(handle.Pending()))| + 1
      ensures !old(closed) ==>
                dispatched == old(dispatched) + PumpEvents(old(handle.Pending()))
                              + (if hasOnClose then [CloseNotice] else [])
      ensures !old(closed) ==> raised == handle.closeRaises
    {
      ReadUntilStopped();
      raised := Close();
    }

    /** `while not self.closed`: read; stop on an empty read, EOF or any
        other error (logged); otherwise queue the filtered text. */
    method ReadUntilStopped()
      requires Valid()
      modifies this`dispatched, handle`readCount
      ensures Valid()
      ensures old(closed) ==> handle.readCount == old(handle.readCount) && dispatched == old(dispatched)
      ensures !old(closed) ==> handle.readCount == old(handle.readCount) + |PumpEvents(old(handle.Pending()))| + 1
      ensures !old(closed) ==> dispatched == old(dispatched) + PumpEvents(old(handle.Pending()))
    {
      ghost var rs, d0, r0 := handle.Pending(), dispatched, handle.readCount;
      ghost var n := 0;
      while !closed
        invariant Valid()
        invariant n <= |rs| && (closed ==> n == 0 && dispatched == d0)
        invariant handle.readCount == r0 + n && handle.Pending() == rs[n..]
        invariant dispatched + PumpEvents(rs[n..]) == d0 + PumpEvents(rs)
        invariant |dispatched| == |d0| + n
        decreases |rs| - n
      {
        var live := PumpOnce();
        if !live {
          PumpEventsQueuedAtStop(dispatched, d0, rs, n);
          break;
        }
        PumpEventsQueuedStep(dispatched[..|dispatched| - 1], d0, rs, n);
        n := n + 1;
      }
    }

    /** One pass of the loop body: read once and, on non-empty text, queue
        its filtered form. An empty read, EOFError or any other exception
        (logged) makes live false, which ends the loop. */
    method PumpOnce() returns (live: bool)
      requires Valid() && !closed
      modifies this`dispatched, handle`readCount
      ensures Valid() && handle.readCount == old(handle.readCount) + 1
      ensures live <==> old(handle.Pending()) != [] && IsLive(old(handle.Pending())[0])
      ensures live ==> handle.Pending() == old(handle.Pending())[1..]
      ensures live ==> dispatched == old(dispatched) + [Output(Strip(old(handle.Pending())[0].chars))]
      ensures !live ==> dispatched == old(dispatched)
    {
      var result := handle.Read();
      live := IsLive(result);
      if live {
        QueueOutput(Strip(result.chars));
      }
    }

    /** `call_soon_threadsafe(callback, text)` while the session is open. */
    method QueueOutput(text: string)
      requires Valid() && !closed
      modifies this`dispatched
      ensures Valid() && dispatched == old(dispatched) + [Output(text)]
    {
      CloseNoticesAppend(dispatched, [Output(text)]);
      assert [Output(text)][..0] == [];
      dispatched := dispatched + [Output(text)];
    }

    /** The worker the constructor starts: only when an output callback was
        given; otherwise nothing is ever read. */
    method RunPump() returns (raised: bool)
      requires Valid()
      modifies this`closed, this`dispatched, handle`readCount, handle`closeArgs
      ensures Valid()
      ensures !hasOnOutput ==> !raised && closed == old(closed) && dispatched == old(dispatched)
      ensures !hasOnOutput ==> handle.readCount == old(handle.readCount) && handle.closeArgs == old(handle.closeArgs)
      ensures hasOnOutput ==> closed
      ensures hasOnOutput && old(closed) ==>
                !raised && handle.readCount == old(handle.readCount) && dispatched == old(dispatched)
      ensures hasOnOutput && !old(closed) ==>
                handle.readCount == old(handle.readCount) + |PumpEvents(old(handle.Pending()))| + 1
      ensures hasOnOutput && !old(closed) ==>
                dispatched == old(dispatched) + PumpEvents(old(handle.Pending()))
                              + (if hasOnClose then [CloseNotice] else [])
      ensures hasOnOutput && !old(closed) ==> raised == handle.closeRaises
    {
      raised := false;
      if hasOnOutput {
        raised := ReadLoop();
      }
    }
  }

  /** One teardown request from the owner: `close()` or `dispose()`. */
  datatype Request = CloseRequest | DisposeRequest

  /** Any sequential series of one or more close/dispose calls, from any
      state, ends with the pty closed exactly once (with force) and the close
      handler queued exactly once if it exists, never otherwise; what was
      queued before stays in place and nothing else is added. */
  method Teardown(p: TtyProcess, requests: seq<Request>)
    requires p.Valid() && |requests| > 0
    modifies p`closed, p`dispatched, p.handle`closeArgs
    ensures p.Valid() && p.closed
    ensures p.handle.closeArgs == [true]
    ensures CloseNotices(p.dispatched) == (if p.hasOnClose then 1 else 0)
    ensures p.dispatched == old(p.dispatched) + (if !old(p.closed) && p.hasOnClose then [CloseNotice] else [])
  {
    var i := 0;
    while i < |requests|
      invariant 0 <= i <= |requests|
      invariant p.Valid()
      invariant i > 0 ==> p.closed
      invariant i == 0 ==> p.closed == old(p.closed) && p.dispatched == old(p.dispatched)
      invariant i > 0 ==>
                  p.dispatched == old(p.dispatched) + (if !old(p.closed) && p.hasOnClose then [CloseNotice] else [])
    {
      match requests[i] {
        case CloseRequest =>
          var _ := p.Close();
        case DisposeRequest =>
          p.Dispose();
      }
      i := i + 1;
    }
  }

  /** The terminal panel bound to one spawned process. */
  class TerminalProcess {
    const cwd: Option<string>
    const process: TtyProcess
    var escapeInput: bool
    /** Python's `unicode_escape` codec applied to the UTF-8 encoding; None
        where it raises `UnicodeDecodeError`. */
    const unicodeEscape: string -> Option<string>
    /** The panel's (stream, text) lines. */
    var added: seq<(string, string)>

    /** Normalises cwd, then spawns a session that reports its output here
        and has no close handler. */
    constructor (cwd: Option<string>, args: seq<string>, pid: int,
                 script: seq<ReadResult>, closeRaises: bool, writeRaises: bool,
                 escapeInput: bool, unicodeEscape: string -> Option<string>)
      ensures this.cwd == NormalizeCwd(cwd)
      ensures fresh(process) && fresh(process.handle) && Valid()
      ensures process.handle.command == args && process.handle.cwd == this.cwd
      ensures process.handle.pid == pid && process.handle.closeRaises == closeRaises
      ensures process.handle.writeRaises == writeRaises
      ensures process.handle.script == script && process.handle.readCount == 0
      ensures process.hasOnOutput && !process.hasOnClose && !process.closed
      ensures process.pid == pid && process.dispatched == [] && process.handle.written == []
      ensures this.escapeInput == escapeInput && this.unicodeEscape == unicodeEscape
      ensures added == []
    {
      this.cwd := NormalizeCwd(cwd);
      process := new TtyProcess(args, NormalizeCwd(cwd), pid, script, closeRaises, writeRaises, true, false);
      this.escapeInput := escapeInput;
      this.unicodeEscape := unicodeEscape;
      added := [];
    }

    /** The session of this adapter keeps its own invariant and, having no
        close handler, never queues a close notification. */
    ghost predicate Valid()
      reads this, process, process.handle
      ensures Valid() ==> process.Valid() && CloseNotices(process.dispatched) == 0
    {
      process.Valid() && !process.hasOnClose
    }

    /** The output callback: one line on the "stdout" stream. */
    method OnProcessOutput(output: string)
      modifies this`added
      ensures added == old(added) + [("stdout", output)]
    {
      added := added + [("stdout", output)];
    }

    function WriteablePrompt(): (r: string)
      reads this
      ensures r == EscapedPrompt <==> escapeInput
      ensures r == LinePrompt <==> !escapeInput
    {
      if escapeInput then EscapedPrompt else LinePrompt
    }

    /** Decodes escapes if that mode is on, appends one newline and forwards
        the line to the session. raised says whether decoding or the native
        write threw; the exception reaches the caller and nothing is written. */
    method Write(text: string) returns (raised: bool)
      modifies process.handle`written
      ensures raised <==> LineToSend(escapeInput, unicodeEscape, text).None? || process.handle.writeRaises
      ensures raised ==> process.handle.written == old(process.handle.written)
      ensures !raised ==>
                process.handle.written == old(process.handle.written) + [LineToSend(escapeInput, unicodeEscape, text).value]
    {
      var line := text;
      if escapeInput {
        var decoded := unicodeEscape(text);
        if decoded.None? {
          return true;
        }
        line := decoded.value;
      }
      raised := process.Write(line + "\n");
    }

    /** Disposes of the session: its pty ends closed exactly once, and the
        dispatch queue is unchanged, as there is no close handler. */
    method Dispose()
      requires Valid()
      modifies process`closed, process`dispatched, process.handle`closeArgs
      ensures Valid() && process.closed
      ensures process.dispatched == old(process.dispatched)
      ensures process.handle.closeArgs == [true]
    {
      process.Dispose();
    }
  }
}
