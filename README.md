# Pty-backed terminal process: a Dafny model

This project models the core of `modules/terminal_process.py` from a debugger
plugin. That file runs a child process on a pseudo-terminal (pty). It streams
the process's output, with ANSI escape sequences removed, to a terminal panel.
It writes lines typed by the user to the process. It tears the session down
once, whether the process ends or the owner disposes of it.

The model has three modules:

- `Options` (`options.dfy`): the `Option` type, which stands for Python's `None`.
- `AnsiEscape` (`ansi_escape.dfy`): the escape filter. The pattern
  `\x1B[@-_][0-?]*[ -/]*[@-~]` is defined in two ways. `ShapedAt`/`IsEscape`
  is the regular language itself. `MatchLength` is a greedy scanner, proved to
  find exactly the one escape sequence at the front of a string, if there is
  one. `Strip` is `re.sub('', …)`: a left-to-right scan that deletes the
  leftmost non-overlapping matches.
- `TtySession` (`tty_process.dfy`):
  - `PtyHandle` is the platform pty. Its reads come from a script of results,
    and it records every write that succeeds and every `close(force)`.
  - `TtyProcess` holds the `closed` flag, the optional close handler and the
    dispatch queue (`dispatched`). Its methods are `Close`, `Dispose`, `Write`,
    the pump loop `ReadLoop` (its `while` loop is `ReadUntilStopped`, one
    pass of the loop body is `PumpOnce`) and `RunPump`, which starts the pump.
  - `TerminalProcess` is the adapter that spawns a session and writes lines to it.

The pump thread runs sequentially, as one method call. The host's
`call_soon_threadsafe` becomes an append to `dispatched`. `Valid()` states
exactly-once teardown as an invariant that every method keeps: the handle was
closed once, with `force=True`, if and only if `closed` is set. The close
notification is queued once if a handler exists and the session is closed, and
never otherwise. In a sequential run nothing is queued after it.

Two behaviours of the code worth noting:

- A write after close is not refused. `TtyProcess.write` never looks at
  `closed`, so the text reaches the handle.
- `TerminalProcess` spawns its session without an `on_close` handler. For that
  adapter, closing queues no notification.

## Model

| member | source | states |
|---|---|---|
| `AnsiEscape.Strip` | modules/terminal_process.py:48 | the output is never longer than the input; what `Strip` deletes and keeps is stated by the lemmas below |
| `AnsiEscape.MatchLength` | modules/terminal_process.py:25 | for every prefix length n, the prefix is an escape sequence (ESC, one byte in @.._, parameters 0..?, intermediates space../, a final byte in @..~) exactly when the result is n; so there is at most one match at a position, and the greedy scan finds it |
| `AnsiEscape.StripDeletesLeadingEscape` | modules/terminal_process.py:48 | an escape sequence at the front is deleted and the scan resumes right after it |
| `AnsiEscape.StripKeepsNonEscapeStart` | modules/terminal_process.py:48 | a character that starts no escape sequence is kept, and the scan moves on by one (with the rule above, this is leftmost non-overlapping substitution) |
| `AnsiEscape.StripKeepsPlainPrefix` | modules/terminal_process.py:48 | a leading stretch without ESC is copied through unchanged |
| `AnsiEscape.StripWithoutEscUnchanged` | modules/terminal_process.py:48 | a string without ESC is returned unchanged |
| `AnsiEscape.StripColouredHello` | modules/terminal_process.py:25 | `"\x1b[31mHello\x1b[0m"` strips to `"Hello"` |
| `AnsiEscape.StripIsSubsequence` | modules/terminal_process.py:48 | the output is a subsequence of the input and is never longer |
| `AnsiEscape.StripUnchangedWithoutEscape` | modules/terminal_process.py:48 | a string in which no escape sequence occurs is returned unchanged |
| `AnsiEscape.StripShortensWithEscape` | modules/terminal_process.py:48 | a string in which some escape sequence occurs comes back strictly shorter |
| `AnsiEscape.StripChangesIffEscape` | modules/terminal_process.py:48 | the output equals the input if and only if no escape sequence occurs in it |
| `AnsiEscape.StripNotIdempotent` | modules/terminal_process.py:48 | deleting a sequence can create a new one: `"\x1b\x1b[m[m"` strips to `"\x1b[m"`, which strips to `""` |
| `AnsiEscape.StripLeaksAcrossChunks` | modules/terminal_process.py:47-48 | a sequence split across two chunks leaks: stripping `"\x1b[3"` and `"1mHi"` separately keeps the whole `"\x1b[31mHi"`, but stripping them together gives `"Hi"` |
| `AnsiEscape.StripKeepsTruncatedSequence` | modules/terminal_process.py:47-48 | `"\x1b[3"`, a sequence without its final byte, is kept whole |
| `AnsiEscape.NoSpanScanVisits` | modules/terminal_process.py:47-48 | if no escape sequence straddles position k, the scan stops at k |
| `AnsiEscape.StripConcatAtVisitedSplit` | modules/terminal_process.py:47-48 | when the scan of a+b stops at the boundary, Strip(a+b) == Strip(a) + Strip(b) |
| `AnsiEscape.StripConcatWithoutSpan` | modules/terminal_process.py:47-48 | stripping chunk by chunk equals stripping the whole when no escape sequence straddles the boundary |
| `AnsiEscape.StripConcatWithSpanDiffers` | modules/terminal_process.py:47-48 | the converse: when an escape sequence straddles the boundary, stripping chunk by chunk gives a strictly longer, hence different, result than stripping the whole |
| `AnsiEscape.EscapeHasInnerEscFree` | modules/terminal_process.py:25 | inside an escape sequence, ESC occurs only as the first character |
| `AnsiEscape.OccurrenceVisited` | modules/terminal_process.py:48 | the scan reaches the start of every escape sequence occurring in the input; it never steps over one |
| `AnsiEscape.StripAtOccurrence` | modules/terminal_process.py:48 | an escape sequence occurring at position i is deleted: the output is the stripped text before it followed by the stripped text after it |
| `AnsiEscape.ProperPrefixUnmatched` | modules/terminal_process.py:25 | a proper prefix of an escape sequence is not an escape sequence at its own front |
| `AnsiEscape.StripKeepsProperPrefix` | modules/terminal_process.py:47-48 | a non-empty proper prefix of an escape sequence (a sequence cut off by a chunk end) is kept whole |
| `AnsiEscape.StripKeepsCutOccurrence` | modules/terminal_process.py:47-48 | the part of an escape sequence before a cut is kept whole |
| `AnsiEscape.StripDeletesOccurrence` | modules/terminal_process.py:48 | from the start of an escape sequence, the scan deletes it and continues after it |
| `AnsiEscape.StripWholeAtSpan` | modules/terminal_process.py:47-48 | stripping the whole deletes a sequence that straddles the chunk boundary |
| `AnsiEscape.StripFirstChunkAtSpan` | modules/terminal_process.py:47-48 | stripping the first chunk keeps the straddling sequence's head whole |
| `AnsiEscape.StripSecondChunkAtSpan` | modules/terminal_process.py:47-48 | stripping the second chunk keeps the straddling sequence's tail whole |
| `AnsiEscape.MatchLengthExtend` | modules/terminal_process.py:25 | a match found in a string is still the match after text is appended, and a match in the longer string that ends inside the shorter one is also a match there |
| `TtySession.PumpEvents` | modules/terminal_process.py:40-49 | the pump dispatches at most one event per read result; which events, in which order, is stated by the lemmas below |
| `TtySession.PumpEventsDeliverLivePrefix` | modules/terminal_process.py:39-56 | the pump's events are, in read order, Output(Strip(chunk)) for every chunk before the first empty read, EOFError or other error, and nothing from that read on |
| `TtySession.PumpEventsOfPrefix` | modules/terminal_process.py:40-49 | after n non-empty chunks, the pump has produced n events; a further non-empty chunk adds its filtered text at the end, and any other result leaves the events final |
| `TtySession.PumpEventsOfLive` | modules/terminal_process.py:40-49 | after n non-empty chunks the pump has produced n events |
| `TtySession.PumpEventsExtend` | modules/terminal_process.py:48-49 | a further non-empty chunk adds its filtered text at the end of the events |
| `TtySession.PumpEventsStop` | modules/terminal_process.py:43-54 | an empty read, EOF or any other error makes the events final |
| `TtySession.PumpEventsQueuedStep` | modules/terminal_process.py:48-49 | a non-empty chunk moves its event from the pump's remaining events onto the queue; queued plus remaining is unchanged |
| `TtySession.PumpEventsQueuedAtStop` | modules/terminal_process.py:43-54 | once the next result stops the pump, the queue holds all of the pump's events, one per chunk read |
| `TtySession.PumpEventsHaveNoCloseNotice` | modules/terminal_process.py:49 | the pump's output events never include a close notification |
| `TtySession.CloseNotices` | modules/terminal_process.py:65 | a queue holds no more close notifications than events |
| `TtySession.CloseNoticesAppend` | modules/terminal_process.py:65 | the close notifications in a concatenated queue are the sum of those in its parts |
| `TtySession.NormalizeCwd` | modules/terminal_process.py:78 | the normalised cwd is None exactly when cwd is None or empty; otherwise it is cwd unchanged |
| `TtySession.LineToSend` | modules/terminal_process.py:95-99 | there is no line exactly when escape mode is on and the decoder rejects the text; otherwise the line ends in one newline, and what comes before it is the text (escape mode off) or the decoded text (escape mode on) |
| `TtySession.TtyProcess.Valid` | modules/terminal_process.py:61-67 | exactly-once teardown as a state invariant; whenever it holds, the handle has been closed at most once and at most one close notification is queued |
| `TtySession.TtyProcess.constructor` | modules/terminal_process.py:28-34 | spawns the pty with the command and cwd; `closed` starts false, the queue is empty, nothing has been read, and the exactly-once invariant holds |
| `TtySession.TtyProcess.Write` | modules/terminal_process.py:58-59 | the text is forwarded to the handle unchanged, whether or not the session is closed; if the native write throws, the exception is returned and nothing is recorded |
| `TtySession.TtyProcess.Close` | modules/terminal_process.py:61-67 | the first call queues the close notification (if there is a handler), sets `closed` and closes the handle with force; `closed` stays set even when the handle's close throws; every later call changes nothing and raises nothing |
| `TtySession.TtyProcess.Dispose` | modules/terminal_process.py:69-73 | as Close, with the handle's exception swallowed; the session ends closed |
| `TtySession.TtyProcess.QueueOutput` | modules/terminal_process.py:49 | appends one output event to the dispatch queue of an open session, keeping the invariant |
| `TtySession.TtyProcess.ReadUntilStopped` | modules/terminal_process.py:40-54 | the `while not self.closed` loop: on an open session it reads once per delivered chunk plus once for the result that stops it, and queues exactly the pump's events; on a closed session it reads nothing |
| `TtySession.TtyProcess.PumpOnce` | modules/terminal_process.py:42-54 | one pass of the loop body: reads once; the loop goes on exactly when that read gave non-empty text, whose filtered form is then queued; otherwise nothing is queued |
| `TtySession.TtyProcess.ReadLoop` | modules/terminal_process.py:39-56 | on an open session: performs one read per delivered chunk plus the one that stops it, queues exactly the pump's events followed by the close notification (if there is a handler), and ends closed; on a closed session it reads nothing and queues nothing |
| `TtySession.TtyProcess.RunPump` | modules/terminal_process.py:35-37 | without an output callback nothing is read and nothing changes; with one, it behaves as ReadLoop: on an open session one read per delivered chunk plus one, the pump's events then the close notification (if there is a handler), and the final close's exception returned; on a closed session nothing is read or queued; either way the session ends closed |
| `TtySession.Teardown` | modules/terminal_process.py:61-73 | after any sequential series of one or more close/dispose calls, the handle has received exactly one `close(force=True)`, and the close notification is queued once if there is a handler and never otherwise; the queue is what it was before, plus that one notification when the session was still open and has a handler, and nothing else |
| `TtySession.TerminalProcess.constructor` | modules/terminal_process.py:77-79 | the cwd is normalised and passed to the spawn with the arguments, pid, and the handle's close and write behaviour; the session has an output callback and no close handler, so the adapter's invariant holds |
| `TtySession.TerminalProcess.Valid` | modules/terminal_process.py:78 | the adapter's invariant: its session keeps the exactly-once invariant and, spawned without `on_close`, never has a close notification queued |
| `TtySession.TerminalProcess.OnProcessOutput` | modules/terminal_process.py:84-85 | appends the text to the panel on the "stdout" stream |
| `TtySession.TerminalProcess.WriteablePrompt` | modules/terminal_process.py:90-93 | the prompt is the escaped-input prompt exactly when escape mode is on, and the line prompt exactly when it is off |
| `TtySession.TerminalProcess.Write` | modules/terminal_process.py:95-99 | when decoding in escape mode fails or the native write throws, the error is returned and nothing is written; otherwise the handle receives exactly one more line: the text (decoded in escape mode) followed by one newline |
| `TtySession.TerminalProcess.Dispose` | modules/terminal_process.py:104-105 | delegates to the session's dispose; the handle ends closed exactly once, and the dispatch queue is unchanged because the adapter's session has no close handler |

## Left out

- Pty backends and spawning (lines 10-21, 31): the Windows and POSIX pty libraries are foreign code. `PtyHandle` stands in for them. Its reads come from a script, reads past the end of the script give EOF, and whether its `close` throws, and whether its `write` throws, are fixed when it is created. A native write that throws records nothing; the model does not capture a write that fails part-way. A spawn failure is an exception from that foreign code, and the model does not include it.
- UTF-8 encoding and decoding (lines 21, 59): the handle records the text that would be encoded, not the bytes.
- Escaped-input decoding (line 97): Python's `unicode_escape` codec is passed to `TerminalProcess` as a function value that gives None where the codec raises `UnicodeDecodeError`. Which texts it accepts and what it decodes them to are not modelled.
- Threads (lines 36-37) and races on `closed`: the check-then-set in `close` takes no lock, so exactly-once teardown is claimed only for sequential calls. The pump runs as one call, `RunPump`. Interleavings are not modelled: if the owner closes the session while the pump is blocked in `read()` and that read then returns text, line 49 queues an output event after the close notification queued at line 65. The claim that nothing is queued after the close notification holds only for sequential runs.
- `core.call_soon_threadsafe` is modelled as appending to `dispatched`. The host never runs the queued callbacks in this model. `core.log_info`, `core.log_exception` and `print` are dropped.
- An exception from the final `close()` in the pump escapes the thread in the source. The model returns it as `raised`.
- `TerminalProcess.pid`, `writeable` and `can_escape_input` (lines 81-82, 87-88, 101-102): each returns a constant or a field. The `Terminal` base class (line 5) is not part of this model. `escape_input` and the panel's lines are fields of `TerminalProcess`.
