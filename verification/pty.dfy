/** The daemon's pseudo-terminal: a shell runs on the slave side and every
    byte it prints is kept in a bounded capture buffer, whose tail serves as
    context for suggestions.  The capture buffer's capacity `cap` is a
    parameter (MAX_CONTEXT_LEN in the daemon); `buffer` holds the bytes
    before `buffer_pos`. */
module Pty {
  import opened Text

  datatype Pty = Pty(masterFd: int, slaveFd: int, childPid: int, buffer: string, active: bool, sessionId: string)

  /** `buffer_pos` never reaches the last byte of the capture array. */
  predicate Valid(p: Pty, cap: int)
  {
    cap >= 2 && |p.buffer| <= cap - 1
  }

  // ---------------------------------------------------------------------
  // Setup and teardown

  /** What openpty() and fork() did. */
  datatype SetupOutcome =
    | OpenPtyFailed
    | ForkFailed(master: int, slave: int)
    | Forked(master: int, slave: int, child: int)

  datatype SetupResult = SetupResult(code: int, pty: Pty)

  /** setup_daemon_pty on the parent's side (`None` is a NULL session id;
      the child's exec path is not part of this model). */
  function Setup(sessionId: Option<string>, outcome: SetupOutcome, prior: Pty): (r: SetupResult)
    requires outcome.Forked? ==> outcome.child > 0
    ensures r.code == 0 || r.code == -1
    ensures r.code == 0 <==> sessionId.Some? && outcome.Forked?
    ensures sessionId.Some? ==> (r.pty.active <==> r.code == 0)
    ensures r.code == -1 && sessionId.None? ==> r.pty == prior
    ensures sessionId.Some? ==> r.pty.buffer == [] && r.pty.sessionId == sessionId.value
    ensures r.code == 0 ==> r.pty.masterFd == outcome.master && r.pty.childPid == outcome.child
  {
    if sessionId.None? then SetupResult(-1, prior)
    else
      var blank := Pty(-1, -1, 0, [], false, sessionId.value);
      match outcome
      case OpenPtyFailed => SetupResult(-1, blank)
      case ForkFailed(m, s) => SetupResult(-1, blank.(masterFd := m, slaveFd := s, childPid := -1))
      case Forked(m, s, c) => SetupResult(0, blank.(masterFd := m, slaveFd := s, childPid := c, active := true))
  }

  datatype CleanupResult = CleanupResult(pty: Pty, terminated: Option<int>)

  /** cleanup_daemon_pty: marks the session inactive, forgets both
      descriptors and, when a child is recorded, terminates it (the pid
      signalled is reported in `terminated`). */
  function Cleanup(p: Pty): (r: CleanupResult)
    ensures !r.pty.active && r.pty.masterFd == -1 && r.pty.slaveFd == -1
    ensures r.pty.buffer == p.buffer && r.pty.sessionId == p.sessionId
    ensures r.terminated.Some? <==> p.childPid > 0
    ensures r.terminated.Some? ==> r.terminated.value == p.childPid && r.pty.childPid == -1
    ensures r.terminated.None? ==> r.pty.childPid == p.childPid
  {
    var q := p.(active := false, masterFd := -1, slaveFd := -1);
    if p.childPid > 0 then CleanupResult(q.(childPid := -1), Some(p.childPid))
    else CleanupResult(q, None)
  }

  /** A second cleanup changes nothing and signals no one. */
  lemma CleanupIdempotent(p: Pty)
    ensures Cleanup(Cleanup(p).pty) == CleanupResult(Cleanup(p).pty, None)
  {
  }

  // ---------------------------------------------------------------------
  // Reading shell output

  /** What select() and read() report. */
  datatype ReadOutcome =
    | NotReady          // timeout or select failure
    | Ready(pending: string)  // readable; `pending` empty at end of stream
    | ReadFailed

  datatype ReadResult = ReadResult(code: int, pty: Pty, data: string)

  /** How many bytes the capture buffer takes from a read of `n` bytes. */
  function CopyLength(p: Pty, cap: int, n: int): int
  {
    var spaceLeft := cap - |p.buffer| - 1;
    if spaceLeft > 0 then Min(n, spaceLeft) else 0
  }

  /** The capture buffer after appending `data`: once more than half is in
      use, the older half is dropped. */
  function Capture(buffer: string, data: string, cap: int): (r: string)
    requires cap >= 2
  {
    var grown := buffer + data;
    if |grown| > cap / 2 then grown[cap / 2..] else grown
  }

  /** read_from_daemon_pty with a caller buffer of `bufferSize` bytes.
      After a read with data the buffer holds at most half the capacity and
      is the newest part of what was captured: a suffix of the old buffer
      followed by the copied bytes. */
  function Read(p: Pty, cap: int, bufferSize: int, outcome: ReadOutcome): (r: ReadResult)
    requires Valid(p, cap)
    ensures Valid(r.pty, cap)
    ensures !p.active || p.masterFd == -1 ==> r == ReadResult(-1, p, [])
    ensures r.code >= 0 ==> r.pty.buffer == p.buffer || r.code > 0
    ensures r.code > 0 ==> r.code == |r.data| && r.pty.active
    ensures r.code > 0 ==> |r.pty.buffer| <= cap / 2
    ensures r.code > 0 ==>
              var copied := p.buffer + r.data[..CopyLength(p, cap, |r.data|)];
              |r.pty.buffer| <= |copied| && r.pty.buffer == copied[|copied| - |r.pty.buffer|..]
              && |r.pty.buffer| == (if |copied| > cap / 2 then |copied| - cap / 2 else |copied|)
    ensures r.code > 0 ==> outcome.Ready? && r.data <= outcome.pending
    ensures r.code > 0 && bufferSize >= 1 ==> |r.data| == Min(|outcome.pending|, bufferSize - 1)
    ensures r.code > 0 && bufferSize == 0 ==> r.data == outcome.pending
    ensures p.active && p.masterFd != -1 && !outcome.Ready? ==> r == ReadResult(0, p, [])
    ensures p.active && p.masterFd != -1 && outcome == Ready([]) ==> r == ReadResult(0, p.(active := false), [])
    ensures r.pty.active ==> p.active
    ensures r.pty.masterFd == p.masterFd && r.pty.sessionId == p.sessionId
  {
    if !p.active || p.masterFd == -1 then ReadResult(-1, p, [])
    else
      match outcome
      case NotReady => ReadResult(0, p, [])
      case ReadFailed => ReadResult(0, p, [])
      case Ready(pending) =>
        var limit := if bufferSize == 0 then |pending| else bufferSize - 1;
        var data := Prefix(pending, limit);
        if |data| == 0 then ReadResult(0, p.(active := false), [])
        else
          var copy := CopyLength(p, cap, |data|);
          ReadResult(|data|, p.(buffer := Capture(p.buffer, data[..copy], cap)), data)
  }

  /** A read whose bytes fit in half the buffer is appended whole. */
  lemma SmallReadAppends(p: Pty, cap: int, bufferSize: int, pending: string)
    requires Valid(p, cap) && p.active && p.masterFd != -1
    requires 0 < |pending| < bufferSize
    requires |p.buffer| + |pending| <= cap / 2
    ensures Read(p, cap, bufferSize, Ready(pending)) == ReadResult(|pending|, p.(buffer := p.buffer + pending), pending)
  {
    assert pending[..|pending|] == pending;
  }

  /** After a read with data, asking for the context with the capture
      buffer's capacity hands out the whole buffer. */
  lemma ContextAfterReadIsWholeBuffer(p: Pty, cap: int, bufferSize: int, outcome: ReadOutcome)
    requires Valid(p, cap)
    requires Read(p, cap, bufferSize, outcome).code > 0
    ensures var q := Read(p, cap, bufferSize, outcome).pty;
            Context(q, cap) == ContextResult(|q.buffer|, q.buffer)
  {
    var q := Read(p, cap, bufferSize, outcome).pty;
    assert q.buffer[|q.buffer| - |q.buffer|..] == q.buffer;
  }

  /** A read that takes the buffer past half its capacity drops exactly the
      oldest cap/2 bytes of what was captured. */
  lemma LargeReadCompacts(p: Pty, cap: int, bufferSize: int, pending: string)
    requires Valid(p, cap) && p.active && p.masterFd != -1
    requires 0 < |pending| < bufferSize
    requires |p.buffer| + |pending| <= cap - 1
    requires |p.buffer| + |pending| > cap / 2
    ensures Read(p, cap, bufferSize, Ready(pending)) == ReadResult(|pending|, p.(buffer := (p.buffer + pending)[cap / 2..]), pending)
  {
    assert Prefix(pending, bufferSize - 1) == pending;
    assert pending[..|pending|] == pending;
  }

  /** End of stream marks the session inactive and leaves the buffer. */
  lemma EndOfStreamDeactivates(p: Pty, cap: int, bufferSize: int)
    requires Valid(p, cap) && p.active && p.masterFd != -1
    ensures Read(p, cap, bufferSize, Ready([])) == ReadResult(0, p.(active := false), [])
  {
  }

  // ---------------------------------------------------------------------
  // Writing and context

  /** write_to_daemon_pty: -1 unless active with a master descriptor,
      otherwise what write() returned. */
  function Write(p: Pty, written: int): (r: int)
    ensures !p.active || p.masterFd == -1 ==> r == -1
    ensures p.active && p.masterFd != -1 ==> r == written
  {
    if !p.active || p.masterFd == -1 then -1 else written
  }

  datatype ContextResult = ContextResult(code: int, text: string)

  /** get_daemon_pty_context into a buffer of `contextSize` bytes.  Only the
      active flag is checked, not the master descriptor. */
  function Context(p: Pty, contextSize: int): (r: ContextResult)
    requires contextSize >= 1
    ensures !p.active ==> r == ContextResult(-1, [])
    ensures p.active ==> r.code == |r.text| == Min(|p.buffer|, contextSize / 2)
    ensures p.active ==> r.code <= contextSize - 1
    ensures p.active ==> r.text == p.buffer[|p.buffer| - |r.text|..]
  {
    if !p.active then ContextResult(-1, [])
    else
      var start := if |p.buffer| > contextSize / 2 then |p.buffer| - contextSize / 2 else 0;
      var n := Min(|p.buffer| - start, contextSize - 1);
      ContextResult(n, p.buffer[start..start + n])
  }

  /** The bytes of a read that fits show up at the end of the next context,
      provided the context is asked for at least twice their length. */
  lemma ContextSeesLatestRead(p: Pty, cap: int, bufferSize: int, pending: string, contextSize: int)
    requires Valid(p, cap) && p.active && p.masterFd != -1
    requires 0 < |pending| < bufferSize
    requires |p.buffer| + |pending| <= cap / 2
    requires contextSize >= 2 * |pending|
    ensures var q := Read(p, cap, bufferSize, Ready(pending)).pty;
            var t := Context(q, contextSize).text;
            |t| >= |pending| && t[|t| - |pending|..] == pending
  {
    SmallReadAppends(p, cap, bufferSize, pending);
    var q := p.(buffer := p.buffer + pending);
    var t := Context(q, contextSize).text;
    assert t == q.buffer[|q.buffer| - |t|..];
  }
}
