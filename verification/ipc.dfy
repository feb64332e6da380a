/** Framing of the daemon's local socket protocol: a 52-byte header of five
    32-bit fields and a 32-byte session id, followed by the payload.  The
    socket is a stream of octets, one `char` per octet; the header's integers
    are laid out in the host's byte order, which is a parameter. */
module Ipc {
  import opened Text

  const MAX_IPC_MESSAGE_SIZE: int := 4096
  const SESSION_ID_FIELD: int := 32
  /** Five uint32 fields and the session id, with no padding. */
  const HEADER_SIZE: int := 5 * 4 + SESSION_ID_FIELD
  const MAX_PAYLOAD: int := MAX_IPC_MESSAGE_SIZE - HEADER_SIZE
  const IPC_MAGIC: int := 0x534D5443
  const IPC_VERSION: int := 1
  const U32_LIMIT: int := 0x1_0000_0000

  const MSG_TYPE_PING: int := 1
  const MSG_TYPE_SUGGESTION: int := 2
  const MSG_TYPE_CONTEXT: int := 3
  const MSG_TYPE_COMMAND: int := 4
  const MSG_TYPE_RESPONSE: int := 5
  const MSG_TYPE_ERROR: int := 6

  // ---------------------------------------------------------------------
  // Payload validation

  /** A byte the validator lets through: not a control character, except
      tab and newline.  Bytes from 0x7F up are accepted. */
  predicate SafeChar(c: char)
  {
    c as int >= 32 || c == '\t' || c == '\n'
  }

  /** The payload rules: non-empty, at most 4044 bytes, no control
      characters, no "..", "~" or "$(". */
  predicate ValidPayload(m: string)
  {
    && 0 < |m| <= MAX_PAYLOAD
    && (forall i :: 0 <= i < |m| ==> SafeChar(m[i]))
    && !Contains(m, "..")
    && !Contains(m, "~")
    && !Contains(m, "$(")
  }

  /** validate_ipc_message over a C string (`None` is NULL). */
  method ValidateMessage(message: Option<string>) returns (r: int)
    requires message.Some? ==> '\0' !in message.value
    ensures r == 0 || r == -1
    ensures r == 0 <==> message.Some? && ValidPayload(message.value)
  {
    if message.None? {
      return -1;
    }
    var m := message.value;
    if |m| == 0 || |m| > MAX_PAYLOAD {
      return -1;
    }
    var i := 0;
    while i < |m|
      invariant 0 <= i <= |m|
      invariant forall j :: 0 <= j < i ==> SafeChar(m[j])
    {
      if m[i] as int < 32 && m[i] != '\t' && m[i] != '\n' {
        return -1;
      }
      i := i + 1;
    }
    if Contains(m, "..") || Contains(m, "~") || Contains(m, "$(") {
      return -1;
    }
    return 0;
  }

  // ---------------------------------------------------------------------
  // Header layout

  datatype ByteOrder = LittleEndian | BigEndian

  datatype Header = Header(magic: int, version: int, msgType: int, length: int, timestamp: int, sessionId: string)

  predicate IsU32(v: int) { 0 <= v < U32_LIMIT }

  predicate IsOctet(c: char) { c as int < 256 }

  predicate WellFormed(h: Header)
  {
    && IsU32(h.magic) && IsU32(h.version) && IsU32(h.msgType)
    && IsU32(h.length) && IsU32(h.timestamp)
    && |h.sessionId| == SESSION_ID_FIELD
    && forall i :: 0 <= i < |h.sessionId| ==> IsOctet(h.sessionId[i])
  }

  function Octet(v: int): (c: char)
    requires 0 <= v < 256
    ensures c as int == v
  {
    v as char
  }

  /** The four bytes of a 32-bit field in memory order. */
  function EncodeU32(v: int, order: ByteOrder): (r: string)
    requires IsU32(v)
    ensures |r| == 4
    ensures forall i :: 0 <= i < 4 ==> IsOctet(r[i])
  {
    var b0, b1, b2, b3 := Octet(v % 256), Octet(v / 256 % 256), Octet(v / 65536 % 256), Octet(v / 16777216 % 256);
    match order
    case LittleEndian => [b0, b1, b2, b3]
    case BigEndian => [b3, b2, b1, b0]
  }

  /** The value of four bytes read as a 32-bit field. */
  function DecodeU32(s: string, order: ByteOrder): int
    requires |s| == 4
  {
    match order
    case LittleEndian => s[0] as int + 256 * s[1] as int + 65536 * s[2] as int + 16777216 * s[3] as int
    case BigEndian => s[3] as int + 256 * s[2] as int + 65536 * s[1] as int + 16777216 * s[0] as int
  }

  lemma DecodeEncodeU32(v: int, order: ByteOrder)
    requires IsU32(v)
    ensures DecodeU32(EncodeU32(v, order), order) == v
  {
    var q1 := v / 256;
    var q2 := q1 / 256;
    var q3 := q2 / 256;
    assert v == q1 * 256 + v % 256;
    assert q1 == q2 * 256 + q1 % 256;
    assert q2 == q3 * 256 + q2 % 256;
    assert v / 65536 == q2;
    assert v / 16777216 == q3;
    assert q3 < 256;
    var b0, b1, b2, b3 := v % 256, q1 % 256, q2 % 256, q3;
    assert v == b0 + 256 * b1 + 65536 * b2 + 16777216 * b3;
    var e := EncodeU32(v, order);
    if order.LittleEndian? {
      assert e[0] as int == b0 && e[1] as int == b1 && e[2] as int == b2 && e[3] as int == b3;
    } else {
      assert e[3] as int == b0 && e[2] as int == b1 && e[1] as int == b2 && e[0] as int == b3;
    }
  }

  function EncodeHeader(h: Header, order: ByteOrder): (r: string)
    requires WellFormed(h)
    ensures |r| == HEADER_SIZE
  {
    EncodeU32(h.magic, order) + EncodeU32(h.version, order) + EncodeU32(h.msgType, order)
      + EncodeU32(h.length, order) + EncodeU32(h.timestamp, order) + h.sessionId
  }

  function DecodeHeader(s: string, order: ByteOrder): Header
    requires |s| == HEADER_SIZE
  {
    Header(DecodeU32(s[0..4], order), DecodeU32(s[4..8], order), DecodeU32(s[8..12], order),
           DecodeU32(s[12..16], order), DecodeU32(s[16..20], order), s[20..52])
  }

  lemma DecodeEncodeHeader(h: Header, order: ByteOrder)
    requires WellFormed(h)
    ensures DecodeHeader(EncodeHeader(h, order), order) == h
  {
    var s := EncodeHeader(h, order);
    assert s[0..4] == EncodeU32(h.magic, order);
    assert s[4..8] == EncodeU32(h.version, order);
    assert s[8..12] == EncodeU32(h.msgType, order);
    assert s[12..16] == EncodeU32(h.length, order);
    assert s[16..20] == EncodeU32(h.timestamp, order);
    assert s[20..52] == h.sessionId;
    DecodeEncodeU32(h.magic, order);
    DecodeEncodeU32(h.version, order);
    DecodeEncodeU32(h.msgType, order);
    DecodeEncodeU32(h.length, order);
    DecodeEncodeU32(h.timestamp, order);
  }

  // ---------------------------------------------------------------------
  // Sending and receiving

  datatype SendResult = SendResult(code: int, written: string)

  /** The header every send uses: the message type is always SUGGESTION,
      the timestamp is the clock cut to 32 bits and the session id is zero. */
  function SendHeader(length: int, now: int): (h: Header)
    requires 0 <= length <= MAX_PAYLOAD
    ensures WellFormed(h)
  {
    Header(IPC_MAGIC, IPC_VERSION, MSG_TYPE_SUGGESTION, length, now % U32_LIMIT, seq(SESSION_ID_FIELD, _ => '\0'))
  }

  /** send_ipc_message over a socket that accepts every byte: an invalid
      message writes nothing, a valid one writes the header and then the
      payload. */
  function Send(fd: int, message: Option<string>, now: int, order: ByteOrder): (r: SendResult)
    requires message.Some? ==> '\0' !in message.value
    ensures r.code == 0 || r.code == -1
    ensures r.code == -1 <==> r.written == []
    ensures r.code == 0 <==> fd != -1 && message.Some? && ValidPayload(message.value)
    ensures r.code == 0 ==> |r.written| == HEADER_SIZE + |message.value|
    ensures r.code == 0 ==> r.written[HEADER_SIZE..] == message.value
  {
    if fd == -1 || message.None? || !ValidPayload(message.value) then SendResult(-1, [])
    else
      var m := message.value;
      SendResult(0, EncodeHeader(SendHeader(|m|, now), order) + m)
  }

  /** Result of receive_ipc_message: the return code, the C string left in
      the buffer when the code is positive, and the bytes still unread. */
  datatype Received = Received(code: int, text: string, rest: string)

  /** receive_ipc_message over the bytes waiting on the socket.  Each recv
      returns what is requested or, if fewer bytes remain, all of them. */
  function Receive(fd: int, stream: string, bufferSize: int, order: ByteOrder): (r: Received)
    ensures r.code > 0 ==> ValidPayload(r.text) && r.code <= MAX_PAYLOAD && r.code < bufferSize
    ensures r.code > 0 ==> r.code >= |r.text|
    ensures r.code <= 0 ==> r.text == []
    ensures |r.rest| <= |stream| && r.rest == stream[|stream| - |r.rest|..]
    ensures fd == -1 || bufferSize < HEADER_SIZE + 1 ==> r == Received(-1, [], stream)
    ensures fd != -1 && bufferSize >= HEADER_SIZE + 1 && |stream| == 0 ==> r.code == 0
    ensures 0 < |stream| < HEADER_SIZE ==> r.code == -1
    ensures r.code > 0 ==>
              |stream| >= HEADER_SIZE + r.code
              && var h := DecodeHeader(stream[..HEADER_SIZE], order);
                 h.magic == IPC_MAGIC && h.version == IPC_VERSION && h.length == r.code
                 && r.text == CStrOf(stream[HEADER_SIZE..HEADER_SIZE + r.code])
                 && r.rest == stream[HEADER_SIZE + r.code..]
  {
    if fd == -1 || bufferSize < HEADER_SIZE + 1 then Received(-1, [], stream)
    else if |stream| == 0 then Received(0, [], stream)
    else if |stream| < HEADER_SIZE then Received(-1, [], [])
    else
      var h := DecodeHeader(stream[..HEADER_SIZE], order);
      var body := stream[HEADER_SIZE..];
      if h.magic != IPC_MAGIC || h.version != IPC_VERSION then Received(-1, [], body)
      else if h.length > MAX_PAYLOAD then Received(-1, [], body)
      else if h.length > bufferSize - 1 then Received(-1, [], body)
      else if |body| < h.length then
        Received(if |body| == 0 then 0 else -1, [], [])
      else
        assert body[..h.length] == stream[HEADER_SIZE..HEADER_SIZE + h.length];
        var text := CStrOf(body[..h.length]);
        if !ValidPayload(text) then Received(-1, [], body[h.length..])
        else Received(h.length, text, body[h.length..])
  }

  /** What one side sends, the other receives unchanged: the code is the
      payload length and the bytes that follow stay unread. */
  lemma SendReceiveRoundTrip(fd: int, m: string, now: int, order: ByteOrder, bufferSize: int, rest: string)
    requires fd != -1 && '\0' !in m && ValidPayload(m)
    requires bufferSize >= HEADER_SIZE + 1 && bufferSize > |m|
    ensures var sent := Send(fd, Some(m), now, order);
            sent.code == 0 && Receive(fd, sent.written + rest, bufferSize, order) == Received(|m|, m, rest)
  {
    var hs := EncodeHeader(SendHeader(|m|, now), order);
    assert Send(fd, Some(m), now, order).written + rest == hs + (m + rest);
    ReceiveFrame(fd, m + rest, |m|, now, order, bufferSize);
    assert (m + rest)[..|m|] == m;
    CStrOfNoNul(m);
    assert (m + rest)[|m|..] == rest;
  }

  /** A frame our own header opens is read up to the announced length. */
  lemma ReceiveFrame(fd: int, body: string, length: int, now: int, order: ByteOrder, bufferSize: int)
    requires fd != -1 && 0 <= length <= MAX_PAYLOAD && length <= |body|
    requires bufferSize >= HEADER_SIZE + 1 && bufferSize > length
    ensures var text := CStrOf(body[..length]);
            Receive(fd, EncodeHeader(SendHeader(length, now), order) + body, bufferSize, order) ==
              if ValidPayload(text) then Received(length, text, body[length..]) else Received(-1, [], body[length..])
  {
    var h := SendHeader(length, now);
    var hs := EncodeHeader(h, order);
    var stream := hs + body;
    assert stream[..HEADER_SIZE] == hs;
    DecodeEncodeHeader(h, order);
    assert stream[HEADER_SIZE..] == body;
  }

  /** A frame whose first four bytes are not the magic number is refused
      before its payload is read. */
  lemma BadMagicRejected(fd: int, stream: string, bufferSize: int, order: ByteOrder)
    requires fd != -1 && bufferSize >= HEADER_SIZE + 1 && |stream| >= HEADER_SIZE
    requires DecodeU32(stream[..4], order) != IPC_MAGIC
    ensures Receive(fd, stream, bufferSize, order) == Received(-1, [], stream[HEADER_SIZE..])
  {
    assert stream[..HEADER_SIZE][0..4] == stream[..4];
  }

  /** The header checks in order: a wrong magic number or version, a length
      over MAX_PAYLOAD or one the buffer cannot hold is refused with -1
      before the payload is read; a payload cut short is -1, or 0 when
      nothing at all follows the header. */
  lemma HeaderErrorsRejected(fd: int, h: Header, body: string, bufferSize: int, order: ByteOrder)
    requires fd != -1 && bufferSize >= HEADER_SIZE + 1 && WellFormed(h)
    ensures var r := Receive(fd, EncodeHeader(h, order) + body, bufferSize, order);
            (h.magic != IPC_MAGIC || h.version != IPC_VERSION ==> r == Received(-1, [], body))
            && (h.length > MAX_PAYLOAD ==> r == Received(-1, [], body))
            && (h.length > bufferSize - 1 ==> r == Received(-1, [], body))
            && ((h.magic == IPC_MAGIC && h.version == IPC_VERSION && h.length <= MAX_PAYLOAD && h.length <= bufferSize - 1
                 && |body| < h.length) ==> r == Received(if |body| == 0 then 0 else -1, [], []))
  {
    var stream := EncodeHeader(h, order) + body;
    assert stream[..HEADER_SIZE] == EncodeHeader(h, order);
    assert stream[HEADER_SIZE..] == body;
    DecodeEncodeHeader(h, order);
  }

  /** A payload with a NUL inside is judged by the part before the NUL, and
      the code is still the full length the header announced. */
  lemma EmbeddedNulKeepsAnnouncedLength(fd: int, m: string, tail: string, now: int, order: ByteOrder, bufferSize: int)
    requires fd != -1 && '\0' !in m && ValidPayload(m)
    requires |m| + 1 + |tail| <= MAX_PAYLOAD
    requires bufferSize >= HEADER_SIZE + 1 && bufferSize > |m| + 1 + |tail|
    ensures var payload := m + "\0" + tail;
            var frame := EncodeHeader(SendHeader(|payload|, now), order) + payload;
            Receive(fd, frame, bufferSize, order) == Received(|payload|, m, [])
  {
    var payload := m + "\0" + tail;
    ReceiveFrame(fd, payload, |payload|, now, order, bufferSize);
    assert payload[..|payload|] == payload;
    CStrOfStopsAtNul(m, tail);
  }

  lemma {:induction false} CStrOfStopsAtNul(m: string, tail: string)
    requires '\0' !in m
    ensures CStrOf(m + "\0" + tail) == m
    decreases |m|
  {
    if |m| > 0 {
      assert (m + "\0" + tail)[1..] == m[1..] + "\0" + tail;
      CStrOfStopsAtNul(m[1..], tail);
      assert [m[0]] + m[1..] == m;
    } else {
      assert (m + "\0" + tail)[0] == '\0';
    }
  }

  // ---------------------------------------------------------------------
  // Accepting a client and pinging the daemon

  /** What accept() and the peer-credential query report. */
  datatype AcceptOutcome =
    | WouldBlock
    | AcceptError
    | Connected(clientFd: int, peerUid: Option<int>)

  /** accept_ipc_connection: 0 when no client is waiting, -1 on an error or
      for a peer running as another user, otherwise the client's handle. */
  function Accept(serverFd: int, outcome: AcceptOutcome, ownUid: int): (r: int)
    ensures serverFd != -1 && outcome.WouldBlock? ==> r == 0
    ensures r != 0 && r != -1 ==> outcome.Connected? && r == outcome.clientFd
    ensures outcome.Connected? && outcome.peerUid.Some? && outcome.peerUid.value != ownUid ==> r == -1
    ensures serverFd != -1 && outcome.Connected? && (outcome.peerUid.None? || outcome.peerUid.value == ownUid) ==> r == outcome.clientFd
  {
    if serverFd == -1 then -1
    else
      match outcome
      case WouldBlock => 0
      case AcceptError => -1
      case Connected(fd, uid) =>
        if uid.Some? && uid.value != ownUid then -1 else fd
  }

  const PING: string := "ping"
  const PONG: string := "pong"
  const PING_RESPONSE_BUFFER: int := 256

  /** ping_daemon, given whether the connection was made and the bytes the
      daemon answered with. */
  function Ping(connected: bool, reply: string, now: int, order: ByteOrder): (r: int)
    ensures r == 0 || r == -1
    ensures r == 0 ==> connected
  {
    if !connected then -1
    else
      var sent := Send(0, Some(PING), now, order);
      if sent.code == -1 then -1
      else
        var got := Receive(0, reply, PING_RESPONSE_BUFFER, order);
        if got.code > 0 && got.text == PONG then 0 else -1
  }

  /** The ping request always passes validation. */
  lemma PingIsValid()
    ensures ValidPayload(PING) && ValidPayload(PONG)
  {
    AbsentFirstChar(PING, "..");
    AbsentFirstChar(PING, "~");
    AbsentFirstChar(PING, "$(");
    AbsentFirstChar(PONG, "..");
    AbsentFirstChar(PONG, "~");
    AbsentFirstChar(PONG, "$(");
  }

  /** Ping succeeds exactly when the daemon's answer is a frame carrying
      "pong"; any other valid answer makes it fail. */
  lemma PingAgainstDaemon(now: int, order: ByteOrder, answer: string, daemonNow: int, rest: string)
    requires '\0' !in answer && ValidPayload(answer) && |answer| < PING_RESPONSE_BUFFER
    ensures var frame := Send(1, Some(answer), daemonNow, order).written;
            Ping(true, frame + rest, now, order) == 0 <==> answer == PONG
  {
    PingIsValid();
    SendReceiveRoundTrip(1, answer, daemonNow, order, PING_RESPONSE_BUFFER, rest);
    var frame := Send(1, Some(answer), daemonNow, order).written;
    assert Send(0, Some(answer), daemonNow, order).written == frame;
  }
}
