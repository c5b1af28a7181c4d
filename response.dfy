/**
  `Response`: a response read from a live connection. Bytes arrive from the
  socket into `read_buffer`; `buffer_start` is the cursor into it. What the
  client has yet to consume is the unread part of the buffer followed by
  what the socket has not delivered yet (Pending).
 */
module Responses {
  import opened Wrappers
  import opened Bytes
  import opened Numerals
  import opened Headers
  import opened HttpMessage
  import opened Chunked
  import opened Net

  /** How many bytes `read_line` and `read_headers` ask the socket for at a time. */
  const LINE_RECV: nat := 8192
  /** The most bytes `_read_plain` asks the socket for at a time. */
  const PLAIN_RECV: nat := 65535

  /** The keys `getheader(b"content-length")` and `getheader(b"Transfer-Encoding")` look up. */
  const CONTENT_LENGTH: HeaderKey := TitleKey(BytesKey(Ascii("content-length")))
  const TRANSFER_ENCODING: HeaderKey := TitleKey(BytesKey(Ascii("Transfer-Encoding")))
  const CHUNKED: bytes := Ascii("chunked")

  class Response {
    // The fields of BaseResponse (Dafny classes do not inherit fields).
    var status: int
    var reason: bytes
    var headers: HeaderMap
    var text: bytes
    // Response's own state.
    var connection: Socket
    var readBuffer: bytes
    var bufferStart: nat
    var chunked: bool
    var version: bytes
    var contentLength: bytes

    predicate Valid()
      reads this, connection
    {
      bufferStart <= |readBuffer| && connection.Valid()
    }

    /** The bytes not yet consumed: the rest of the buffer, then what the socket still holds. */
    function Pending(): bytes
      reads this, connection
      requires Valid()
    {
      readBuffer[bufferStart..] + connection.Unreceived()
    }

    /** `Response(sock)`: BaseResponse's defaults, an empty buffer, not chunked. */
    constructor (sock: Socket)
      requires sock.Valid()
      ensures Valid() && connection == sock && Pending() == sock.Unreceived()
      ensures status == 601 && reason == [] && headers == map[] && text == []
      ensures readBuffer == [] && bufferStart == 0 && !chunked
      ensures version == [] && contentLength == []
    {
      status, reason, headers, text := 601, [], map[], [];
      connection := sock;
      readBuffer, bufferStart := [], 0;
      chunked := false;
      version, contentLength := [], [];
    }

    /**
      The loop `read_line` and `read_headers` share: search the buffer from
      the cursor for `pat`, and when it is not there receive more and search
      again. The bytes up to `pat` are returned and the cursor moves past it;
      a socket that runs dry is a time-out.
     */
    method ReadUntil(pat: bytes) returns (r: Result<bytes>)
      requires Valid() && |pat| > 0
      modifies this`readBuffer, this`bufferStart, connection
      ensures Valid()
      ensures connection.sent == old(connection.sent) && connection.window == old(connection.window)
      ensures FindFrom(old(Pending()), pat, 0) == -1 ==> r.Err? && r.error == Timeout && Pending() == old(Pending())
      ensures FindFrom(old(Pending()), pat, 0) != -1 ==>
        && r.Ok? && FindFrom(old(Pending()), pat, 0) == |r.value|
        && old(Pending()) == r.value + pat + Pending()
    {
      r := ReadUntilIn(pat, Pending());
    }

    /** ReadUntil on the bytes `p` still to come. */
    method ReadUntilIn(pat: bytes, ghost p: bytes) returns (r: Result<bytes>)
      requires Valid() && |pat| > 0 && Pending() == p
      modifies this`readBuffer, this`bufferStart, connection
      ensures Valid()
      ensures connection.sent == old(connection.sent) && connection.window == old(connection.window)
      ensures FindFrom(p, pat, 0) == -1 ==> r.Err? && r.error == Timeout && Pending() == p
      ensures FindFrom(p, pat, 0) != -1 ==>
        && r.Ok? && FindFrom(p, pat, 0) == |r.value|
        && p == r.value + pat + Pending()
    {
      var buf, n := ReceiveUntil(connection, readBuffer, bufferStart, pat);
      var start := bufferStart;
      readBuffer := buf;
      assert p == buf[start..] + connection.Unreceived();
      if n == -1 {
        assert buf[start..] + [] == buf[start..];
        FindFromCursorNone(buf, start, pat);
        return Err(Timeout);
      }
      var line := buf[start..n];
      ghost var rest := buf[n + |pat|..] + connection.Unreceived();
      FoundIn(p, buf, start, pat, connection.Unreceived());
      bufferStart := n + |pat|;
      assert Pending() == rest;
      return Ok(line);
    }

    /** `read_line`: the bytes up to the next CRLF, or a time-out. */
    method ReadLine() returns (r: Result<bytes>)
      requires Valid()
      modifies this`readBuffer, this`bufferStart, connection
      ensures Valid()
      ensures connection.sent == old(connection.sent) && connection.window == old(connection.window)
      ensures FindFrom(old(Pending()), CRLF, 0) == -1 ==> r.Err? && r.error == Timeout && Pending() == old(Pending())
      ensures FindFrom(old(Pending()), CRLF, 0) != -1 ==>
        && r.Ok? && FindFrom(old(Pending()), CRLF, 0) == |r.value|
        && old(Pending()) == r.value + CRLF + Pending()
    {
      r := ReadUntil(CRLF);
    }

    /**
      `read_headers`: the bytes up to the next CRLF CRLF. Its own exception
      handler swallows the time-out and the method returns None instead.
     */
    method ReadHeaders() returns (r: Option<bytes>)
      requires Valid()
      modifies this`readBuffer, this`bufferStart, connection
      ensures Valid()
      ensures connection.sent == old(connection.sent) && connection.window == old(connection.window)
      ensures FindFrom(old(Pending()), CRLFCRLF, 0) == -1 ==> r.None? && Pending() == old(Pending())
      ensures FindFrom(old(Pending()), CRLFCRLF, 0) != -1 ==>
        && r.Some? && FindFrom(old(Pending()), CRLFCRLF, 0) == |r.value|
        && old(Pending()) == r.value + CRLFCRLF + Pending()
    {
      var block := ReadUntil(CRLFCRLF);
      if block.Err? {
        return None;
      }
      return Some(block.value);
    }

    /**
      `begin`: the status line (trailing CR and LF stripped), then the
      header block, each field stored under its title-cased name, then
      `content_length` and `chunked` from the stored fields. The outcome is
      ParseHead's on the bytes still to come, with the client's own
      exceptions: a time-out for a missing status line, and for a missing
      block the error of splitting the None that `read_headers` returns.
     */
    method Begin() returns (e: Option<Error>)
      requires Valid()
      modifies this`readBuffer, this`bufferStart, connection
      modifies this`version, this`status, this`reason, this`headers, this`contentLength, this`chunked
      ensures Valid()
      ensures connection.sent == old(connection.sent) && connection.window == old(connection.window)
      ensures ParseHead(old(Pending()), 0).Err? ==> e == Some(BeginError(ParseHead(old(Pending()), 0).error))
      ensures ParseHead(old(Pending()), 0).Ok? ==>
        && e == None
        && version == ParseHead(old(Pending()), 0).value.line.version
        && status == ParseHead(old(Pending()), 0).value.line.status
        && reason == ParseHead(old(Pending()), 0).value.line.info
        && headers == FieldMap(ParseHead(old(Pending()), 0).value.fields)
        && Pending() == old(Pending())[ParseHead(old(Pending()), 0).value.bodyStart..]
      ensures e == None ==> contentLength == ContentLengthField(headers)
      ensures e == None ==> chunked == (old(chunked) || ChunkedCoding(headers))
    {
      e := ReadHead(Pending());
      if e == None {
        SetFlags();
      }
    }

    /** `begin` up to the stored header fields, on the bytes `p` still to come. */
    method ReadHead(ghost p: bytes) returns (e: Option<Error>)
      requires Valid() && Pending() == p
      modifies this`readBuffer, this`bufferStart, connection, this`version, this`status, this`reason, this`headers
      ensures Valid()
      ensures connection.sent == old(connection.sent) && connection.window == old(connection.window)
      ensures Began(p, e, version, status, reason, headers, Pending())
    {
      var words, line := ReadStatus(p);
      if words.Err? && words.error == Timeout {
        ParseHeadNoLine(p, 0);
        return Some(Timeout);
      }
      ghost var afterLine := Pending();
      if words.Err? {
        HeadBadLine(p, line, afterLine);
        return Some(words.error);
      }
      var found, block := ReadFields(afterLine);
      if !found {
        HeadNoBlock(p, line, afterLine);
        return Some(NoHeaderBlock);
      }
      BeganReading(p, line, afterLine, block, Pending(), version, status, reason, headers);
      return None;
    }

    /**
      The first part of `begin`, on the bytes `p` still to come:
      `read_line`, the trailing CR and LF stripped, then the status line's
      words. `line` is the line as read.
     */
    method ReadStatus(ghost p: bytes) returns (r: Result<StatusLine>, ghost line: bytes)
      requires Valid() && Pending() == p
      modifies this`readBuffer, this`bufferStart, connection, this`version, this`status, this`reason
      ensures Valid()
      ensures connection.sent == old(connection.sent) && connection.window == old(connection.window)
      ensures FindFrom(p, CRLF, 0) == -1 ==> r == Err(Timeout)
      ensures FindFrom(p, CRLF, 0) != -1 ==>
        && FindFrom(p, CRLF, 0) == |line| && p == line + CRLF + Pending()
        && r == ParseStatusLine(line)
      ensures r.Ok? ==> version == r.value.version && status == r.value.status && reason == r.value.info
    {
      var read := ReadLine();
      if read.Err? {
        return Err(Timeout), [];
      }
      line := read.value;
      StatusLineIgnoresTrailingNewline(read.value);
      r := ParseStatusLine(TrimEnd(read.value, {CR, LF}));
      if r.Ok? {
        version, status, reason := r.value.version, r.value.status, r.value.info;
      }
    }

    /**
      The second part of `begin`, on the bytes `p` still to come:
      `read_headers`, then the fields stored. A missing block leaves the
      dictionary empty and `found` false. `block` is the block as read.
     */
    method ReadFields(ghost p: bytes) returns (found: bool, ghost block: bytes)
      requires Valid() && Pending() == p
      modifies this`readBuffer, this`bufferStart, connection, this`headers
      ensures Valid()
      ensures connection.sent == old(connection.sent) && connection.window == old(connection.window)
      ensures FindFrom(p, CRLFCRLF, 0) == -1 ==> !found && headers == map[]
      ensures FindFrom(p, CRLFCRLF, 0) != -1 ==>
        && found && FindFrom(p, CRLFCRLF, 0) == |block|
        && p == block + CRLFCRLF + Pending()
        && headers == FieldMap(BlockFields(block))
    {
      headers := map[];
      var read := ReadHeaders();
      if read.None? {
        return false, [];
      }
      block := read.value;
      headers := StoreFields(read.value);
      return true, block;
    }

    /** `content_length` and `chunked` from the stored fields. */
    method SetFlags()
      modifies this`contentLength, this`chunked
      ensures contentLength == ContentLengthField(headers)
      ensures chunked == (old(chunked) || ChunkedCoding(headers))
    {
      contentLength := ContentLengthField(headers);
      if ChunkedCoding(headers) {
        chunked := true;
      }
    }

    /**
      `_read_plain(read_len)`. With a length: exactly that many bytes, taken
      from the buffer when it holds more than asked for, otherwise from the
      buffer and then the socket, the buffer emptied; too few before the
      socket runs dry is a time-out, and the bytes gathered are lost. With
      None: whatever the buffer holds, or else one receive's worth. The
      outcome is PlainRead's.
     */
    method ReadPlain(readLen: Option<int>) returns (r: Result<bytes>)
      requires Valid()
      modifies this`readBuffer, this`bufferStart, connection
      ensures Valid()
      ensures connection.sent == old(connection.sent) && connection.window == old(connection.window)
      ensures PlainRead(old(Pending()), old(readBuffer[bufferStart..]), readLen, r, Pending())
    {
      if readLen == Some(0) {
        return Ok([]);
      }
      if readLen.Some? && readLen.value < 0 {
        return Err(NegativeLength);
      }
      ghost var p := Pending();
      if readLen.Some? && |readBuffer| - bufferStart > readLen.value {
        r := TakeBuffered(readLen.value);
        return;
      }
      var out := readBuffer[bufferStart..];
      readBuffer, bufferStart := [], 0;
      assert p == out + connection.Unreceived();
      if readLen.None? {
        if |out| > 0 {
          return Ok(out);
        }
        var data := connection.Recv(PLAIN_RECV);
        if data.Err? {
          return Ok([]);
        }
        return Ok(data.value);
      }
      var got := ReceivePlain(connection, out, readLen.value);
      if |got| < readLen.value {
        return Err(Timeout);
      }
      return Ok(got);
    }

    /** The fast path of `_read_plain`: the buffer holds more than `n` bytes, so the first `n` are taken from it. */
    method TakeBuffered(n: nat) returns (r: Result<bytes>)
      requires Valid() && |readBuffer| - bufferStart > n
      modifies this`readBuffer, this`bufferStart
      ensures Valid()
      ensures r.Ok? && |r.value| == n && old(Pending()) == r.value + Pending()
    {
      ghost var p := Pending();
      var out := readBuffer[bufferStart..bufferStart + n];
      ghost var rest := readBuffer[bufferStart + n..] + connection.Unreceived();
      assert readBuffer[bufferStart..] == out + readBuffer[bufferStart + n..];
      assert p == out + rest;
      bufferStart := bufferStart + n;
      assert Pending() == rest;
      return Ok(out);
    }

    /**
      `_read_chunked`: the size line, `int(line, 16)`, then size + 2 bytes
      by `_read_plain`, of which the last two are dropped. The outcome is
      ChunkAt's.
     */
    method ReadChunked() returns (r: Result<bytes>)
      requires Valid()
      modifies this`readBuffer, this`bufferStart, connection
      ensures Valid()
      ensures connection.sent == old(connection.sent) && connection.window == old(connection.window)
      ensures ChunkAt(old(Pending())).Err? ==> r.Err? && r.error == ChunkAt(old(Pending())).error
      ensures ChunkAt(old(Pending())).Ok? ==>
        && r.Ok? && r.value == ChunkAt(old(Pending())).value.0
        && Pending() == old(Pending())[ChunkAt(old(Pending())).value.1..]
    {
      ghost var p := Pending();
      var line := ReadLine();
      if line.Err? {
        return Err(Timeout);
      }
      ghost var afterLine := Pending();
      var size := ParseInt(line.value, 16);
      if size.None? {
        ChunkLineBad(p, line.value, afterLine);
        return Err(BadInteger);
      }
      ghost var buffered := readBuffer[bufferStart..];
      var dat := ReadPlain(Some(size.value + 2));
      ChunkRead(p, line.value, afterLine, size.value, buffered, dat, Pending());
      if dat.Err? {
        return Err(dat.error);
      }
      return Ok(Slice(dat.value, 0, -2));
    }

    /** `read(read_len)`: `_read_plain` for a plain body, `_read_chunked` for a chunked one. */
    method Read(readLen: Option<int>) returns (r: Result<bytes>)
      requires Valid()
      modifies this`readBuffer, this`bufferStart, connection
      ensures Valid()
      ensures connection.sent == old(connection.sent) && connection.window == old(connection.window)
      ensures !chunked ==> PlainRead(old(Pending()), old(readBuffer[bufferStart..]), readLen, r, Pending())
      ensures chunked && ChunkAt(old(Pending())).Err? ==> r.Err? && r.error == ChunkAt(old(Pending())).error
      ensures chunked && ChunkAt(old(Pending())).Ok? ==>
        && r.Ok? && r.value == ChunkAt(old(Pending())).value.0
        && Pending() == old(Pending())[ChunkAt(old(Pending())).value.1..]
    {
      if !chunked {
        r := ReadPlain(readLen);
      } else {
        r := ReadChunked();
      }
    }

    /**
      `readall`: for a chunked body, chunks until an empty one, joined; the
      outcome is ChunkedBody's. Otherwise `int(content_length)` bytes by
      `_read_plain`.
     */
    method ReadAll() returns (r: Result<bytes>)
      requires Valid()
      modifies this`readBuffer, this`bufferStart, connection
      ensures Valid()
      ensures connection.sent == old(connection.sent) && connection.window == old(connection.window)
      ensures chunked && ChunkedBody(old(Pending())).Err? ==> r.Err? && r.error == ChunkedBody(old(Pending())).error
      ensures chunked && ChunkedBody(old(Pending())).Ok? ==>
        && r.Ok? && r.value == ChunkedBody(old(Pending())).value.0
        && Pending() == old(Pending())[ChunkedBody(old(Pending())).value.1..]
      ensures !chunked && ParseInt(contentLength, 10).None? ==> r == Err(BadInteger) && Pending() == old(Pending())
      ensures !chunked && ParseInt(contentLength, 10).Some? ==>
        PlainRead(old(Pending()), old(readBuffer[bufferStart..]), ParseInt(contentLength, 10), r, Pending())
    {
      if chunked {
        r := ReadAllChunks();
        return;
      }
      var n := ParseInt(contentLength, 10);
      if n.None? {
        return Err(BadInteger);
      }
      r := ReadPlain(n);
    }

    /** The loop of `readall` for a chunked body. */
    method ReadAllChunks() returns (r: Result<bytes>)
      requires Valid()
      modifies this`readBuffer, this`bufferStart, connection
      ensures Valid()
      ensures connection.sent == old(connection.sent) && connection.window == old(connection.window)
      ensures ChunkedBody(old(Pending())).Err? ==> r.Err? && r.error == ChunkedBody(old(Pending())).error
      ensures ChunkedBody(old(Pending())).Ok? ==>
        && r.Ok? && r.value == ChunkedBody(old(Pending())).value.0
        && Pending() == old(Pending())[ChunkedBody(old(Pending())).value.1..]
    {
      r := ReadChunks(Pending());
    }

    /** The loop of `readall` for a chunked body, on the bytes `p` still to come. */
    method ReadChunks(ghost p: bytes) returns (r: Result<bytes>)
      requires Valid() && Pending() == p
      modifies this`readBuffer, this`bufferStart, connection
      ensures Valid()
      ensures connection.sent == old(connection.sent) && connection.window == old(connection.window)
      ensures ChunkedBody(p).Err? ==> r.Err? && r.error == ChunkedBody(p).error
      ensures ChunkedBody(p).Ok? ==> r.Ok? && r.value == ChunkedBody(p).value.0 && Pending() == p[ChunkedBody(p).value.1..]
    {
      ghost var whole := ChunkedBody(p);
      ghost var done: bytes := [];
      ghost var rest := p;
      var out: bytes := [];
      ContinuesFromStart(whole);
      while true
        invariant Valid()
        invariant connection.sent == old(connection.sent) && connection.window == old(connection.window)
        invariant Pending() == rest && p == done + rest
        invariant Continues(whole, out, |done|, ChunkedBody(rest))
        decreases |rest|
      {
        ghost var now := ChunkedBody(rest);
        var dat, taken := NextChunk(rest);
        if dat.Err? {
          ContinuesToError(whole, out, |done|, now);
          return Err(dat.error);
        }
        ghost var next := Pending();
        assert p == (done + taken) + next;
        if |dat.value| == 0 {
          ContinuesToEnd(whole, out, |done|, now);
          AfterPrefix(p, done + taken, next);
          return Ok(out);
        }
        ContinuesFurther(whole, out, |done|, now, dat.value, |taken|, ChunkedBody(next));
        out := out + dat.value;
        done := done + taken;
        rest := next;
      }
    }

    /**
      One turn of `readall`'s loop: `_read_chunked` on the bytes `q` still
      to come, placed in their chunked body. `taken` is what it consumed.
     */
    method NextChunk(ghost q: bytes) returns (dat: Result<bytes>, ghost taken: bytes)
      requires Valid() && Pending() == q
      modifies this`readBuffer, this`bufferStart, connection
      ensures Valid()
      ensures connection.sent == old(connection.sent) && connection.window == old(connection.window)
      ensures dat.Err? ==> ChunkedBody(q).Err? && ChunkedBody(q).error == dat.error
      ensures dat.Ok? ==> |taken| > 0 && q == taken + Pending()
      ensures dat.Ok? && |dat.value| == 0 ==>
        ChunkedBody(q).Ok? && ChunkedBody(q).value.0 == [] && ChunkedBody(q).value.1 == |taken|
      ensures dat.Ok? && |dat.value| > 0 ==> Continues(ChunkedBody(q), dat.value, |taken|, ChunkedBody(Pending()))
    {
      ghost var c := ChunkAt(q);
      dat := ReadChunked();
      if dat.Err? {
        ChunkedStops(q, c);
        return dat, [];
      }
      var k := c.value.1;
      taken := q[..k];
      assert q == taken + q[k..];
      if |dat.value| == 0 {
        ChunkedEnds(q, c);
        return;
      }
      ChunkedGoesOn(q, c, q[k..]);
    }
  }

  // ---------------------------------------------------------------------
  // Receiving
  // ---------------------------------------------------------------------

  /**
    The receive loop of `read_line` and `read_headers`: while `pat` is not
    found after the cursor, append what the socket delivers to the buffer.
    The unread bytes stay what they were; the search result is for the
    final buffer, and -1 only once the socket has run dry.
   */
  method ReceiveUntil(sock: Socket, buf0: bytes, start: nat, pat: bytes) returns (buf: bytes, n: int)
    requires start <= |buf0| && sock.Valid()
    modifies sock
    ensures sock.Valid() && sock.sent == old(sock.sent) && sock.window == old(sock.window)
    ensures start <= |buf| && buf[start..] + sock.Unreceived() == buf0[start..] + old(sock.Unreceived())
    ensures n == FindFrom(buf, pat, start)
    ensures n == -1 ==> sock.Unreceived() == []
  {
    buf := buf0;
    n := FindFrom(buf, pat, start);
    var dry := false;
    while n == -1 && !dry
      invariant sock.Valid() && start <= |buf|
      invariant buf[start..] + sock.Unreceived() == buf0[start..] + old(sock.Unreceived())
      invariant n == FindFrom(buf, pat, start)
      invariant dry ==> sock.Unreceived() == []
      invariant sock.sent == old(sock.sent) && sock.window == old(sock.window)
      decreases |sock.Unreceived()|, if dry then 0 else 1
    {
      var data := sock.Recv(LINE_RECV);
      if data.Err? {
        dry := true;
      } else {
        CursorAppend(buf, start, data.value, sock.Unreceived());
        buf := buf + data.value;
        n := FindFrom(buf, pat, start);
      }
    }
  }

  /**
    The receive loop of `_read_plain` with a length: starting from the
    buffered bytes `have`, receive at most `n` bytes in all, asking for no
    more than are missing. Nothing is lost or reordered, and fewer than `n`
    only once the socket has run dry.
   */
  method ReceivePlain(sock: Socket, have: bytes, n: nat) returns (out: bytes)
    requires sock.Valid() && |have| <= n
    modifies sock
    ensures sock.Valid() && sock.sent == old(sock.sent) && sock.window == old(sock.window)
    ensures |out| <= n && out + sock.Unreceived() == have + old(sock.Unreceived())
    ensures |out| == n || sock.Unreceived() == []
  {
    out := have;
    var dry := false;
    while |out| < n && !dry
      invariant sock.Valid() && |out| <= n
      invariant out + sock.Unreceived() == have + old(sock.Unreceived())
      invariant dry ==> sock.Unreceived() == []
      invariant sock.sent == old(sock.sent) && sock.window == old(sock.window)
      decreases |sock.Unreceived()|, if dry then 0 else 1
    {
      var data := sock.Recv(Min(n - |out|, PLAIN_RECV));
      if data.Err? {
        dry := true;
      } else {
        assert out + data.value + sock.Unreceived() == out + (data.value + sock.Unreceived());
        out := out + data.value;
      }
    }
  }

  /** Bytes received are appended to the buffer and leave the unread bytes as they were. */
  lemma CursorAppend(buf: bytes, start: nat, data: bytes, rest: bytes)
    requires start <= |buf|
    ensures (buf + data)[start..] + rest == buf[start..] + (data + rest)
  {
    assert (buf + data)[start..] == buf[start..] + data;
  }

  /**
    A delimiter found at `n` from the cursor of `buf`: in the unread bytes
    `p` it is the first one, what comes before it is returned and what
    comes after it is still unread.
   */
  lemma FoundIn(p: bytes, buf: bytes, start: nat, pat: bytes, rest: bytes)
    requires start <= |buf| && p == buf[start..] + rest
    requires FindFrom(buf, pat, start) != -1
    ensures FindFrom(p, pat, 0) == FindFrom(buf, pat, start) - start
    ensures p == buf[start..FindFrom(buf, pat, start)] + pat + (buf[FindFrom(buf, pat, start) + |pat|..] + rest)
  {
    var n := FindFrom(buf, pat, start);
    FindFromCursor(buf, start, rest, pat);
    assert buf[n..n + |pat|] == pat;
    assert buf[start..] == buf[start..n] + buf[n..n + |pat|] + buf[n + |pat|..];
  }

  // ---------------------------------------------------------------------
  // _read_plain's outcome
  // ---------------------------------------------------------------------

  /**
    What `_read_plain(read_len)` returns and leaves unread, given the bytes
    `p` still to come, of which `buffered` were in the buffer. A length of
    zero reads nothing; a negative one is refused (see README); a positive
    one reads exactly that many bytes, or times out having lost them all.
    None reads a non-empty prefix, the whole buffer when it is not empty,
    at most one receive's worth otherwise, and nothing only when there is
    nothing to come.
   */
  predicate PlainRead(p: bytes, buffered: bytes, readLen: Option<int>, r: Result<bytes>, rest: bytes) {
    match readLen
    case None =>
      && r.Ok? && p == r.value + rest
      && (|buffered| > 0 ==> r.value == buffered)
      && (|buffered| == 0 && |p| > 0 ==> 1 <= |r.value| <= PLAIN_RECV)
    case Some(n) =>
      if n == 0 then r == Ok([]) && rest == p
      else if n < 0 then r == Err(NegativeLength) && rest == p
      else if |p| >= n then r.Ok? && |r.value| == n && p == r.value + rest
      else r == Err(Timeout) && rest == []
  }

  /** A read of a given positive length is the prefix of that length, and what is left the rest. */
  lemma {:induction false} ExactRead(p: bytes, buffered: bytes, n: int, r: Result<bytes>, rest: bytes)
    requires n > 0 && PlainRead(p, buffered, Some(n), r, rest)
    ensures |p| >= n ==> r == Ok(p[..n]) && rest == p[n..]
    ensures |p| < n ==> r == Err(Timeout) && rest == []
  {
    if |p| >= n {
      assert p[..n] == r.value;
    }
  }

  /** Reading `n` bytes and then `m` more is reading `n` + `m` bytes. */
  lemma {:induction false} ExactReadsCompose(p: bytes, n: int, m: int, r1: Result<bytes>, mid: bytes, r2: Result<bytes>, rest: bytes)
    requires n > 0 && m > 0
    requires PlainRead(p, [], Some(n), r1, mid) && r1.Ok?
    requires PlainRead(mid, [], Some(m), r2, rest) && r2.Ok?
    ensures PlainRead(p, [], Some(n + m), Ok(r1.value + r2.value), rest)
  {
    assert p == r1.value + r2.value + rest;
  }

  /** Without a length, nothing is lost: what is returned and what is left make up what was to come. */
  lemma PlainReadLosesNothing(p: bytes, buffered: bytes, r: Result<bytes>, rest: bytes)
    requires PlainRead(p, buffered, None, r, rest)
    ensures r.Ok? && |r.value| + |rest| == |p| && p[..|r.value|] == r.value
    ensures p == [] ==> r == Ok([])
  {
    assert p[..|r.value|] == r.value;
  }

  // ---------------------------------------------------------------------
  // _read_chunked and readall against ChunkAt and ChunkedBody
  // ---------------------------------------------------------------------

  /** A size line `int(line, 16)` rejects: ChunkAt's ValueError. */
  lemma ChunkLineBad(p: bytes, line: bytes, afterLine: bytes)
    requires FindFrom(p, CRLF, 0) == |line| && p == line + CRLF + afterLine
    requires ParseInt(line, 16).None?
    ensures ChunkAt(p) == Err(BadInteger)
  {
    assert p[..|line|] == line;
  }

  /** The size line read, then `_read_plain(size + 2)`: what `_read_chunked` returns is ChunkAt's. */
  lemma ChunkRead(p: bytes, line: bytes, afterLine: bytes, size: int, buffered: bytes, dat: Result<bytes>, rest: bytes)
    requires FindFrom(p, CRLF, 0) == |line| && p == line + CRLF + afterLine
    requires ParseInt(line, 16) == Some(size)
    requires PlainRead(afterLine, buffered, Some(size + 2), dat, rest)
    ensures ChunkAt(p).Err? ==> dat.Err? && dat.error == ChunkAt(p).error
    ensures ChunkAt(p).Ok? ==>
      && dat.Ok? && Slice(dat.value, 0, -2) == ChunkAt(p).value.0
      && rest == p[ChunkAt(p).value.1..]
  {
    var n := |line|;
    var k := size + 2;
    assert p[..n] == line;
    assert p[n + 2..] == afterLine;
    if k > 0 && |afterLine| >= k {
      ExactRead(afterLine, buffered, k, dat, rest);
      assert p[n + 2..n + 2 + k] == afterLine[..k];
      assert p[n + 2 + k..] == afterLine[k..];
    } else if k == 0 {
      assert Slice([], 0, -2) == [];
    }
  }

  /**
    `whole` is `data`, read from the first `used` bytes, followed by
    `tail`, the outcome for what comes after them: what `readall` still
    has to find once it has read `data`.
   */
  predicate Continues(whole: Result<(bytes, nat)>, data: bytes, used: nat, tail: Result<(bytes, nat)>) {
    && (tail.Err? ==> whole.Err? && whole.error == tail.error)
    && (tail.Ok? ==> whole.Ok? && whole.value.0 == data + tail.value.0 && whole.value.1 == used + tail.value.1)
  }

  lemma ContinuesFromStart(whole: Result<(bytes, nat)>)
    ensures Continues(whole, [], 0, whole)
  {
    if whole.Ok? {
      assert [] + whole.value.0 == whole.value.0;
    }
  }

  lemma ContinuesFurther(whole: Result<(bytes, nat)>, out: bytes, used: nat, now: Result<(bytes, nat)>,
                         data: bytes, k: nat, tail: Result<(bytes, nat)>)
    requires Continues(whole, out, used, now) && Continues(now, data, k, tail)
    ensures Continues(whole, out + data, used + k, tail)
  {
    if tail.Ok? {
      assert out + (data + tail.value.0) == (out + data) + tail.value.0;
    }
  }

  lemma ContinuesToError(whole: Result<(bytes, nat)>, out: bytes, used: nat, now: Result<(bytes, nat)>)
    requires Continues(whole, out, used, now) && now.Err?
    ensures whole.Err? && whole.error == now.error
  {
  }

  lemma ContinuesToEnd(whole: Result<(bytes, nat)>, out: bytes, used: nat, now: Result<(bytes, nat)>)
    requires Continues(whole, out, used, now) && now.Ok? && now.value.0 == []
    ensures whole.Ok? && whole.value.0 == out && whole.value.1 == used + now.value.1
  {
    assert out + [] == out;
  }

  /** One turn of `readall`'s loop: a failing chunk fails the body. */
  lemma ChunkedStops(q: bytes, c: Result<(bytes, nat)>)
    requires c == ChunkAt(q) && c.Err?
    ensures ChunkedBody(q).Err? && ChunkedBody(q).error == c.error
  {
    assert ChunkedBody(q) == ChunkedFrom(q, c);
  }

  /** An empty chunk ends the body. */
  lemma ChunkedEnds(q: bytes, c: Result<(bytes, nat)>)
    requires c == ChunkAt(q) && c.Ok? && |c.value.0| == 0
    ensures ChunkedBody(q).Ok? && ChunkedBody(q).value.0 == [] && ChunkedBody(q).value.1 == c.value.1
  {
    assert ChunkedBody(q) == ChunkedFrom(q, c);
  }

  /** A non-empty chunk is followed by the rest of the body. */
  lemma ChunkedGoesOn(q: bytes, c: Result<(bytes, nat)>, rest: bytes)
    requires c == ChunkAt(q) && c.Ok? && |c.value.0| > 0 && rest == q[c.value.1..]
    ensures Continues(ChunkedBody(q), c.value.0, c.value.1, ChunkedBody(rest))
  {
    assert ChunkedBody(q) == ChunkedFrom(q, c);
  }

  /** What follows a prefix. */
  lemma AfterPrefix(p: bytes, a: bytes, b: bytes)
    requires p == a + b
    ensures p[|a|..] == b
  {
  }

  lemma ConsumedMore(p: bytes, used: nat, q: bytes, k: nat)
    requires used <= |p| && q == p[used..] && k <= |q|
    ensures used + k <= |p| && q[k..] == p[used + k..]
  {
  }

  // ---------------------------------------------------------------------
  // begin against ParseHead
  // ---------------------------------------------------------------------

  /** The exceptions of `begin` for what ParseHead reports. */
  function BeginError(e: Error): Error {
    match e
    case ReadLineFail => Timeout
    case ReadHeadersFail => NoHeaderBlock
    case _ => e
  }

  /** `getheader(b"content-length", b"")`. */
  function ContentLengthField(h: HeaderMap): bytes {
    if CONTENT_LENGTH in h then h[CONTENT_LENGTH] else []
  }

  /** `b"chunked" in getheader(b"Transfer-Encoding", b"")`. */
  predicate ChunkedCoding(h: HeaderMap) {
    Contains(if TRANSFER_ENCODING in h then h[TRANSFER_ENCODING] else [], CHUNKED)
  }

  /** The two look-ups are `getheader`'s, whatever case the stored names were in. */
  lemma FlagLookups(h: HeaderMap)
    ensures ContentLengthField(h) == GetHeader(h, BytesKey(Ascii("content-length")), [])
    ensures ChunkedCoding(h) == Contains(GetHeader(h, BytesKey(Ascii("Transfer-Encoding")), []), Ascii("chunked"))
  {
  }

  /** The loop over `header_block.split(b"\r\n")`: each field stored under `key.title()`. */
  method StoreFields(block: bytes) returns (h: HeaderMap)
    ensures h == FieldMap(BlockFields(block))
  {
    var lines := SplitOn(block, CRLF);
    ghost var pairs := FieldPairs(lines);
    h := map[];
    var i := 0;
    while i < |lines|
      invariant 0 <= i <= |lines|
      invariant h == FieldMap(pairs[..i])
    {
      var (key, value) := ParseFieldLine(lines[i]);
      assert pairs[..i + 1][..i] == pairs[..i];
      h := h[BytesKey(Title(key)) := value];
      i := i + 1;
    }
    assert pairs[..|lines|] == pairs;
  }

  /**
    What `begin` leaves behind on the bytes `p`: ParseHead's error, or its
    status line's fields, its header dictionary and the bytes after the
    block still to come.
   */
  ghost predicate Began(p: bytes, e: Option<Error>, version: bytes, status: int, reason: bytes, headers: HeaderMap, rest: bytes)
  {
    match ParseHead(p, 0)
    case Err(err) => e == Some(BeginError(err))
    case Ok(h) =>
      && e == None && version == h.line.version && status == h.line.status && reason == h.line.info
      && headers == FieldMap(h.fields) && h.bodyStart <= |p| && rest == p[h.bodyStart..]
  }

  /** A status line and a block read one after the other are what `begin` leaves behind. */
  lemma BeganReading(p: bytes, line: bytes, afterLine: bytes, block: bytes, body: bytes,
                     version: bytes, status: int, reason: bytes, headers: HeaderMap)
    requires FindFrom(p, CRLF, 0) == |line| && p == line + CRLF + afterLine
    requires ParseStatusLine(line).Ok?
    requires version == ParseStatusLine(line).value.version && status == ParseStatusLine(line).value.status
    requires reason == ParseStatusLine(line).value.info
    requires FindFrom(afterLine, CRLFCRLF, 0) == |block| && afterLine == block + CRLFCRLF + body
    requires headers == FieldMap(BlockFields(block))
    ensures Began(p, None, version, status, reason, headers, body)
  {
    HeadRead(p, line, afterLine, block, body);
    BeginParts(p, line, afterLine, block, body);
  }

  /** Where the status line, the block and the body sit in what `begin` reads. */
  lemma BeginParts(p: bytes, line: bytes, afterLine: bytes, block: bytes, body: bytes)
    requires p == line + CRLF + afterLine
    requires FindFrom(afterLine, CRLFCRLF, 0) == |block| && afterLine == block + CRLFCRLF + body
    ensures p[..|line|] == line
    ensures FindFrom(p, CRLFCRLF, |line| + 2) == |line| + 2 + |block|
    ensures p[|line| + 2..|line| + 2 + |block|] == block
    ensures p[|line| + 2 + |block| + 4..] == body
  {
    assert p == (line + CRLF) + afterLine;
    FindShift(line + CRLF, afterLine, CRLFCRLF);
    assert p[|line| + 2..] == afterLine;
    assert afterLine[..|block|] == block;
  }

  /** A status line read up to the first CRLF and then a block up to the next CRLF CRLF are ParseHead's. */
  lemma HeadRead(p: bytes, line: bytes, afterLine: bytes, block: bytes, body: bytes)
    requires FindFrom(p, CRLF, 0) == |line| && p == line + CRLF + afterLine
    requires ParseStatusLine(line).Ok?
    requires FindFrom(afterLine, CRLFCRLF, 0) == |block| && afterLine == block + CRLFCRLF + body
    ensures ParseHead(p, 0).Ok?
    ensures ParseHead(p, 0).value.line == ParseStatusLine(line).value
    ensures ParseHead(p, 0).value.fields == BlockFields(block)
    ensures ParseHead(p, 0).value.bodyStart == |line| + 2 + |block| + 4
  {
    var n2 := |line| + 2 + |block|;
    BeginParts(p, line, afterLine, block, body);
    ParseHeadAt(p, 0, |line|, n2, ParseStatusLine(line).value);
    assert p[|line| + 2..n2] == block;
    assert BlockFields(p[|line| + 2..n2]) == BlockFields(block);
  }

  /** A status line `split` cannot read stops ParseHead with its error. */
  lemma HeadBadLine(p: bytes, line: bytes, afterLine: bytes)
    requires FindFrom(p, CRLF, 0) == |line| && p == line + CRLF + afterLine
    requires ParseStatusLine(line).Err?
    ensures ParseHead(p, 0) == Err(ParseStatusLine(line).error)
  {
    assert p[..|line|] == line;
    ParseHeadAtBadLine(p, 0, |line|);
  }

  /** No CRLF CRLF after a readable status line: ParseHead fails on the block. */
  lemma HeadNoBlock(p: bytes, line: bytes, afterLine: bytes)
    requires FindFrom(p, CRLF, 0) == |line| && p == line + CRLF + afterLine
    requires ParseStatusLine(line).Ok?
    requires FindFrom(afterLine, CRLFCRLF, 0) == -1
    ensures ParseHead(p, 0) == Err(ReadHeadersFail)
  {
    assert p == (line + CRLF) + afterLine;
    assert p[..|line|] == line;
    FindShiftNone(line + CRLF, afterLine, CRLFCRLF);
    ParseHeadNoBlock(p, 0, |line|, ParseStatusLine(line).value);
  }
}
