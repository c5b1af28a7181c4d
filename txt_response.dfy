/**
  `TxtResponse`: a complete response already in memory, read with a cursor
  (`buffer_start`) that `read_line` and `read_headers` advance.
 */
module TxtResponses {
  import opened Wrappers
  import opened Bytes
  import opened Numerals
  import opened Headers
  import opened HttpMessage

  class TxtResponse {
    // The fields of BaseResponse (Dafny classes do not inherit fields).
    var status: int
    var reason: bytes
    var headers: HeaderMap
    var text: bytes
    // TxtResponse's own state.
    var readBuffer: bytes
    var bufferStart: nat
    var version: bytes
    var info: bytes
    var body: bytes

    predicate Valid()
      reads this
    {
      bufferStart <= |readBuffer|
    }

    /**
      `TxtResponse(buffer)` up to the call of `parse`: BaseResponse's
      defaults (status 601, empty reason, headers and text) and the cursor
      at the start of the buffer.
     */
    constructor (buffer: bytes)
      ensures Valid() && readBuffer == buffer && bufferStart == 0
      ensures status == 601 && reason == [] && headers == map[] && text == []
      ensures version == [] && info == [] && body == []
    {
      status, reason, headers, text := 601, [], map[], [];
      version, info, body := [], [], [];
      readBuffer, bufferStart := buffer, 0;
    }

    /** The bytes from the cursor up to the next CRLF; the cursor moves past the CRLF. */
    method ReadLine() returns (r: Result<bytes>)
      requires Valid()
      modifies this`bufferStart
      ensures Valid()
      ensures FindFrom(readBuffer, CRLF, old(bufferStart)) == -1 ==> r == Err(ReadLineFail) && bufferStart == old(bufferStart)
      ensures FindFrom(readBuffer, CRLF, old(bufferStart)) != -1 ==>
        && bufferStart == FindFrom(readBuffer, CRLF, old(bufferStart)) + 2
        && r.Ok? && r.value == readBuffer[old(bufferStart)..FindFrom(readBuffer, CRLF, old(bufferStart))]
    {
      var n := FindFrom(readBuffer, CRLF, bufferStart);
      if n == -1 {
        return Err(ReadLineFail);
      }
      r := Ok(readBuffer[bufferStart..n]);
      bufferStart := n + 2;
    }

    /** The bytes from the cursor up to the next CRLF CRLF; the cursor moves past it. */
    method ReadHeaders() returns (r: Result<bytes>)
      requires Valid()
      modifies this`bufferStart
      ensures Valid()
      ensures FindFrom(readBuffer, CRLFCRLF, old(bufferStart)) == -1 ==> r == Err(ReadHeadersFail) && bufferStart == old(bufferStart)
      ensures FindFrom(readBuffer, CRLFCRLF, old(bufferStart)) != -1 ==>
        && bufferStart == FindFrom(readBuffer, CRLFCRLF, old(bufferStart)) + 4
        && r.Ok? && r.value == readBuffer[old(bufferStart)..FindFrom(readBuffer, CRLFCRLF, old(bufferStart))]
    {
      var n := FindFrom(readBuffer, CRLFCRLF, bufferStart);
      if n == -1 {
        return Err(ReadHeadersFail);
      }
      r := Ok(readBuffer[bufferStart..n]);
      bufferStart := n + 4;
    }

    /**
      `parse`: the status line, then the header block, each field stored
      under the `str()` of its title-cased name, then the body, step by
      step, as Parsed states; ParsedHead shows this is ParseHead's outcome.
     */
    method Parse() returns (e: Option<Error>)
      requires Valid()
      modifies this`readBuffer, this`bufferStart, this`version, this`status, this`info, this`headers, this`body
      ensures Valid()
      ensures Parsed(old(readBuffer), old(bufferStart), e, version, status, info, headers, body, readBuffer, bufferStart)
    {
      e := ParseFrom(readBuffer, bufferStart);
    }

    /** `parse` on the buffer `buf` with the cursor at `start`. */
    method ParseFrom(ghost buf: bytes, ghost start: nat) returns (e: Option<Error>)
      requires Valid() && readBuffer == buf && bufferStart == start
      modifies this`readBuffer, this`bufferStart, this`version, this`status, this`info, this`headers, this`body
      ensures Valid()
      ensures Parsed(buf, start, e, version, status, info, headers, body, readBuffer, bufferStart)
    {
      ghost var n1 := FindFrom(buf, CRLF, start);
      var requestLine := ReadLine();
      if requestLine.Err? {
        assert n1 == -1;
        return Some(requestLine.error);
      }
      assert requestLine.value == buf[start..n1] && bufferStart == n1 + 2;
      e := ParseStatus(buf, n1 + 2, requestLine.value);
    }

    /**
      The status line `requestLine` read, with the cursor at `start` in the
      buffer `buf`: `words = requestline.split()` and the checks on it, then
      the rest of `parse`.
     */
    method ParseStatus(ghost buf: bytes, ghost start: nat, requestLine: bytes) returns (e: Option<Error>)
      requires Valid() && readBuffer == buf && bufferStart == start
      modifies this`readBuffer, this`bufferStart, this`version, this`status, this`info, this`headers, this`body
      ensures Valid()
      ensures ParseStatusLine(requestLine).Err? ==> e == Some(ParseStatusLine(requestLine).error)
      ensures ParseStatusLine(requestLine).Ok? ==>
        && version == ParseStatusLine(requestLine).value.version
        && status == ParseStatusLine(requestLine).value.status
        && info == ParseStatusLine(requestLine).value.info
        && FieldsParsed(buf, start, e, headers, body, readBuffer, bufferStart)
    {
      var line := ParseStatusLine(requestLine);
      if line.Err? {
        return Some(line.error);
      }
      version, status, info := line.value.version, line.value.status, line.value.info;
      e := ParseFields(buf, start);
    }

    /**
      The rest of `parse` once the status line is read, with the cursor at
      `start` in the buffer `buf`: the header block up to the next CRLF
      CRLF, its fields, then the body after it.
     */
    method ParseFields(ghost buf: bytes, ghost start: nat) returns (e: Option<Error>)
      requires Valid() && readBuffer == buf && bufferStart == start
      modifies this`readBuffer, this`bufferStart, this`headers, this`body
      ensures Valid()
      ensures FieldsParsed(buf, start, e, headers, body, readBuffer, bufferStart)
    {
      headers := map[];
      var block := ReadHeaders();
      if block.Err? {
        assert FindFrom(buf, CRLFCRLF, start) == -1;
        return Some(block.error);
      }
      assert block.value == buf[start..FindFrom(buf, CRLFCRLF, start)];
      headers := ReprFields(block.value);
      body := readBuffer[bufferStart..];
      readBuffer, bufferStart := [], 0;
      return None;
    }

    /** `getheader(key, default)`, as inherited from BaseResponse. */
    function GetHeader(key: HeaderKey, default: bytes): bytes
      reads this
    {
      Headers.GetHeader(headers, key, default)
    }
  }

  /**
    What the rest of `parse` leaves once it looks for the header block from
    `start` in `buf`: the error when there is no CRLF CRLF; otherwise the
    block's fields stored under `str()` keys, the body after it and an
    emptied buffer.
   */
  predicate FieldsParsed(buf: bytes, start: nat, e: Option<Error>, headers: HeaderMap, body: bytes, readBuffer: bytes, bufferStart: nat) {
    var n2 := FindFrom(buf, CRLFCRLF, start);
    && (n2 == -1 ==> e == Some(ReadHeadersFail))
    && (n2 != -1 ==>
          && e == None
          && headers == ReprMap(BlockFields(buf[start..n2]))
          && body == buf[n2 + 4..]
          && readBuffer == [] && bufferStart == 0)
  }

  /**
    What `parse` leaves, reading `buf` from `start`: the outcome of each
    `find` and of the status-line check decides the error, and on success
    the status-line words and what FieldsParsed states.
   */
  predicate Parsed(buf: bytes, start: nat, e: Option<Error>, version: bytes, status: int, info: bytes,
                   headers: HeaderMap, body: bytes, readBuffer: bytes, bufferStart: nat) {
    var n1 := FindFrom(buf, CRLF, start);
    && (n1 == -1 ==> e == Some(ReadLineFail))
    && (n1 != -1 ==>
          var line := ParseStatusLine(buf[start..n1]);
          && (line.Err? ==> e == Some(line.error))
          && (line.Ok? ==>
                && version == line.value.version && status == line.value.status && info == line.value.info
                && FieldsParsed(buf, n1 + 2, e, headers, body, readBuffer, bufferStart)))
  }

  /** Parsing step by step from `start` ends as ParseHead says, with its error or its parts. */
  lemma ParsedHead(buf: bytes, start: nat, e: Option<Error>, version: bytes, status: int, info: bytes,
                   headers: HeaderMap, body: bytes, readBuffer: bytes, bufferStart: nat)
    requires start <= |buf|
    requires Parsed(buf, start, e, version, status, info, headers, body, readBuffer, bufferStart)
    ensures ParseHead(buf, start).Err? ==> e == Some(ParseHead(buf, start).error)
    ensures ParseHead(buf, start).Ok? ==>
      && e == None
      && version == ParseHead(buf, start).value.line.version
      && status == ParseHead(buf, start).value.line.status
      && info == ParseHead(buf, start).value.line.info
      && headers == ReprMap(ParseHead(buf, start).value.fields)
      && body == buf[ParseHead(buf, start).value.bodyStart..]
  {
    var n1 := FindFrom(buf, CRLF, start);
    if n1 == -1 {
      ParseHeadNoLine(buf, start);
    } else if ParseStatusLine(buf[start..n1]).Err? {
      ParseHeadAtBadLine(buf, start, n1);
    } else {
      var line := ParseStatusLine(buf[start..n1]).value;
      var n2 := FindFrom(buf, CRLFCRLF, n1 + 2);
      if n2 == -1 {
        ParseHeadNoBlock(buf, start, n1, line);
      } else {
        ParseHeadAt(buf, start, n1, n2, line);
      }
    }
  }

  /** The loop over `header_block.split(b"\r\n")`: each field stored under `str(key.title())`. */
  method ReprFields(block: bytes) returns (h: HeaderMap)
    ensures h == ReprMap(BlockFields(block))
  {
    var lines := SplitOn(block, CRLF);
    ghost var pairs := FieldPairs(lines);
    h := map[];
    var i := 0;
    while i < |lines|
      invariant 0 <= i <= |lines|
      invariant h == ReprMap(pairs[..i])
    {
      var (key, value) := ParseFieldLine(lines[i]);
      ReprMapStep(pairs, i);
      h := h[TextKey(BytesRepr(Title(key))) := value];
      i := i + 1;
    }
    assert pairs[..|lines|] == pairs;
  }

  /**
    `TxtResponse(buffer)`: construct, then parse; an exception from `parse`
    means no object comes back, modelled as the error.
   */
  method FromBuffer(buffer: bytes) returns (r: Result<TxtResponse>)
    ensures var p := ParseHead(buffer, 0);
      && (p.Err? ==> r == Err(p.error))
      && (p.Ok? ==>
            && r.Ok? && fresh(r.value)
            && r.value.version == p.value.line.version
            && r.value.status == p.value.line.status
            && r.value.info == p.value.line.info
            && r.value.reason == []
            && r.value.headers == ReprMap(p.value.fields)
            && r.value.body == buffer[p.value.bodyStart..])
  {
    var t := new TxtResponse(buffer);
    var e := t.Parse();
    ParsedHead(buffer, 0, e, t.version, t.status, t.info, t.headers, t.body, t.readBuffer, t.bufferStart);
    if e.Some? {
      return Err(e.value);
    }
    return Ok(t);
  }

  /** After parsing, `getheader` misses every field: the stored keys are strs like `"b'Host'"`. */
  lemma ParsedLookupMisses(t: TxtResponse, buffer: bytes, key: HeaderKey, default: bytes)
    requires ParseHead(buffer, 0).Ok?
    requires t.headers == ReprMap(ParseHead(buffer, 0).value.fields)
    ensures t.GetHeader(key, default) == default
  {
    ReprMapLookupMisses(ParseHead(buffer, 0).value.fields, key, default);
  }
}
