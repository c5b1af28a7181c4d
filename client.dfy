/**
  `Client`: one kept-alive connection, reused while host, port and TLS
  setting stay the same, and `request`, which puts the headers into the
  caller's dict, writes the request onto the connection and reads the
  response back.
 */
module HttpClient {
  import opened Wrappers
  import opened Bytes
  import opened Numerals
  import opened Headers
  import opened HttpMessage
  import opened Chunked
  import opened Net
  import opened Responses

  // ---------------------------------------------------------------------
  // The URL
  // ---------------------------------------------------------------------

  /** The parts of `urlsplit(url)` that `request` uses; `port` is None when the URL names none. */
  datatype SplitUrl = SplitUrl(scheme: bytes, netloc: bytes, hostname: bytes, port: Option<int>, path: bytes, query: bytes)

  const HTTP: bytes := Ascii("http")
  const HTTPS: bytes := Ascii("https")
  const QUESTION: byte := 63
  const ROOT: bytes := [47]

  /**
    The port `request` connects to: the URL's own unless it is missing or
    zero, else 80 for http and 443 for https; any other scheme is refused.
   */
  function RequestPort(u: SplitUrl): (r: Result<int>)
    ensures r.Ok? ==> r.value != 0
    ensures u.port.Some? && u.port.value != 0 ==> r == Ok(u.port.value)
    ensures r.Err? <==> (u.port.None? || u.port.value == 0) && u.scheme != HTTP && u.scheme != HTTPS
    ensures r.Err? ==> r.error == UnknownScheme
  {
    if u.port.Some? && u.port.value != 0 then Ok(u.port.value)
    else if u.scheme == HTTP then Ok(80)
    else if u.scheme == HTTPS then Ok(443)
    else Err(UnknownScheme)
  }

  /** The path of the request line: `/` when the URL has none. */
  function TargetPath(u: SplitUrl): (r: bytes)
    ensures |r| >= 1
  {
    if |u.path| == 0 then ROOT else u.path
  }

  /** The request target: the path, then `?` and the query when there is one. */
  function RequestTarget(u: SplitUrl): bytes {
    if |u.query| > 0 then TargetPath(u) + [QUESTION] + u.query else TargetPath(u)
  }

  /**
    Split at its first `?`, the target gives back the path and the query,
    as long as the path has no `?` of its own; without a query there is no
    `?` at all.
   */
  lemma TargetRoundTrip(u: SplitUrl)
    requires QUESTION !in u.path
    ensures var r := RequestTarget(u);
      var i := FindFrom(r, [QUESTION], 0);
      && (|u.query| > 0 ==> i == |TargetPath(u)| && r[..i] == TargetPath(u) && r[i + 1..] == u.query)
      && (|u.query| == 0 ==> i == -1 && r == TargetPath(u))
  {
    var path := TargetPath(u);
    var r := RequestTarget(u);
    assert QUESTION !in path;
    forall i | 0 <= i < |path|
      ensures !MatchAt(r, [QUESTION], i)
    {
      assert r[i] == path[i];
      NoMatchAtOther(r, [QUESTION], i);
    }
    if |u.query| > 0 {
      assert r[|path|..|path| + 1] == [QUESTION];
      FindIs(r, [QUESTION], 0, |path|);
      assert r[..|path|] == path;
      assert r[|path| + 1..] == u.query;
    } else {
      forall i | 0 <= i
        ensures !MatchAt(r, [QUESTION], i)
      {
      }
      FindNone(r, [QUESTION], 0);
    }
  }

  // ---------------------------------------------------------------------
  // The headers dict
  // ---------------------------------------------------------------------

  /** A value of the headers dict: an int, written with `%d`, or a bytes or str value, held as the bytes `to_bytes` gives for it. */
  datatype HeaderValue = IntValue(n: int) | TextValue(b: bytes)

  /** `to_bytes(k)`, for an ASCII str key. */
  function KeyBytes(k: HeaderKey): bytes {
    match k
    case BytesKey(b) => b
    case TextKey(t) => Ascii(t)
  }

  /** `v` as the request writes it: `%d` for an int, `to_bytes(v)` otherwise. */
  function ValueBytes(v: HeaderValue): bytes {
    match v
    case IntValue(n) => Decimal(n)
    case TextValue(b) => b
  }

  /** A dict's items in insertion order. */
  type Items = seq<(HeaderKey, HeaderValue)>

  /** The first position of `k` among the items, or -1. */
  function KeyIndex(items: Items, k: HeaderKey): (r: int)
    ensures -1 <= r < |items|
    ensures r == -1 <==> forall i :: 0 <= i < |items| ==> items[i].0 != k
    ensures r != -1 ==> items[r].0 == k && forall i :: 0 <= i < r ==> items[i].0 != k
  {
    if |items| == 0 then -1
    else if items[0].0 == k then 0
    else
      var r := KeyIndex(items[1..], k);
      if r == -1 then -1 else r + 1
  }

  /** `d[k]`, when `k` is there. */
  function Lookup(items: Items, k: HeaderKey): Option<HeaderValue> {
    var i := KeyIndex(items, k);
    if i == -1 then None else Some(items[i].1)
  }

  /** `d[k] = v`: a key already there keeps its place and takes the new value; a new key goes last. */
  function Put(items: Items, k: HeaderKey, v: HeaderValue): Items {
    var i := KeyIndex(items, k);
    if i == -1 then items + [(k, v)] else items[i := (k, v)]
  }

  function Keys(items: Items): (ks: seq<HeaderKey>)
    ensures |ks| == |items|
  {
    seq(|items|, i requires 0 <= i < |items| => items[i].0)
  }

  /** The first position of `k` is determined by where `k` occurs first. */
  lemma KeyIndexIs(items: Items, k: HeaderKey, j: int)
    requires j == -1 ==> forall i :: 0 <= i < |items| ==> items[i].0 != k
    requires j != -1 ==> 0 <= j < |items| && items[j].0 == k && forall i :: 0 <= i < j ==> items[i].0 != k
    ensures KeyIndex(items, k) == j
  {
  }

  /** After `d[k] = v`, `d[k]` is `v` and every other key has the value it had. */
  lemma PutLookup(items: Items, k: HeaderKey, v: HeaderValue, other: HeaderKey)
    ensures Lookup(Put(items, k, v), k) == Some(v)
    ensures other != k ==> Lookup(Put(items, k, v), other) == Lookup(items, other)
  {
    var i := KeyIndex(items, k);
    var r := Put(items, k, v);
    if i == -1 {
      KeyIndexIs(r, k, |items|);
    } else {
      KeyIndexIs(r, k, i);
    }
    if other != k {
      var o := KeyIndex(items, other);
      assert forall j :: 0 <= j < |items| ==> (r[j].0 == other <==> items[j].0 == other);
      KeyIndexIs(r, other, o);
      if o != -1 {
        assert r[o] == items[o];
      }
    }
  }

  /** `d[k] = v` keeps the order of the keys, adding `k` at the end when it is new. */
  lemma PutKeys(items: Items, k: HeaderKey, v: HeaderValue)
    ensures Lookup(items, k).Some? ==> Keys(Put(items, k, v)) == Keys(items)
    ensures Lookup(items, k).None? ==> Keys(Put(items, k, v)) == Keys(items) + [k]
  {
    var i := KeyIndex(items, k);
    if i != -1 {
      assert forall j :: 0 <= j < |items| ==> Keys(Put(items, k, v))[j] == Keys(items)[j];
    }
  }

  /** Setting a key to the value it already has changes nothing. */
  lemma PutIdempotent(items: Items, k: HeaderKey, v: HeaderValue)
    ensures Put(Put(items, k, v), k, v) == Put(items, k, v)
  {
    var r := Put(items, k, v);
    PutLookup(items, k, v, k);
    var i := KeyIndex(r, k);
    assert r[i] == (k, v);
    assert r[i := (k, v)] == r;
  }

  /** The caller's `headers` dict, which `request` updates in place. */
  class HeaderDict {
    var items: Items

    constructor (items: Items)
      ensures this.items == items
    {
      this.items := items;
    }

    /** `d[k] = v`. */
    method Set(k: HeaderKey, v: HeaderValue)
      modifies this
      ensures items == Put(old(items), k, v)
    {
      items := Put(items, k, v);
    }
  }

  const CONTENT_LENGTH_KEY: HeaderKey := BytesKey(Ascii("Content-Length"))
  const HOST_KEY: HeaderKey := BytesKey(Ascii("Host"))

  /** The dict after `request`'s two assignments: the body's length as a str, then the URL's netloc. */
  function WithRequestFields(items: Items, body: bytes, netloc: bytes): Items {
    Put(Put(items, CONTENT_LENGTH_KEY, TextValue(Decimal(|body|))), HOST_KEY, TextValue(netloc))
  }

  /**
    After the assignments the dict holds the request's length and host and
    every other key as the caller left it, str keys included (so a str
    `"Host"` key stays beside the bytes one); it is never empty.
   */
  lemma RequestFieldsSet(items: Items, body: bytes, netloc: bytes, other: HeaderKey)
    ensures Lookup(WithRequestFields(items, body, netloc), CONTENT_LENGTH_KEY) == Some(TextValue(Decimal(|body|)))
    ensures Lookup(WithRequestFields(items, body, netloc), HOST_KEY) == Some(TextValue(netloc))
    ensures other != CONTENT_LENGTH_KEY && other != HOST_KEY ==>
      Lookup(WithRequestFields(items, body, netloc), other) == Lookup(items, other)
    ensures |WithRequestFields(items, body, netloc)| >= 1
  {
    var once := Put(items, CONTENT_LENGTH_KEY, TextValue(Decimal(|body|)));
    assert |CONTENT_LENGTH_KEY.b| != |HOST_KEY.b|;
    PutLookup(items, CONTENT_LENGTH_KEY, TextValue(Decimal(|body|)), other);
    PutLookup(once, HOST_KEY, TextValue(netloc), other);
    PutLookup(items, CONTENT_LENGTH_KEY, TextValue(Decimal(|body|)), HOST_KEY);
    PutLookup(once, HOST_KEY, TextValue(netloc), CONTENT_LENGTH_KEY);
    PutLookup(once, HOST_KEY, TextValue(netloc), HOST_KEY);
  }

  /**
    A dict that has been through one request comes out of a second request
    with the same body length and host unchanged: the shared default dict
    of `request` settles after its first use.
   */
  lemma RequestFieldsSettle(items: Items, body: bytes, netloc: bytes)
    ensures WithRequestFields(WithRequestFields(items, body, netloc), body, netloc) == WithRequestFields(items, body, netloc)
  {
    var cl := TextValue(Decimal(|body|));
    var host := TextValue(netloc);
    var once := Put(items, CONTENT_LENGTH_KEY, cl);
    var twice := Put(once, HOST_KEY, host);
    assert |CONTENT_LENGTH_KEY.b| != |HOST_KEY.b|;
    // Content-Length already holds `cl` in `twice`, so writing it again is the identity.
    PutLookup(items, CONTENT_LENGTH_KEY, cl, CONTENT_LENGTH_KEY);
    PutLookup(once, HOST_KEY, host, CONTENT_LENGTH_KEY);
    var i := KeyIndex(twice, CONTENT_LENGTH_KEY);
    assert twice[i] == (CONTENT_LENGTH_KEY, cl);
    assert Put(twice, CONTENT_LENGTH_KEY, cl) == twice;
    PutIdempotent(once, HOST_KEY, host);
  }

  // ---------------------------------------------------------------------
  // The request bytes
  // ---------------------------------------------------------------------

  const HTTP_1_1: bytes := Ascii("HTTP/1.1")

  /** `method path HTTP/1.1`. */
  function RequestLine(verb: bytes, target: bytes): bytes {
    verb + [SP] + target + [SP] + HTTP_1_1
  }

  /** An item as a header field: its key's bytes and its value's. */
  function ItemField(item: (HeaderKey, HeaderValue)): (bytes, bytes) {
    (KeyBytes(item.0), ValueBytes(item.1))
  }

  function ItemFields(items: Items): (fields: seq<(bytes, bytes)>)
    ensures |fields| == |items|
  {
    seq(|items|, i requires 0 <= i < |items| => ItemField(items[i]))
  }

  /** Each field's line with its CRLF. */
  function TerminatedLines(fields: seq<(bytes, bytes)>): (lines: seq<bytes>)
    ensures |lines| == |fields|
  {
    seq(|fields|, i requires 0 <= i < |fields| => FieldLine(fields[i]) + CRLF)
  }

  /** The head `request` writes: the request line, one line per item in the dict's order, a blank line. */
  function RequestHead(verb: bytes, target: bytes, items: Items): bytes {
    RequestLine(verb, target) + CRLF + Concat(TerminatedLines(ItemFields(items))) + CRLF
  }

  /** The loop that builds `request_data`, one `%s: %s\r\n` (or `%s: %d\r\n`) per item. */
  method BuildRequest(verb: bytes, target: bytes, items: Items) returns (data: bytes)
    ensures data == RequestHead(verb, target, items)
  {
    ghost var lines := TerminatedLines(ItemFields(items));
    data := verb + [SP] + target + [SP] + HTTP_1_1 + CRLF;
    var i := 0;
    while i < |items|
      invariant 0 <= i <= |items|
      invariant data == RequestLine(verb, target) + CRLF + Concat(lines[..i])
    {
      var (k, v) := items[i];
      var line := KeyBytes(k) + [COLON, SP] + ValueBytes(v) + CRLF;
      assert line == lines[i];
      assert lines[..i + 1] == lines[..i] + [line];
      ConcatAppend(lines[..i], line);
      data := data + line;
      i := i + 1;
    }
    assert lines[..|items|] == lines;
    data := data + CRLF;
  }

  /** Lines each ended by CRLF, then one more CRLF, are the joined block followed by CRLF CRLF. */
  lemma {:induction false} TerminatedBlock(fields: seq<(bytes, bytes)>)
    requires |fields| >= 1
    ensures Concat(TerminatedLines(fields)) + CRLF == FormatBlock(fields) + CRLFCRLF
    decreases |fields|
  {
    var lines := TerminatedLines(fields);
    var first := FieldLine(fields[0]);
    assert lines[1..] == TerminatedLines(fields[1..]);
    assert FieldLines(fields)[1..] == FieldLines(fields[1..]);
    if |fields| == 1 {
      assert Concat(lines) == first + CRLF + Concat(lines[1..]);
      assert Concat(lines) + CRLF == first + CRLFCRLF;
    } else {
      TerminatedBlock(fields[1..]);
      calc {
        Concat(lines) + CRLF;
        first + CRLF + (Concat(TerminatedLines(fields[1..])) + CRLF);
        first + CRLF + (FormatBlock(fields[1..]) + CRLFCRLF);
        (first + CRLF + JoinWith(FieldLines(fields)[1..], CRLF)) + CRLFCRLF;
      }
    }
  }

  /** The head followed by the body is a message with the dict's fields: line, block, blank line, body. */
  lemma RequestLayout(verb: bytes, target: bytes, items: Items, body: bytes)
    requires |items| >= 1
    ensures RequestHead(verb, target, items) + body == FormatResponse(RequestLine(verb, target), ItemFields(items), body)
  {
    TerminatedBlock(ItemFields(items));
  }

  /**
    Reading `msg` from `start` as `begin` does finds the header block
    `fields` up to the next CRLF CRLF, and `body` after it.
   */
  predicate BlockAt(msg: bytes, start: nat, fields: seq<(bytes, bytes)>, body: bytes) {
    var n2 := start + |FormatBlock(fields)|;
    && FindFrom(msg, CRLFCRLF, start) == n2
    && n2 + 4 <= |msg|
    && BlockFields(msg[start..n2]) == fields
    && msg[n2 + 4..] == body
  }

  /** In a message as `FormatResponse` lays it out, the header block ends at the first CRLF CRLF after the line. */
  lemma FormattedBlock(line: bytes, fields: seq<(bytes, bytes)>, body: bytes)
    requires CR !in line && |fields| >= 1 && WellFormedFields(fields)
    ensures BlockAt(FormatResponse(line, fields, body), |line| + 2, fields, body)
  {
    FormattedHeadLayout(line, fields, body);
    FormattedBlockEnd(line, fields, body);
    HeaderBlockRoundTrip(fields);
  }

  /** The server finds the request line up to the first CRLF. */
  lemma RequestLineReadBack(verb: bytes, target: bytes, items: Items, body: bytes)
    requires |items| >= 1 && CR !in RequestLine(verb, target)
    requires WellFormedFields(ItemFields(items))
    ensures var msg := RequestHead(verb, target, items) + body;
      FindFrom(msg, CRLF, 0) == |RequestLine(verb, target)| && msg[..|RequestLine(verb, target)|] == RequestLine(verb, target)
  {
    RequestLayout(verb, target, items, body);
    FormattedHeadLayout(RequestLine(verb, target), ItemFields(items), body);
  }

  /**
    Then the header block up to the next CRLF CRLF, holding each item as a
    field in the dict's order, and after it the body, untouched.
   */
  lemma RequestBlockReadBack(verb: bytes, target: bytes, items: Items, body: bytes)
    requires |items| >= 1 && CR !in RequestLine(verb, target)
    requires WellFormedFields(ItemFields(items))
    ensures BlockAt(RequestHead(verb, target, items) + body, |RequestLine(verb, target)| + 2, ItemFields(items), body)
  {
    RequestLayout(verb, target, items, body);
    FormattedBlock(RequestLine(verb, target), ItemFields(items), body);
  }

  // ---------------------------------------------------------------------
  // Sending
  // ---------------------------------------------------------------------

  /** Below this many bytes, head and body go out in one payload. */
  const SMALL_REQUEST: nat := 1300
  /** The most bytes the send loop offers the socket at a time. */
  const SEND_SLICE: nat := 65535

  /** The send loop: slices of at most SEND_SLICE bytes, advancing by what each `send` accepts. */
  method SendAll(sock: Socket, payload: bytes)
    requires sock.Valid()
    modifies sock
    ensures sock.Valid() && sock.incoming == old(sock.incoming)
    ensures sock.sent == old(sock.sent) + payload
  {
    var start := 0;
    while start < |payload|
      invariant 0 <= start <= |payload|
      invariant sock.Valid() && sock.incoming == old(sock.incoming)
      invariant sock.sent == old(sock.sent) + payload[..start]
      decreases |payload| - start
    {
      var size := Min(|payload| - start, SEND_SLICE);
      var sended := sock.Send(payload[start..start + size]);
      assert payload[..start] + payload[start..start + size][..sended] == payload[..start + sended];
      start := start + sended;
    }
    assert payload[..start] == payload;
  }

  /**
    What the peer gets from the send step as written, when the single
    `send` of a large request's head accepted `accepted` bytes of it.
   */
  function SentAsWritten(head: bytes, body: bytes, accepted: nat): bytes
    requires accepted <= |head|
  {
    if |head| + |body| < SMALL_REQUEST then head + body
    else head[..accepted] + body
  }

  /**
    What the send step as written leaves on a socket that accepts at most
    `window` bytes a call, going from `before` to `after`: a small request
    whole; otherwise the `accepted` first bytes of the head, at least one
    when there is a head and at most a window, then the whole body.
   */
  predicate SentWithin(head: bytes, body: bytes, window: nat, accepted: nat, before: bytes, after: bytes) {
    && accepted <= |head|
    && (|head| + |body| < SMALL_REQUEST ==> accepted == |head|)
    && (|head| + |body| >= SMALL_REQUEST ==> accepted <= window && (|head| >= 1 ==> accepted >= 1))
    && after == before + SentAsWritten(head, body, accepted)
  }

  /**
    The send step as written: a small request in one payload through the
    loop, otherwise the head by a single `send` whose count is ignored, then
    the body through the loop. `accepted` is the count that `send` returned.
   */
  method SendRequestAsWritten(sock: Socket, head: bytes, body: bytes) returns (ghost accepted: nat)
    requires sock.Valid()
    modifies sock
    ensures sock.Valid() && sock.incoming == old(sock.incoming)
    ensures SentWithin(head, body, old(sock.window), accepted, old(sock.sent), sock.sent)
  {
    if |head| + |body| < SMALL_REQUEST {
      SendAll(sock, head + body);
      accepted := |head|;
    } else {
      var ignored := sock.Send(head);
      SendAll(sock, body);
      accepted := ignored;
    }
  }

  /** A large request whose head `send` did not take whole does not fully arrive. */
  lemma AsWrittenLosesHead(head: bytes, body: bytes, accepted: nat)
    requires |head| + |body| >= SMALL_REQUEST && accepted < |head|
    ensures |SentAsWritten(head, body, accepted)| < |head + body|
    ensures SentAsWritten(head, body, accepted) != head + body
  {
  }

  /**
    A head of 1300 bytes and no body on a socket that takes at most 1024
    bytes a call: at least 276 bytes never leave, whatever `send` accepted.
   */
  lemma AsWrittenExample(accepted: nat)
    requires accepted <= 1024
    ensures var head := seq(1300, i => SP);
      |head| == 1300 && |SentAsWritten(head, [], accepted)| <= 1024
  {
  }

  /** The send step, with the head also sent through the loop: the peer gets head and body whole. */
  method SendRequest(sock: Socket, head: bytes, body: bytes)
    requires sock.Valid()
    modifies sock
    ensures sock.Valid() && sock.incoming == old(sock.incoming)
    ensures sock.sent == old(sock.sent) + head + body
  {
    if |head| + |body| < SMALL_REQUEST {
      SendAll(sock, head + body);
    } else {
      SendAll(sock, head);
      SendAll(sock, body);
    }
  }

  /** The two ways of sending agree exactly when the request is small or `send` took the whole head. */
  lemma SendWaysAgree(head: bytes, body: bytes, accepted: nat)
    requires accepted <= |head|
    ensures SentAsWritten(head, body, accepted) == head + body <==> |head| + |body| < SMALL_REQUEST || accepted == |head|
  {
    if |head| + |body| >= SMALL_REQUEST && accepted == |head| {
      assert head[..accepted] == head;
    }
    if |head| + |body| >= SMALL_REQUEST && accepted < |head| {
      AsWrittenLosesHead(head, body, accepted);
    }
  }

  // ---------------------------------------------------------------------
  // The reply
  // ---------------------------------------------------------------------

  /** What a finished request hands back: BaseResponse's fields and the version. */
  datatype Reply = Reply(version: bytes, status: int, reason: bytes, headers: HeaderMap, text: bytes)

  const TE_NAME: bytes := Ascii("Transfer-Encoding")
  /** How many bytes each `read` of a streamed body asks for. */
  const STREAM_READ: nat := 8192

  /** The bytes of "Transfer-Encoding", which title-casing leaves as they are. */
  const TE_BYTES: bytes := [84, 114, 97, 110, 115, 102, 101, 114, 45, 69, 110, 99, 111, 100, 105, 110, 103]

  lemma TransferEncodingAscii()
    ensures TE_NAME == TE_BYTES
  {
  }

  lemma TransferEncodingTitled()
    ensures Title(TE_BYTES) == TE_BYTES
  {
    forall i | 0 <= i < |TE_BYTES|
      ensures Title(TE_BYTES)[i] == TE_BYTES[i]
    {
    }
  }

  /** `b'Transfer-Encoding' in response.headers` tests the very key `getheader` looks up. */
  lemma TransferEncodingKey()
    ensures TRANSFER_ENCODING == BytesKey(TE_NAME)
  {
    TransferEncodingAscii();
    TransferEncodingTitled();
  }

  /** `getheader(b'Content-Length', ...)` looks up the key `begin` reads the length from. */
  lemma ContentLengthKey()
    ensures TitleKey(CONTENT_LENGTH_KEY) == CONTENT_LENGTH
  {
    var s := Ascii("Content-Length");
    var t := Ascii("content-length");
    assert LowerAll(s) == LowerAll(t);
    TitleIgnoresCase(s, t);
  }

  /** `int(response.getheader(b'Content-Length', 0))`: 0 without the field, None when it is no integer. */
  function SizeField(h: HeaderMap): Option<int> {
    if CONTENT_LENGTH in h then ParseInt(h[CONTENT_LENGTH], 10) else Some(0)
  }

  lemma SizeFieldLookup(h: HeaderMap)
    ensures SizeField(h) == match FindHeader(h, CONTENT_LENGTH_KEY) case None => Some(0) case Some(v) => ParseInt(v, 10)
  {
    ContentLengthKey();
  }

  /**
    The payload `request` reads after a 200 head with fields `headers`,
    from the bytes `rest` after the head. With a Transfer-Encoding field: a
    chunked body read chunk by chunk up to the empty chunk, and for any
    other coding fixed reads until one runs short, which is a time-out.
    Without one: Content-Length bytes, none for a length of zero.
   */
  function Payload(headers: HeaderMap, rest: bytes): Result<bytes> {
    if BytesKey(TE_NAME) in headers then
      if !ChunkedCoding(headers) then Err(Timeout)
      else
        match ChunkedBody(rest)
        case Err(e) => Err(e)
        case Ok(b) => Ok(b.0)
    else
      match SizeField(headers)
      case None => Err(BadInteger)
      case Some(n) =>
        if n == 0 then Ok([])
        else if n < 0 then Err(NegativeLength)
        else if |rest| >= n then Ok(rest[..n])
        else Err(Timeout)
  }

  /**
    What `request` makes of the bytes `p` the server sends once the request
    is out: the head as `begin` reads it, with `begin`'s exceptions; a
    status other than 200, or a caller who wants no payload, gets the head
    alone; otherwise the payload becomes the text.
   */
  function ReplyTo(p: bytes, readPayload: bool): Result<Reply> {
    match ParseHead(p, 0)
    case Err(e) => Err(BeginError(e))
    case Ok(h) => ReplyAfter(h, p[h.bodyStart..], readPayload)
  }

  /** The reply once the head `h` is read, `rest` being the bytes after it. */
  function ReplyAfter(h: Head, rest: bytes, readPayload: bool): Result<Reply> {
    var head := Reply(h.line.version, h.line.status, h.line.info, FieldMap(h.fields), []);
    if h.line.status != 200 || !readPayload then Ok(head)
    else
      match Payload(head.headers, rest)
      case Err(e) => Err(e)
      case Ok(text) => Ok(head.(text := text))
  }

  /** A Content-Length of `|body|` delivers the body and nothing after it. */
  lemma SizedPayload(headers: HeaderMap, body: bytes, extra: bytes)
    requires BytesKey(TE_NAME) !in headers && SizeField(headers) == Some(|body|)
    ensures Payload(headers, body + extra) == Ok(body)
  {
    if |body| > 0 {
      assert (body + extra)[..|body|] == body;
    }
  }

  /** A chunked body as a server writes it delivers the chunks' data, whatever follows it. */
  lemma ChunkedPayload(headers: HeaderMap, chunks: seq<Chunk>, extra: bytes)
    requires BytesKey(TE_NAME) in headers && ChunkedCoding(headers)
    requires forall i :: 0 <= i < |chunks| ==> WellFormedChunk(chunks[i])
    ensures Payload(headers, EncodeChunked(chunks) + extra) == Ok(ChunkData(chunks))
  {
    ChunkedRoundTrip(chunks, extra);
  }

  /** A Transfer-Encoding other than chunked never yields a payload. */
  lemma OtherCodingTimesOut(headers: HeaderMap, rest: bytes)
    requires BytesKey(TE_NAME) in headers && !Contains(headers[BytesKey(TE_NAME)], CHUNKED)
    ensures Payload(headers, rest) == Err(Timeout)
  {
    TransferEncodingKey();
  }

  /**
    End to end, once the head is read: a 200 head whose Content-Length is
    its body's length gives the client that head and exactly that body,
    whatever comes after it on the connection.
   */
  lemma SizedReply(p: bytes, h: Head, body: bytes, extra: bytes)
    requires ParseHead(p, 0) == Ok(h) && h.line.status == 200 && p[h.bodyStart..] == body + extra
    requires BytesKey(TE_NAME) !in FieldMap(h.fields) && SizeField(FieldMap(h.fields)) == Some(|body|)
    ensures ReplyTo(p, true) == Ok(Reply(h.line.version, 200, h.line.info, FieldMap(h.fields), body))
  {
    SizedPayload(FieldMap(h.fields), body, extra);
  }

  /** Whether the payload is read or not, the head of the reply is the same. */
  lemma ReplyHeadAgrees(p: bytes)
    requires ReplyTo(p, true).Ok?
    ensures ReplyTo(p, false).Ok?
    ensures ReplyTo(p, false).value == ReplyTo(p, true).value.(text := [])
  {
  }

  /** The response object agrees with the reply. */
  predicate Holds(response: Response, reply: Reply)
    reads response
  {
    && response.version == reply.version && response.status == reply.status
    && response.reason == reply.reason && response.headers == reply.headers
    && response.text == reply.text
  }

  /**
    One turn of the stream loop over a body that is not chunked: a read
    either times out or consumes 8192 of the bytes `rest` still to come.
   */
  lemma PlainTurn(rest: bytes, buffered: bytes, data: Result<bytes>, next: bytes)
    requires PlainRead(rest, buffered, Some(STREAM_READ), data, next)
    ensures data.Err? ==> data.error == Timeout
    ensures data.Ok? ==> data.value == rest[..STREAM_READ] && next == rest[STREAM_READ..]
    ensures data.Ok? ==> |data.value| > 0 && |next| < |rest|
  {
    ExactRead(rest, buffered, STREAM_READ, data, next);
  }

  /**
    One turn of the stream loop over a chunked body, where `c` is the chunk
    at the front of the bytes `rest` still to come and `next` what is
    pending after the read: a failed read is the body's error, an empty
    read ends the body with the data so far, and any other read consumes
    part of `rest` with the body still ahead.
   */
  lemma ChunkTurn(whole: Result<(bytes, nat)>, out: bytes, used: nat, rest: bytes, c: Result<(bytes, nat)>,
                  data: Result<bytes>, next: bytes)
    requires c == ChunkAt(rest)
    requires c.Err? ==> data.Err? && data.error == c.error
    requires c.Ok? ==> data == Ok(c.value.0) && next == rest[c.value.1..]
    requires Continues(whole, out, used, ChunkedBody(rest))
    ensures data.Err? ==> whole.Err? && data.error == whole.error
    ensures data.Ok? && |data.value| == 0 ==> whole.Ok? && whole.value.0 == out
    ensures data.Ok? && |data.value| > 0 ==>
      |next| < |rest| && Continues(whole, out + data.value, used + (|rest| - |next|), ChunkedBody(next))
  {
    if c.Err? {
      ChunkedStops(rest, c);
      ContinuesToError(whole, out, used, ChunkedBody(rest));
    } else if |c.value.0| == 0 {
      ChunkedEnds(rest, c);
      ContinuesToEnd(whole, out, used, ChunkedBody(rest));
    } else {
      ChunkedGoesOn(rest, c, next);
      ContinuesFurther(whole, out, used, ChunkedBody(rest), c.value.0, c.value.1, ChunkedBody(next));
    }
  }

  /**
    The loop over `response.read(8192)` until it returns nothing, joined,
    on the bytes `p` still to come: `_read_chunked` each time when the
    body is chunked, `_read_plain(8192)` each time otherwise.
   */
  method ReadStream(response: Response, ghost p: bytes) returns (r: Result<bytes>)
    requires response.Valid() && response.Pending() == p
    modifies response`readBuffer, response`bufferStart, response.connection
    ensures response.Valid()
    ensures response.connection.sent == old(response.connection.sent)
    ensures response.chunked && ChunkedBody(p).Err? ==> r == Err(ChunkedBody(p).error)
    ensures response.chunked && ChunkedBody(p).Ok? ==> r == Ok(ChunkedBody(p).value.0)
    ensures !response.chunked ==> r == Err(Timeout)
  {
    ghost var whole := ChunkedBody(p);
    ghost var used: nat := 0;
    ghost var rest := p;
    var out: bytes := [];
    ContinuesFromStart(whole);
    while true
      invariant response.Valid()
      invariant response.connection.sent == old(response.connection.sent)
      invariant response.Pending() == rest
      invariant response.chunked ==> Continues(whole, out, used, ChunkedBody(rest))
      decreases |rest|
    {
      ghost var c := ChunkAt(rest);
      ghost var buffered := response.readBuffer[response.bufferStart..];
      var data := response.Read(Some(STREAM_READ));
      ghost var next := response.Pending();
      if response.chunked {
        ChunkTurn(whole, out, used, rest, c, data, next);
      } else {
        PlainTurn(rest, buffered, data, next);
      }
      if data.Err? {
        return Err(data.error);
      }
      if |data.value| == 0 {
        return Ok(out);
      }
      out := out + data.value;
      used := used + (|rest| - |next|);
      rest := next;
    }
  }

  /**
    The payload of a 200 response, on the bytes `rest` after its head: the
    stream loop when a Transfer-Encoding field is there, else one `read` of
    Content-Length bytes when that is not zero. The outcome is Payload's.
   */
  method ReadPayload(response: Response, ghost rest: bytes) returns (r: Result<bytes>)
    requires response.Valid() && response.Pending() == rest
    requires response.chunked == ChunkedCoding(response.headers)
    modifies response`readBuffer, response`bufferStart, response.connection
    ensures response.Valid()
    ensures response.connection.sent == old(response.connection.sent)
    ensures r == Payload(response.headers, rest)
  {
    if BytesKey(TE_NAME) in response.headers {
      r := ReadStream(response, rest);
      return;
    }
    TransferEncodingKey();
    assert !response.chunked;
    var size := if CONTENT_LENGTH in response.headers then ParseInt(response.headers[CONTENT_LENGTH], 10) else Some(0);
    if size.None? {
      return Err(BadInteger);
    }
    if size.value == 0 {
      return Ok([]);
    }
    r := response.Read(Some(size.value));
    if size.value > 0 {
      ExactRead(rest, old(response.readBuffer[response.bufferStart..]), size.value, r, response.Pending());
    }
  }

  /**
    `request` from the moment the request is out: a Response on the socket,
    `begin`, then the payload when the status is 200 and it is wanted. The
    response object comes back holding ReplyTo's reply, or the exception.
   */
  method Receive(sock: Socket, readPayload: bool) returns (r: Result<Response>)
    requires sock.Valid()
    modifies sock
    ensures sock.Valid()
    ensures sock.sent == old(sock.sent)
    ensures ReplyTo(old(sock.incoming), readPayload).Err? ==> r == Err(ReplyTo(old(sock.incoming), readPayload).error)
    ensures ReplyTo(old(sock.incoming), readPayload).Ok? ==>
      r.Ok? && fresh(r.value) && r.value.connection == sock && Holds(r.value, ReplyTo(old(sock.incoming), readPayload).value)
  {
    var response := new Response(sock);
    ghost var p := response.Pending();
    var e := response.Begin();
    if e.Some? {
      return Err(e.value);
    }
    r := Complete(response, readPayload, ParseHead(p, 0).value, response.Pending());
  }

  /**
    The rest of `request` once `begin` has read the head `h`, with `rest`
    still to come: the status and `read_payload` tests, then the payload
    into `text`. A zero Content-Length leaves `text` at its default b"",
    which is what is stored here too.
   */
  method Complete(response: Response, readPayload: bool, ghost h: Head, ghost rest: bytes) returns (r: Result<Response>)
    requires response.Valid() && response.Pending() == rest
    requires response.version == h.line.version && response.status == h.line.status && response.reason == h.line.info
    requires response.headers == FieldMap(h.fields) && response.text == []
    requires response.chunked == ChunkedCoding(response.headers)
    modifies response`readBuffer, response`bufferStart, response`text, response.connection
    ensures response.Valid()
    ensures response.connection.sent == old(response.connection.sent)
    ensures ReplyAfter(h, rest, readPayload).Err? ==> r == Err(ReplyAfter(h, rest, readPayload).error)
    ensures ReplyAfter(h, rest, readPayload).Ok? ==> r == Ok(response) && Holds(response, ReplyAfter(h, rest, readPayload).value)
  {
    if response.status != 200 || !readPayload {
      return Ok(response);
    }
    var text := ReadPayload(response, rest);
    if text.Err? {
      return Err(text.error);
    }
    response.text := text.value;
    return Ok(response);
  }

  /**
    `request` once it has a socket: the head built from the items, the send
    step as written, then the reply read back.
   */
  method Exchange(sock: Socket, verb: bytes, target: bytes, items: Items, body: bytes, readPayload: bool)
    returns (r: Result<Response>, ghost accepted: nat)
    requires sock.Valid()
    modifies sock
    ensures sock.Valid()
    ensures SentWithin(RequestHead(verb, target, items), body, old(sock.window), accepted, old(sock.sent), sock.sent)
    ensures ReplyTo(old(sock.incoming), readPayload).Err? ==> r == Err(ReplyTo(old(sock.incoming), readPayload).error)
    ensures ReplyTo(old(sock.incoming), readPayload).Ok? ==>
      r.Ok? && fresh(r.value) && r.value.connection == sock && Holds(r.value, ReplyTo(old(sock.incoming), readPayload).value)
  {
    var head := BuildRequest(verb, target, items);
    accepted := SendRequestAsWritten(sock, head, body);
    r := Receive(sock, readPayload);
  }

  // ---------------------------------------------------------------------
  // The client
  // ---------------------------------------------------------------------

  /**
    What opening a new connection gives: a socket (null when no address of
    the host accepted), or an exception from the proxy or the TLS wrapping.
   */
  datatype Opened = Opened(sock: Socket?) | Raised

  /** The sockets a call may write to or read from: the cached one and a newly opened one. */
  function Endpoints(cached: Socket?, open: Opened): set<Socket> {
    (if cached != null then {cached} else {}) + (if open.Opened? && open.sock != null then {open.sock} else {})
  }

  class Client {
    var connection: Socket?
    var host: Option<bytes>
    var port: Option<int>
    var tls: Option<bool>

    predicate Valid()
      reads this, connection
    {
      connection != null ==> connection.Valid()
    }

    /** `Client()`: no connection yet. */
    constructor ()
      ensures Valid() && connection == null && host == None && port == None && tls == None
    {
      connection, host, port, tls := null, None, None, None;
    }

    /** The cached connection serves (`host`, `port`, `tls`). */
    predicate Reuses(host: bytes, port: int, tls: bool)
      reads this
    {
      connection != null && this.host == Some(host) && this.port == Some(port) && this.tls == Some(tls)
    }

    /**
      `connect`: the cached connection when it serves the same host, port
      and TLS setting; otherwise what opening gives, which becomes the
      cache (a null socket included) unless opening raised.
     */
    method Connect(host: bytes, port: int, tls: bool, open: Opened) returns (r: Result<Socket?>)
      modifies this
      ensures old(Reuses(host, port, tls)) ==> r == Ok(old(connection)) && unchanged(this)
      ensures !old(Reuses(host, port, tls)) && open.Raised? ==> r == Err(ConnectFailed) && unchanged(this)
      ensures !old(Reuses(host, port, tls)) && open.Opened? ==>
        && r == Ok(open.sock) && connection == open.sock
        && this.host == Some(host) && this.port == Some(port) && this.tls == Some(tls)
      ensures r.Ok? && r.value != null ==> Reuses(host, port, tls)
    {
      if connection != null && this.host == Some(host) && this.port == Some(port) && this.tls == Some(tls) {
        return Ok(connection);
      }
      if open.Raised? {
        return Err(ConnectFailed);
      }
      connection := open.sock;
      this.host, this.port, this.tls := Some(host), Some(port), Some(tls);
      return Ok(open.sock);
    }

    /**
      `request(verb, url, headers, body, read_payload)`, with the URL
      already split and `open` standing for the connection a new `connect`
      would make. `used` is the socket the request went out on, and
      `accepted` the count the single `send` of a large request's head returned.
     */
    method Request(verb: bytes, url: SplitUrl, headers: HeaderDict, body: bytes, readPayload: bool, open: Opened)
      returns (r: Result<Option<Response>>, ghost used: Socket?, ghost accepted: nat)
      requires Valid()
      requires open.Opened? && open.sock != null ==> open.sock.Valid()
      modifies this, headers, Endpoints(connection, open)
      ensures Valid()
      ensures headers.items == WithRequestFields(old(headers.items), body, url.netloc)
      ensures RequestPort(url).Err? ==> r == Err(UnknownScheme) && unchanged(this)
      ensures RequestPort(url).Ok? ==>
        var reuse := old(Reuses(url.hostname, RequestPort(url).value, url.scheme == HTTPS));
        && (reuse ==> used == old(connection))
        && (!reuse && open.Raised? ==> r == Err(ConnectFailed) && unchanged(this))
        && (!reuse && open.Opened? ==> used == open.sock)
        && (open.Opened? || reuse ==> used == null ==> r == Ok(None))
      ensures RequestPort(url).Ok? && (old(Reuses(url.hostname, RequestPort(url).value, url.scheme == HTTPS)) || open.Opened?) ==>
        && connection == used && this.host == Some(url.hostname)
        && this.port == Some(RequestPort(url).value) && this.tls == Some(url.scheme == HTTPS)
      ensures used == null || used == old(connection) || (open.Opened? && used == open.sock)
      ensures used != null ==>
        && SentWithin(RequestHead(verb, RequestTarget(url), headers.items), body, old(used.window), accepted, old(used.sent), used.sent)
        && (ReplyTo(old(used.incoming), readPayload).Err? ==> r == Err(ReplyTo(old(used.incoming), readPayload).error))
        && (ReplyTo(old(used.incoming), readPayload).Ok? ==>
              r.Ok? && r.value.Some? && r.value.value.connection == used
              && Holds(r.value.value, ReplyTo(old(used.incoming), readPayload).value))
    {
      used, accepted := null, 0;
      headers.Set(CONTENT_LENGTH_KEY, TextValue(Decimal(|body|)));
      headers.Set(HOST_KEY, TextValue(url.netloc));
      var port := RequestPort(url);
      if port.Err? {
        return Err(port.error), null, 0;
      }
      var target := RequestTarget(url);
      var sock := Connect(url.hostname, port.value, url.scheme == HTTPS, open);
      if sock.Err? {
        return Err(sock.error), null, 0;
      }
      used := sock.value;
      if sock.value == null {
        return Ok(None), null, 0;
      }
      var response;
      response, accepted := Exchange(sock.value, verb, target, headers.items, body, readPayload);
      if response.Err? {
        return Err(response.error), used, accepted;
      }
      return Ok(Some(response.value)), used, accepted;
    }
  }
}
