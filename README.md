# XX-Net: the simple HTTP client and the smart router's listening addresses

This project models two parts of XX-Net in Dafny and proves properties of them.

**The HTTP/1.1 client** (`simple_http_client.py`):

- `BaseResponse` stores header keys in title case, and `getheader` looks them up the same way.
- `TxtResponse` parses a response that is already in memory.
- `Response` reads a response from a live connection:
  - `begin` reads the status line and the header block;
  - `_read_plain` reads a given length, or whatever is there;
  - `_read_chunked` reads one chunk;
  - `read` picks one of those two;
  - `readall` reads the whole body.
- `Client.connect` keeps one connection open and reuses it while host, port and TLS choice stay the same.
- `Client.request`:
  - puts `Content-Length` and `Host` into the caller's header dict;
  - works out port and target from the URL;
  - writes the request line and one line per dict item;
  - sends head and body;
  - reads back status, headers and, for a 200 answer, the payload.

**The smart router's listening addresses** (`smart_router/local/__init__.py`):

- the defaults `load_config` registers;
- how `start` turns the configured bind setting and `allow_remote` into the address lists for the proxy server and the DNS server.

Modules, one file each:

- `Wrappers`: Option and Result. The client's exceptions are an `Error` datatype.
- `Bytes`: Python `bytes` operations with Python's rules. These are `find` with a start, slicing with negative indices, `split(sep)`, `split()`, `strip`, `join` and ASCII `title()`.
- `Numerals`: `int(b, 10)` and `int(b, 16)` with whitespace, a sign, underscores and the `0x` prefix. Also the decimal and hexadecimal printers that are its partners.
- `Headers`:
  - dict keys, which are bytes or str and never equal to each other;
  - title casing;
  - `BaseResponse` and `getheader`;
  - `str(b)` of a bytes object, which `TxtResponse` uses as its keys.
- `HttpMessage`: the response head as pure functions. `ParseHead` is the specification that the buffer-and-cursor readers are proved against, and `FormatResponse` lays a head out.
- `Chunked`: the chunked coding as `_read_chunked` and `readall` read it. `EncodeChunked` is its partner.
- `Net`: the socket, as an abstract source and sink:
  - `incoming` is what the peer has sent and nobody has received yet;
  - `recv` hands out at most `burst` bytes;
  - `send` accepts at least one and at most `window` of the bytes offered per call, a count callers cannot predict;
  - waiting for data that never comes stands for the time-out the source's clock raises.
- `TxtResponses`: the `TxtResponse` class. Its methods move a cursor over its buffer.
- `Responses`: the `Response` class. Its state is the buffer, the cursor and the socket. Each read is specified against `Pending()`, which is the unread buffer followed by the bytes the socket still holds. So every contract means the same thing however the peer's bytes are split across `recv` calls.
- `HttpClient`:
  - the URL parts `request` uses;
  - the header dict as an ordered list of items, with a `HeaderDict` class that `request` updates in place;
  - the request bytes and the send loop;
  - the reply that `request` reads;
  - the `Client` class.
- `SmartRouter`: the listening-address derivation, as functions.

How a connection is opened is abstracted. `direct_connect`, the SOCKS proxy path and the TLS wrap become the `Opened` parameter of `Client.Connect` and `Client.Request`. Its values are:

- a socket;
- `null`, which is what `direct_connect` returns when every address fails, only without TLS: `ssl.wrap_socket(None)` raises, which is `Raised`;
- `Raised`, for a proxy or TLS exception.

## Model

| member | source | states |
|---|---|---|
| Bytes.FindFrom | code/default/lib/noarch/simple_http_client.py:63-64 | `find(pat, start)`: -1 exactly when `pat` occurs at no index at or after `start`; otherwise the result is the first such index |
| Bytes.FindIs | code/default/lib/noarch/simple_http_client.py:119-120 | any index that matches and has no earlier match at or after `start` is what `find` returns |
| Bytes.SplitOn | code/default/lib/noarch/simple_http_client.py:91 | `split(sep)` always yields at least one part |
| Bytes.JoinSplit | code/default/lib/noarch/simple_http_client.py:91 | joining the parts of `split(sep)` with `sep` gives the input back |
| Bytes.SplitJoin | code/default/lib/noarch/simple_http_client.py:196 | splitting a join of parts that avoid the separator's first byte gives the parts back |
| Bytes.SplitWords | code/default/lib/noarch/simple_http_client.py:81 | `split()` yields only non-empty words without whitespace |
| Bytes.SplitJoinWords | code/default/lib/noarch/simple_http_client.py:184 | words joined by single spaces split back into the same words |
| Bytes.SplitWordsTrimEnd | code/default/lib/noarch/simple_http_client.py:183-184 | stripping trailing whitespace bytes before `split()` changes no word |
| Bytes.SliceInRange | code/default/lib/noarch/simple_http_client.py:67 | a Python slice within bounds is the plain subsequence |
| Bytes.SliceDropLastTwo | code/default/lib/noarch/simple_http_client.py:315 | `dat[:-2]` is all but the last two bytes, and empty when there are fewer than two |
| Bytes.StripNothing | code/default/lib/noarch/simple_http_client.py:313 | `strip` leaves bytes without whitespace at either end unchanged |
| Bytes.Title | code/default/lib/noarch/simple_http_client.py:31 | `title()` keeps the length |
| Bytes.TitleIdempotent | code/default/lib/noarch/simple_http_client.py:37 | title-casing an already title-cased key changes nothing |
| Bytes.TitleIgnoresCase | code/default/lib/noarch/simple_http_client.py:37 | two byte strings equal up to ASCII case have the same title form |
| Numerals.ParseIntOfWord | code/default/lib/noarch/simple_http_client.py:86 | `int()` of a word is the parse of the word itself; no trimming happens |
| Numerals.ParseInt | code/default/lib/noarch/simple_http_client.py:86 | `int(b, base)`: None exactly where Python raises; DecimalRoundTrip, HexRoundTrip, HexPrefix and DecimalRejectsHexPrefix pin what it accepts |
| Numerals.NatDigitsValue | code/default/lib/noarch/simple_http_client.py:313 | printed digits are non-empty, digits of the base, and denote the number |
| Numerals.NatDigitsRoundTrip | code/default/lib/noarch/simple_http_client.py:527 | `int()` reads a number's digits back as that number, in base 10 and 16 |
| Numerals.DecimalRoundTrip | code/default/lib/noarch/simple_http_client.py:451 | `int(str(n))` is `n`, negative numbers included, so the Content-Length `request` writes reads back |
| Numerals.HexRoundTrip | code/default/lib/noarch/simple_http_client.py:313 | `int(line, 16)` reads a lower-case hexadecimal size back |
| Numerals.HexPrefix | code/default/lib/noarch/simple_http_client.py:313 | base 16 also accepts the `0x` prefix before the digits |
| Numerals.DecimalRejectsHexPrefix | code/default/lib/noarch/simple_http_client.py:527 | base 10 refuses `0x` followed by anything not ending in whitespace |
| Headers.BaseResponse.constructor | code/default/lib/noarch/simple_http_client.py:22-34 | status, reason and text as given; each header stored under its title-cased key, later duplicates winning |
| Headers.TitledMapLookup | code/default/lib/noarch/simple_http_client.py:26-41 | `getheader(k)` on the stored map gives the value of the last given header whose key has `k`'s title form, and nothing when none has |
| Headers.TitledMapKeys | code/default/lib/noarch/simple_http_client.py:31-32 | every stored key is in title form |
| Headers.StoredKeysFound | code/default/lib/noarch/simple_http_client.py:36-41 | `getheader` finds every stored key with its stored value |
| Headers.GetHeaderIgnoresCase | code/default/lib/noarch/simple_http_client.py:36-41 | two lookups that differ only in ASCII case agree |
| Headers.TitleKeyIdempotent | code/default/lib/noarch/simple_http_client.py:37 | title-casing a bytes or str key twice is title-casing it once |
| Headers.TitleKey | code/default/lib/noarch/simple_http_client.py:31-37 | `key.title()` for a bytes or a str key, keeping its kind; TitleKeyIdempotent and GetHeaderIgnoresCase state it is idempotent and blind to ASCII case |
| Headers.TitledMap | code/default/lib/noarch/simple_http_client.py:25-32 | the constructor's map: each pair stored under its title-cased key, later pairs replacing earlier ones; TitledMapLookup proves this against LastValue |
| Headers.GetHeader | code/default/lib/noarch/simple_http_client.py:36-41 | `getheader`: the value under the title-cased key, else the default; StoredKeysFound and LookupMissesReprKeys state its hits and misses |
| Headers.TextTitleFirst | code/default/lib/noarch/simple_http_client.py:37 | a title-cased non-empty str never starts with a lower-case `b` |
| Headers.LookupMissesReprKeys | code/default/lib/noarch/simple_http_client.py:36-41 | in a map whose keys are all strs starting with `b`, every lookup misses |
| Headers.BytesRepr | code/default/lib/noarch/simple_http_client.py:96 | `str(b)` of bytes starts with `b` and is at least three characters long |
| Headers.ReprOfPrintable | code/default/lib/noarch/simple_http_client.py:96 | for printable bytes without quote or backslash, `str(b)` is `b'`, those characters, `'` |
| HttpMessage.ParseStatusLine | code/default/lib/noarch/simple_http_client.py:80-87 | the only errors are too few words and a non-integer status; a parsed version is a word |
| HttpMessage.ParseStatusWords | code/default/lib/noarch/simple_http_client.py:84-87 | version is the first word, status the integer value of the second, reason the rest joined by spaces |
| HttpMessage.StatusLineRoundTrip | code/default/lib/noarch/simple_http_client.py:184-190 | a status line formatted from a version, a status and reason words parses back to them |
| HttpMessage.StatusLineTooShort | code/default/lib/noarch/simple_http_client.py:82-83 | a line without whitespace is refused as a bad status line |
| HttpMessage.StatusNotANumber | code/default/lib/noarch/simple_http_client.py:86 | a second word that `int()` refuses makes the line an integer error |
| HttpMessage.SecondWordNotANumber | code/default/lib/noarch/simple_http_client.py:189 | the same, for any line whose second word is not an integer |
| HttpMessage.StatusLineIgnoresTrailingNewline | code/default/lib/noarch/simple_http_client.py:183-184 | `rstrip(b'\r\n')` before parsing changes no outcome |
| HttpMessage.FieldLineRoundTrip | code/default/lib/noarch/simple_http_client.py:93-95 | `name: value` with a colon-free name reads back as that name and value |
| HttpMessage.ParseFieldLine | code/default/lib/noarch/simple_http_client.py:93-95 | `line[0:p]` and `line[p+2:]` around the first colon; FieldLineRoundTrip, FieldLineNoColon and FieldLineNoSpace state the round trip and the two quirks |
| HttpMessage.FieldLineNoColon | code/default/lib/noarch/simple_http_client.py:93-95 | a line without a colon: `find` gives -1, so the key loses the last byte and the value the first |
| HttpMessage.FieldLineNoSpace | code/default/lib/noarch/simple_http_client.py:95 | a colon not followed by a space loses the value's first byte |
| HttpMessage.FieldPairs | code/default/lib/noarch/simple_http_client.py:92-97 | one name and value per line of the block |
| HttpMessage.FieldLines | code/default/lib/noarch/simple_http_client.py:475-479 | one line per field |
| HttpMessage.FieldLineAvoidsCr | code/default/lib/noarch/simple_http_client.py:475-479 | a well-formed field's line holds no CR and at least the colon and space |
| HttpMessage.HeaderBlockRoundTrip | code/default/lib/noarch/simple_http_client.py:90-97 | a block of well-formed field lines splits back into exactly those fields |
| HttpMessage.BlockFields | code/default/lib/noarch/simple_http_client.py:91-95 | the block split at CRLF, one pair per line; HeaderBlockRoundTrip and EmptyBlockFields state what it gives back |
| HttpMessage.EmptyBlockFields | code/default/lib/noarch/simple_http_client.py:91-97 | an empty block still yields one field, with empty name and value |
| HttpMessage.ParseHead | code/default/lib/noarch/simple_http_client.py:79-101 | a parsed head ends with CRLF CRLF at least six bytes past the start, inside the buffer |
| HttpMessage.ParseHeadAt | code/default/lib/noarch/simple_http_client.py:62-99 | line up to the first CRLF, block up to the next CRLF CRLF, body after it |
| HttpMessage.ParseHeadNoLine | code/default/lib/noarch/simple_http_client.py:63-65 | with no CRLF after the start the head fails to read the line |
| HttpMessage.ParseHeadNoBlock | code/default/lib/noarch/simple_http_client.py:72-74 | with no CRLF CRLF after the line the head fails to read the block |
| HttpMessage.ParseHeadAtBadLine | code/default/lib/noarch/simple_http_client.py:80-83 | a bad status line makes the head fail with that line's error |
| HttpMessage.FormattedHeadLayout | code/default/lib/noarch/simple_http_client.py:62-77 | in a laid-out response the first CRLF ends the status line, and line, block and body sit at their offsets |
| HttpMessage.FormattedBlockEnd | code/default/lib/noarch/simple_http_client.py:71-77 | in a laid-out response the first CRLF CRLF after the line ends the header block |
| HttpMessage.EmptyHeaderBlockFails | code/default/lib/noarch/simple_http_client.py:71-74 | a head with no field line at all is refused, because the search for CRLF CRLF starts after the line's CRLF |
| HttpMessage.FieldMapLookup | code/default/lib/noarch/simple_http_client.py:196-202 | `getheader` on `begin`'s map gives the value of the last field with the same title-cased name |
| HttpMessage.ReprMapKeys | code/default/lib/noarch/simple_http_client.py:96-97 | every key `TxtResponse.parse` stores is a str starting with `b` |
| HttpMessage.ReprMapLookupMisses | code/default/lib/noarch/simple_http_client.py:36-41 | so `getheader` on such a map returns the default for every key |
| HttpMessage.ReprMapStoresRepr | code/default/lib/noarch/simple_http_client.py:96-97 | the last field is stored under `str()` of its title-cased name |
| TxtResponses.TxtResponse.constructor | code/default/lib/noarch/simple_http_client.py:45-59 | BaseResponse's defaults, the given buffer, cursor at 0 |
| TxtResponses.TxtResponse.ReadLine | code/default/lib/noarch/simple_http_client.py:62-69 | the bytes from the cursor to the next CRLF, cursor past it; an error with the cursor unmoved when there is none |
| TxtResponses.TxtResponse.ReadHeaders | code/default/lib/noarch/simple_http_client.py:71-77 | the same for CRLF CRLF |
| TxtResponses.TxtResponse.Parse | code/default/lib/noarch/simple_http_client.py:79-101 | line, status-line words, block, `str`-keyed fields and body, step by step, with each failure's error; the buffer emptied |
| TxtResponses.TxtResponse.ParseFrom | code/default/lib/noarch/simple_http_client.py:79-101 | `parse` for a given buffer and cursor: no CRLF is a read-line error, then ParseStatus's outcome |
| TxtResponses.TxtResponse.ParseStatus | code/default/lib/noarch/simple_http_client.py:81-101 | a status line of fewer than two words or a non-decimal status is that error; otherwise version, status and info are its words and the rest is as ParseFields states |
| TxtResponses.ParsedHead | code/default/lib/noarch/simple_http_client.py:79-101 | what `parse` leaves step by step is `ParseHead`'s outcome: the same error, or the same status line, the fields stored by `str()` key, and the body from `ParseHead`'s body start |
| HttpMessage.ReprMapStep | code/default/lib/noarch/simple_http_client.py:92-97 | each further field adds or replaces exactly one key, the `str()` of its title-cased name, with its value |
| TxtResponses.TxtResponse.ParseFields | code/default/lib/noarch/simple_http_client.py:89-101 | block up to CRLF CRLF, its fields, the body after it, buffer reset |
| TxtResponses.ReprFields | code/default/lib/noarch/simple_http_client.py:91-97 | the loop stores each field under `str()` of its title-cased name, later ones winning |
| TxtResponses.FromBuffer | code/default/lib/noarch/simple_http_client.py:45-60 | `TxtResponse(buffer)` fails exactly when `ParseHead` does, with its error; otherwise its fields are `ParseHead`'s |
| TxtResponses.ParsedLookupMisses | code/default/lib/noarch/simple_http_client.py:36-41 | after `parse`, `getheader` returns the default for every key |
| Net.Socket.Recv | code/default/lib/noarch/simple_http_client.py:129 | an exhausted socket times out; otherwise between 1 and `max` bytes, the next ones the peer sent |
| Net.Socket.Send | code/default/lib/noarch/simple_http_client.py:494 | `send` takes a prefix of what it is offered, at least one byte when offered any and at most the window, and says how many |
| Chunked.ChunkAt | code/default/lib/noarch/simple_http_client.py:311-315 | a chunk read consumes at least its CRLF and no more than there is |
| Chunked.ChunkedBody | code/default/lib/noarch/simple_http_client.py:329-342 | reading chunks until an empty one consumes no more than there is |
| Chunked.HexSizeLine | code/default/lib/noarch/simple_http_client.py:313 | a size in lower-case hexadecimal is a line `int(line, 16)` reads as that size |
| Chunked.ChunkAtLine | code/default/lib/noarch/simple_http_client.py:311-315 | size line, then at least size+2 bytes: the data is the first `size` of them, and the size line, its CRLF, the data and two more bytes are used |
| Chunked.ChunkAtShort | code/default/lib/noarch/simple_http_client.py:314 | fewer than size+2 bytes after the size line time out |
| Chunked.ChunkRoundTrip | code/default/lib/noarch/simple_http_client.py:311-315 | an encoded chunk reads back as its data and uses exactly its encoding |
| Chunked.LastChunkRead | code/default/lib/noarch/simple_http_client.py:336-338 | the last chunk `0` CRLF CRLF reads as empty data after five bytes |
| Chunked.ChunkedRoundTrip | code/default/lib/noarch/simple_http_client.py:329-342 | an encoded body reads back as the concatenated data and uses exactly its encoding, whatever follows |
| Chunked.ChunkedCons | code/default/lib/noarch/simple_http_client.py:336-340 | a chunk in front of a readable body adds its data in front and its length to what is used |
| Chunked.BadSizeLine | code/default/lib/noarch/simple_http_client.py:313 | a size line `int(line, 16)` refuses ends the body with an integer error |
| Responses.Response.constructor | code/default/lib/noarch/simple_http_client.py:105-111 | BaseResponse's defaults, the socket, an empty buffer, not chunked; pending is what the socket holds |
| Responses.Response.ReadUntil | code/default/lib/noarch/simple_http_client.py:118-143 | the receive loop: the pending bytes up to the first `pat`, consumed with it; a time-out with nothing consumed when it never comes |
| Responses.Response.ReadLine | code/default/lib/noarch/simple_http_client.py:113-145 | the pending bytes up to the first CRLF, consumed with it; a time-out when none arrives |
| Responses.Response.ReadHeaders | code/default/lib/noarch/simple_http_client.py:147-177 | the pending bytes up to the first CRLF CRLF, consumed with it; None, the swallowed exception, when none arrives |
| Responses.Response.Begin | code/default/lib/noarch/simple_http_client.py:179-210 | `ParseHead` of the pending bytes decides the outcome: version, status, reason and title-keyed headers, pending left at the body; `content_length` and `chunked` from the headers |
| Responses.Response.ReadHead | code/default/lib/noarch/simple_http_client.py:181-202 | status line, then block, with the outcome of each step |
| Responses.Response.ReadStatus | code/default/lib/noarch/simple_http_client.py:181-190 | the line up to the first CRLF parsed as a status line, fields set on success |
| Responses.Response.ReadFields | code/default/lib/noarch/simple_http_client.py:192-202 | the block up to the first CRLF CRLF, the headers its fields |
| Responses.Response.SetFlags | code/default/lib/noarch/simple_http_client.py:204-207 | `content_length` is the Content-Length value or empty; `chunked` is set once Transfer-Encoding contains `chunked` |
| Responses.Response.ReadPlain | code/default/lib/noarch/simple_http_client.py:212-264 | `_read_plain`: zero reads nothing; a length takes that prefix of the pending bytes or times out; no length returns what is buffered, or else one receive |
| Responses.Response.TakeBuffered | code/default/lib/noarch/simple_http_client.py:218-224 | a read the buffer alone can satisfy takes exactly `n` bytes from the front |
| Responses.Response.ReadChunked | code/default/lib/noarch/simple_http_client.py:311-315 | one `ChunkAt` of the pending bytes: its data or its error, the chunk consumed |
| Responses.Response.Read | code/default/lib/noarch/simple_http_client.py:317-325 | a plain read unless chunked, else one chunk |
| Responses.Response.ReadAll | code/default/lib/noarch/simple_http_client.py:327-344 | chunked: `ChunkedBody` of the pending bytes; otherwise `int(content_length)` bytes or the integer error |
| Responses.Response.ReadAllChunks | code/default/lib/noarch/simple_http_client.py:329-342 | the loop reads `ChunkedBody`'s data and consumes exactly its encoding |
| Responses.Response.NextChunk | code/default/lib/noarch/simple_http_client.py:336-340 | one turn of the loop: an error ends the body with it, empty data ends it, other data is continued by the rest |
| Responses.ReceiveUntil | code/default/lib/noarch/simple_http_client.py:118-143 | receiving until `pat` appears or the socket runs dry loses and reorders no byte |
| Responses.ReceivePlain | code/default/lib/noarch/simple_http_client.py:234-260 | receiving towards `n` bytes stops at `n` or when the socket runs dry and loses no byte |
| Responses.ExactRead | code/default/lib/noarch/simple_http_client.py:218-262 | a positive-length read is exactly the prefix of that length, or a time-out when there are fewer bytes |
| Responses.ExactReadsCompose | code/default/lib/noarch/simple_http_client.py:212-264 | reading `n` then `m` bytes is reading `n+m` |
| Responses.PlainReadLosesNothing | code/default/lib/noarch/simple_http_client.py:226-264 | a read without a length returns a prefix of the pending bytes and leaves the rest |
| Responses.ChunkLineBad | code/default/lib/noarch/simple_http_client.py:313 | a size line `int(line, 16)` refuses is an integer error |
| Responses.ChunkRead | code/default/lib/noarch/simple_http_client.py:311-315 | size line, read of size+2, `[:-2]` is what `ChunkAt` states |
| Responses.ChunkedStops | code/default/lib/noarch/simple_http_client.py:336 | a failing chunk read fails the whole body with the same error |
| Responses.ChunkedEnds | code/default/lib/noarch/simple_http_client.py:337-338 | an empty chunk ends the body there |
| Responses.ChunkedGoesOn | code/default/lib/noarch/simple_http_client.py:340 | a non-empty chunk is followed by the body read from after it |
| Responses.FlagLookups | code/default/lib/noarch/simple_http_client.py:204-205 | the two flags are `getheader("content-length")` and `b"chunked" in getheader("Transfer-Encoding")` |
| Responses.StoreFields | code/default/lib/noarch/simple_http_client.py:196-202 | the loop stores each field under its title-cased name, later ones winning |
| Responses.HeadRead | code/default/lib/noarch/simple_http_client.py:181-202 | reading line, then block, as `begin` does, is `ParseHead` |
| HttpClient.RequestPort | code/default/lib/noarch/simple_http_client.py:453-460 | the URL's port unless absent or 0, else 80 or 443 by scheme; refused exactly for another scheme; never 0 |
| HttpClient.TargetPath | code/default/lib/noarch/simple_http_client.py:462-464 | the path, `/` when empty, so never empty |
| HttpClient.RequestTarget | code/default/lib/noarch/simple_http_client.py:462-467 | the path, `/` when empty, then `?` and the query when there is one; TargetRoundTrip splits it back into path and query |
| HttpClient.TargetRoundTrip | code/default/lib/noarch/simple_http_client.py:462-467 | splitting the target at its first `?` gives back path and query; with no query there is no `?` |
| HttpClient.KeyIndex | code/default/lib/noarch/simple_http_client.py:451-452 | the position of the first item with key `k`, or -1 exactly when there is none |
| HttpClient.PutLookup | code/default/lib/noarch/simple_http_client.py:451-452 | after `d[k] = v`, `k` maps to `v` and every other key maps to what it did |
| HttpClient.PutKeys | code/default/lib/noarch/simple_http_client.py:475 | an existing key keeps its place in iteration order; a new one comes last |
| HttpClient.PutIdempotent | code/default/lib/noarch/simple_http_client.py:451-452 | assigning the same value twice is assigning it once |
| HttpClient.HeaderDict.Set | code/default/lib/noarch/simple_http_client.py:451-452 | the dict's new items are the old with `k` set to `v` |
| HttpClient.RequestFieldsSet | code/default/lib/noarch/simple_http_client.py:451-452 | after `request`'s two assignments the dict holds `str(len(body))` and the netloc, every other key unchanged, and is not empty |
| HttpClient.RequestFieldsSettle | code/default/lib/noarch/simple_http_client.py:451-452 | reusing the same dict for the same request changes it no further |
| HttpClient.Keys | code/default/lib/noarch/simple_http_client.py:475 | one key per item |
| HttpClient.ItemFields | code/default/lib/noarch/simple_http_client.py:475-479 | one header field per dict item |
| HttpClient.TerminatedLines | code/default/lib/noarch/simple_http_client.py:475-479 | one CRLF-ended line per field |
| HttpClient.BuildRequest | code/default/lib/noarch/simple_http_client.py:473-481 | the loop builds the request line, one line per item in dict order, and a blank line |
| HttpClient.RequestHead | code/default/lib/noarch/simple_http_client.py:473-481 | the request line, one `key: value` CRLF line per item in dict order, then CRLF; RequestLineReadBack and RequestBlockReadBack read it back |
| HttpClient.TerminatedBlock | code/default/lib/noarch/simple_http_client.py:475-481 | CRLF-ended lines plus one more CRLF are the joined block followed by CRLF CRLF |
| HttpClient.RequestLayout | code/default/lib/noarch/simple_http_client.py:473-486 | the head then the body is a message laid out as request line, block, blank line, body |
| HttpClient.FormattedBlock | code/default/lib/noarch/simple_http_client.py:473-481 | in such a message the block ends at the first CRLF CRLF after the line, holds the fields, and the body follows |
| HttpClient.RequestLineReadBack | code/default/lib/noarch/simple_http_client.py:473 | a server reading up to the first CRLF gets the request line |
| HttpClient.RequestBlockReadBack | code/default/lib/noarch/simple_http_client.py:475-486 | then up to the next CRLF CRLF it gets the items as fields, in dict order, and after it the body untouched |
| HttpClient.SendAll | code/default/lib/noarch/simple_http_client.py:490-495 | the send loop gets the whole payload out, in order, whatever count each `send` returns |
| HttpClient.SendRequestAsWritten | code/default/lib/noarch/simple_http_client.py:485-495 | a small request goes out whole; a large one loses all of its head after the bytes the single `send` accepted, at least one and at most the window, and then the whole body goes out |
| HttpClient.AsWrittenLosesHead | code/default/lib/noarch/simple_http_client.py:488 | a large request whose head that `send` did not take whole does not all reach the peer |
| HttpClient.AsWrittenExample | code/default/lib/noarch/simple_http_client.py:485-488 | a 1300-byte head through a socket that accepts at most 1024 bytes per `send` loses at least 276 bytes |
| HttpClient.SendRequest | code/default/lib/noarch/simple_http_client.py:485-495 | the corrected send: the head and then the body reach the peer in full |
| HttpClient.SendWaysAgree | code/default/lib/noarch/simple_http_client.py:485-488 | the written version sends everything exactly when the request is small or the single `send` took the whole head |
| HttpClient.TransferEncodingKey | code/default/lib/noarch/simple_http_client.py:509 | the key `request` tests is the one `begin` stores the Transfer-Encoding field under |
| HttpClient.ContentLengthKey | code/default/lib/noarch/simple_http_client.py:527 | `getheader(b'Content-Length')` looks up the key `begin` stores that field under |
| HttpClient.SizeFieldLookup | code/default/lib/noarch/simple_http_client.py:527 | the size is `int()` of `getheader(b'Content-Length', 0)`, 0 when absent |
| HttpClient.Payload | code/default/lib/noarch/simple_http_client.py:509-531 | the stream loop's outcome when Transfer-Encoding is there, else a Content-Length read; SizedPayload, ChunkedPayload and OtherCodingTimesOut state each case |
| HttpClient.SizedPayload | code/default/lib/noarch/simple_http_client.py:526-531 | a Content-Length of `len(body)` gives exactly the body, whatever follows it |
| HttpClient.ChunkedPayload | code/default/lib/noarch/simple_http_client.py:509-525 | a chunked body gives the chunks' data joined, whatever follows it |
| HttpClient.OtherCodingTimesOut | code/default/lib/noarch/simple_http_client.py:509-525 | a Transfer-Encoding other than chunked makes the read loop time out |
| HttpClient.SizedReply | code/default/lib/noarch/simple_http_client.py:498-531 | a 200 answer with a Content-Length reads as head plus exactly that body |
| HttpClient.ReplyHeadAgrees | code/default/lib/noarch/simple_http_client.py:506-507 | without `read_payload` the reply is the same head with no text |
| HttpClient.ReadStream | code/default/lib/noarch/simple_http_client.py:509-525 | the `read(8192)` loop over a chunked response yields the `ChunkedBody` data or its error |
| HttpClient.PlainTurn | code/default/lib/noarch/simple_http_client.py:512-521 | one `read(8192)` on a body that is not chunked times out, or returns exactly the next 8192 bytes and leaves the rest pending |
| HttpClient.ChunkTurn | code/default/lib/noarch/simple_http_client.py:512-521 | one `read(8192)` on a chunked body fails with the body's error, ends it with the data so far, or consumes a chunk with the rest still ahead |
| HttpClient.ReadPayload | code/default/lib/noarch/simple_http_client.py:509-531 | the payload read is `Payload` of the response's headers and pending bytes |
| HttpClient.Receive | code/default/lib/noarch/simple_http_client.py:497-531 | a fresh response on the socket; `ReplyTo` of what the peer sends decides the error or the fields and text |
| HttpClient.ReplyTo | code/default/lib/noarch/simple_http_client.py:497-531 | the reply to the peer's bytes: `ParseHead`'s error, or its head with the payload for a wanted 200 answer; SizedReply and ReplyHeadAgrees state it |
| HttpClient.Complete | code/default/lib/noarch/simple_http_client.py:502-531 | after `begin`, the status and `read_payload` checks, then the payload read, as `ReplyAfter` states |
| HttpClient.Exchange | code/default/lib/noarch/simple_http_client.py:473-531 | the head is built, sent as written (SentWithin), and the reply read back as `ReplyTo` of the peer's bytes |
| HttpClient.Client.constructor | code/default/lib/noarch/simple_http_client.py:348-354 | no connection, and host, port and TLS unset |
| HttpClient.Client.Connect | code/default/lib/noarch/simple_http_client.py:405-444 | a cached socket for the same host, port and TLS is reused with nothing changed; otherwise the opened one, `None` included, is cached under the new key; a raised connect changes nothing |
| HttpClient.Client.Request | code/default/lib/noarch/simple_http_client.py:446-531 | dict updated; unknown scheme refused; a failed connect changes nothing; otherwise the cache holds the socket used under this host, port and TLS choice; no socket gives None; on a socket, the send as written (SentWithin: a large request may lose its head's tail) and `ReplyTo` of the peer's bytes is the result; the client stays valid, so a second request to the same host, port and TLS choice reuses the cached socket |
| SmartRouter.ListenList | code/default/smart_router/local/__init__.py:132-136 | a str becomes a one-element list and a list is copied |
| SmartRouter.ProxyListen | code/default/smart_router/local/__init__.py:132-140 | the proxy server's list; LocalOnlyKeepsLists, RemoteProxyListen and RemoteReachable state it with and without `allow_remote` |
| SmartRouter.DnsListen | code/default/smart_router/local/__init__.py:147-153 | the DNS server's list; LocalOnlyKeepsLists, RemoteDnsListen and DnsWildcardTwice state it with and without `allow_remote` |
| SmartRouter.ProxyAddresses | code/default/smart_router/local/__init__.py:140 | one (ip, proxy port) pair per proxy address, in order |
| SmartRouter.DnsBinding | code/default/smart_router/local/__init__.py:147-157 | the DNS server gets the DNS address list, the DNS port and the backup port |
| SmartRouter.LocalOnlyKeepsLists | code/default/smart_router/local/__init__.py:130-153 | without `allow_remote` both servers bind exactly the configured addresses |
| SmartRouter.RemoteProxyListen | code/default/smart_router/local/__init__.py:138-139 | with `allow_remote` the proxy keeps its list exactly when it holds both `0.0.0.0` and `::`; otherwise it listens on `0.0.0.0` alone |
| SmartRouter.RemoteDnsListen | code/default/smart_router/local/__init__.py:152-153 | with `allow_remote` the DNS list keeps every configured address in place and gains `0.0.0.0` at the end exactly when it lacked one of the two wildcards |
| SmartRouter.RemoteReachable | code/default/smart_router/local/__init__.py:138-153 | with `allow_remote` both servers always listen on `0.0.0.0` |
| SmartRouter.DnsWildcardTwice | code/default/smart_router/local/__init__.py:152-153 | a list with `0.0.0.0` but not `::` gives the DNS server `0.0.0.0` twice |
| SmartRouter.DnsWildcardTwiceExample | code/default/smart_router/local/__init__.py:152-153 | `"0.0.0.0"` alone becomes `["0.0.0.0", "0.0.0.0"]` |
| SmartRouter.ProxyDropsV6Example | code/default/smart_router/local/__init__.py:138-153 | `"::"` alone: the proxy listens on `0.0.0.0` only, the DNS server on `::` and `0.0.0.0` |
| SmartRouter.DefaultListening | code/default/smart_router/local/__init__.py:64-69 | the defaults bind 127.0.0.1, proxy on 8086, DNS on 53 with 8053 as backup; with `allow_remote` the proxy moves to `0.0.0.0` and the DNS server adds it |

## Left out

- I/O and time:
  - Sockets, `select`, sleeping and clocks are abstracted by `Net.Socket`. A socket that has nothing more to deliver stands for the wait that ends in `socket.timeout`.
  - The `timeout` arguments, the 500-second status-line wait, `settimeout` and `setblocking` are not modelled.
  - Nor are the `errno` 2/11/10035 retries, or other socket errors re-raised.
- Responses.Response.ReadPlain: a negative read length is modelled as the error `NegativeLength`. The source instead slices with a negative index and moves its cursor backwards. The same applies to a chunk size below -2 in `Chunked.ChunkAt`, and to a negative Content-Length in `HttpClient.Payload`. Sizes -2 and -1 follow the source: they read nothing and one byte.
- Responses.Response.ReadPlain: `_read_plain(0)` returns the str `""` in the source. The model returns empty bytes.
- Responses.Response.ReadPlain: the reset of the buffer after a read that empties it exactly (lines 221-223) is not modelled. The branch is only taken when strictly more bytes are buffered than are read, so the reset can never happen there.
- Responses.Response.Begin: when `begin` raises part-way, the fields it already set (version, status, reason, an emptied header map) are not stated. Only the error is.
- `_read_size`: not modelled, because nothing calls it.
- `Response.read_headers` prints the swallowed exception before returning None. The print is left out, and so is the print for gzip, along with `chunk_list`.
- `http.client.IncompleteRead` in `request`'s read loop: nothing in this client raises it, so its handler is left out.
- HttpClient.Client.Connect: `direct_connect` (address resolution, socket options, trying each address), the SOCKS proxy path and `ssl.wrap_socket` are abstracted as the `Opened` parameter. Their exceptions become `ConnectFailed`. The proxy dictionary, `timeout` and `cert` fields of `Client.__init__` are not modelled.
- HttpClient.Client.Request:
  - `urllib.parse.urlsplit` is taken as given, in the `SplitUrl` parts.
  - `utils.to_bytes` is ASCII only, and a str body is taken as already being bytes, so its `len` counts bytes.
  - A hostname of None is not modelled.
  - Bytes that a previous response left in its own buffer on a reused connection are lost in the source too. The model reads only what the socket still holds.
- Net.Socket.Send: the count a real `send` returns cannot be predicted, so the contract promises only a prefix of at least one byte and at most the window. Errors from `send` are not modelled.
- HttpClient.SendAll: the 65535-byte bound on each slice offered to `send` is in the code but not stated in the ensures.
- The module-level `request` function and `Connection` (lines 12-18, 534-539) are left out: they only create a `Client` or wrap a socket.
- Headers.TextTitle: `str.title()` is modelled for ASCII letters only; other characters count as uncased. Python's Unicode title casing is not modelled. For str keys of ASCII characters only, such as every `str()` of a bytes object, the two agree.
- Numerals.ParseInt: Python 3.11 and later refuse decimal `int()` of a string longer than 4300 digits. This limit is not modelled: any length is read.
- Chunk extensions and trailer fields are not understood, as in the source: `int(line, 16)` refuses an extension.
- SmartRouter: the rest of `start` and `load_config` is left out. That covers the other configuration entries, the loading of the saved configuration over the defaults, module wiring, starting the servers, logging and `stop`. The address lists are computed as values. `list(...)` copies the configured list, so the DNS `append` does not change the configuration, and the model has no aliasing to show.

## Findings

| source | as written | input that shows it | evidently intended | confidence | as-written member | corrected member |
|---|---|---|---|---|---|---|
| code/default/lib/noarch/simple_http_client.py:485-488 | when head and body together are 1300 bytes or more, the head goes out by one `sock.send(request_data)` and its return value is ignored | a 1300-byte head on a socket whose `send` accepts at most 1024 bytes per call: at least 276 head bytes are never sent, and the body follows directly | send the whole head, as the loop below does for the body | not executed | HttpClient.SendRequestAsWritten | HttpClient.SendRequest |
