/**
  The chunked transfer coding as `Response._read_chunked` and `readall`
  read it (section 7.1 of RFC 9112): a size line read by `int(line, 16)`,
  that many bytes plus two more, of which the last two are dropped
  unchecked; a chunk that comes back empty ends the body. Chunk
  extensions and trailer fields are not understood: a size line with an
  extension is a ValueError from `int()`.
 */
module Chunked {
  import opened Wrappers
  import opened Bytes
  import opened Numerals

  /**
    One `_read_chunked` call on the bytes still to come: the data it
    returns and how many bytes it consumes, or the error it raises.
    `int(line, 16)` may read a negative size; size -2 asks `_read_plain`
    for nothing, size -1 for one byte, and anything smaller is refused
    here (see README).
   */
  function ChunkAt(p: bytes): (r: Result<(bytes, nat)>)
    ensures r.Ok? ==> 2 <= r.value.1 <= |p|
  {
    var n := FindFrom(p, CRLF, 0);
    if n == -1 then Err(Timeout)
    else
      match ParseInt(p[..n], 16)
      case None => Err(BadInteger)
      case Some(size) =>
        var k := size + 2;
        if k < 0 then Err(NegativeLength)
        else if k == 0 then Ok(([], n + 2))
        else if |p| - (n + 2) < k then Err(Timeout)
        else Ok((Slice(p[n + 2..n + 2 + k], 0, -2), n + 2 + k))
  }

  /**
    What `readall` returns for a chunked body: the chunks up to the first
    empty one, joined, and how many bytes were used.
   */
  function ChunkedBody(p: bytes): (r: Result<(bytes, nat)>)
    ensures r.Ok? ==> r.value.1 <= |p|
    decreases |p|, 1
  {
    ChunkedFrom(p, ChunkAt(p))
  }

  /** The rest of `readall`'s loop once the first chunk `c` of `p` is read. */
  function ChunkedFrom(p: bytes, c: Result<(bytes, nat)>): (r: Result<(bytes, nat)>)
    requires c.Ok? ==> 2 <= c.value.1 <= |p|
    ensures r.Ok? ==> r.value.1 <= |p|
    decreases |p|, 0
  {
    if c.Err? then Err(c.error)
    else if |c.value.0| == 0 then Ok(([], c.value.1))
    else
      var more := ChunkedBody(p[c.value.1..]);
      if more.Err? then Err(more.error) else Ok((c.value.0 + more.value.0, c.value.1 + more.value.1))
  }

  /** A line a server may send before `size` bytes of data: one line that `int(line, 16)` reads as `size`. */
  predicate SizeLine(line: bytes, size: nat) {
    CR !in line && ParseInt(line, 16) == Some(size)
  }

  /** One chunk as a server writes it: its size line, then its data. */
  datatype Chunk = Chunk(sizeLine: bytes, data: bytes)

  predicate WellFormedChunk(c: Chunk) {
    |c.data| > 0 && SizeLine(c.sizeLine, |c.data|)
  }

  function EncodeChunk(c: Chunk): bytes {
    c.sizeLine + CRLF + c.data + CRLF
  }

  /** The last chunk, `0` CRLF, and the CRLF that ends an empty trailer section. */
  const LAST_CHUNK: bytes := [48, CR, LF, CR, LF]

  /** A body in the chunked coding, with no extensions and no trailer fields. */
  function EncodeChunked(chunks: seq<Chunk>): bytes {
    if |chunks| == 0 then LAST_CHUNK else EncodeChunk(chunks[0]) + EncodeChunked(chunks[1..])
  }

  function ChunkData(chunks: seq<Chunk>): bytes {
    if |chunks| == 0 then [] else chunks[0].data + ChunkData(chunks[1..])
  }

  /** The size in lower-case hexadecimal, as most servers write it, is a size line. */
  lemma {:induction false} HexSizeLine(n: nat)
    ensures SizeLine(Hex(n), n)
  {
    NatDigitsValue(n, 16);
    HexRoundTrip(n);
  }

  /** A line without CR ends at the CRLF written after it. */
  lemma {:induction false} FindFirstCrlf(line: bytes, rest: bytes)
    requires CR !in line
    ensures FindFrom(line + CRLF + rest, CRLF, 0) == |line|
  {
    var s := line + CRLF + rest;
    assert s[|line|..|line| + 2] == CRLF;
    forall i | 0 <= i < |line|
      ensures !MatchAt(s, CRLF, i)
    {
      NoMatchAtOther(s, CRLF, i);
    }
    FindIs(s, CRLF, 0, |line|);
  }

  /**
    A size line for `size`, its CRLF, then at least `size` + 2 bytes: the
    chunk is the first `size` of them, and the two after are skipped
    whatever they are.
   */
  lemma ChunkAtLine(p: bytes, line: bytes, tail: bytes, size: nat)
    requires SizeLine(line, size)
    requires size + 2 <= |tail|
    requires p == line + CRLF + tail
    ensures ChunkAt(p).Ok?
    ensures ChunkAt(p).value.0 == tail[..size] && ChunkAt(p).value.1 == |line| + 2 + size + 2
  {
    FindFirstCrlf(line, tail);
    assert p[..|line|] == line;
    assert p[|line| + 2..|line| + 2 + size + 2] == tail[..size + 2];
    SliceDropLastTwo(tail[..size + 2]);
    assert tail[..size + 2][..size] == tail[..size];
  }

  /** Too few bytes after the size line for the chunk and its CRLF: `_read_plain` times out. */
  lemma ChunkAtShort(line: bytes, tail: bytes, size: nat)
    requires SizeLine(line, size)
    requires |tail| < size + 2
    ensures ChunkAt(line + CRLF + tail) == Err(Timeout)
  {
    FindFirstCrlf(line, tail);
    assert (line + CRLF + tail)[..|line|] == line;
  }

  /** How an encoded chunk and what follows it split into size line, CRLF and the rest. */
  lemma EncodeChunkLayout(c: Chunk, rest: bytes)
    ensures EncodeChunk(c) + rest == c.sizeLine + CRLF + (c.data + CRLF + rest)
    ensures (c.data + CRLF + rest)[..|c.data|] == c.data
    ensures (EncodeChunk(c) + rest)[|EncodeChunk(c)|..] == rest
  {
  }

  lemma EncodeChunkedCons(chunks: seq<Chunk>, rest: bytes)
    requires |chunks| > 0
    ensures EncodeChunked(chunks) + rest == EncodeChunk(chunks[0]) + (EncodeChunked(chunks[1..]) + rest)
  {
  }

  /** A chunk written by EncodeChunk is read back whole, whatever follows it. */
  lemma {:induction false} ChunkRoundTrip(c: Chunk, rest: bytes)
    requires WellFormedChunk(c)
    ensures ChunkAt(EncodeChunk(c) + rest).Ok?
    ensures ChunkAt(EncodeChunk(c) + rest).value.0 == c.data
    ensures ChunkAt(EncodeChunk(c) + rest).value.1 == |EncodeChunk(c)|
  {
    EncodeChunkLayout(c, rest);
    ChunkAtLine(EncodeChunk(c) + rest, c.sizeLine, c.data + CRLF + rest, |c.data|);
  }

  /** The last chunk reads as empty data and uses all five of its bytes. */
  lemma LastChunkRead(rest: bytes)
    ensures ChunkAt(LAST_CHUNK + rest) == Ok(([], 5))
  {
    var p := LAST_CHUNK + rest;
    FindFirstCrlf([48], [CR, LF] + rest);
    assert p == [48] + CRLF + ([CR, LF] + rest);
    assert p[..1] == [48];
    HexRoundTrip(0);
  }

  /**
    What EncodeChunked writes, ChunkedBody reads back: the chunks' data
    joined, every byte of the encoding used and none of what follows.
   */
  lemma {:induction false} ChunkedRoundTrip(chunks: seq<Chunk>, rest: bytes)
    requires forall i :: 0 <= i < |chunks| ==> WellFormedChunk(chunks[i])
    ensures ChunkedBody(EncodeChunked(chunks) + rest).Ok?
    ensures ChunkedBody(EncodeChunked(chunks) + rest).value.0 == ChunkData(chunks)
    ensures ChunkedBody(EncodeChunked(chunks) + rest).value.1 == |EncodeChunked(chunks)|
    decreases |chunks|
  {
    if |chunks| == 0 {
      LastChunkRead(rest);
    } else {
      var tail := EncodeChunked(chunks[1..]) + rest;
      EncodeChunkedCons(chunks, rest);
      assert WellFormedChunk(chunks[0]);
      ChunkedRoundTrip(chunks[1..], rest);
      ChunkedCons(EncodeChunked(chunks) + rest, chunks[0], tail);
    }
  }

  /** A well-formed chunk in front of a chunked body adds its data to what the body reads. */
  lemma ChunkedCons(p: bytes, c: Chunk, tail: bytes)
    requires WellFormedChunk(c) && p == EncodeChunk(c) + tail
    requires ChunkedBody(tail).Ok?
    ensures ChunkedBody(p).Ok?
    ensures ChunkedBody(p).value.0 == c.data + ChunkedBody(tail).value.0
    ensures ChunkedBody(p).value.1 == |EncodeChunk(c)| + ChunkedBody(tail).value.1
  {
    ChunkRoundTrip(c, tail);
    EncodeChunkLayout(c, tail);
  }

  /** A size line that `int(line, 16)` rejects stops the body with a ValueError. */
  lemma BadSizeLine(line: bytes, rest: bytes)
    requires CR !in line && ParseInt(line, 16) == None
    ensures ChunkedBody(line + CRLF + rest) == Err(BadInteger)
  {
    FindFirstCrlf(line, rest);
    assert (line + CRLF + rest)[..|line|] == line;
  }
}
