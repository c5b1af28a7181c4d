/**
  The HTTP/1.1 response head as the client reads it (RFC 9112 sections 4
  and 5): a status line, CRLF, field lines separated by CRLF, an empty
  line, then the body. These functions are the specifications the
  buffer-and-cursor readers in TxtResponses and Responses are proved
  against.
 */
module HttpMessage {
  import opened Wrappers
  import opened Bytes
  import opened Numerals
  import opened Headers

  // ---------------------------------------------------------------------
  // Status line
  // ---------------------------------------------------------------------

  datatype StatusLine = StatusLine(version: bytes, status: int, info: bytes)

  /**
    The status line split on whitespace: the first word is the version, the
    second the decimal status, the rest joined by single spaces the reason.
   */
  function ParseStatusLine(line: bytes): (r: Result<StatusLine>)
    ensures r.Err? ==> r.error == BadStatusLine || r.error == BadInteger
    ensures r.Ok? ==> IsWord(r.value.version)
  {
    var words := SplitWords(line);
    if |words| < 2 then Err(BadStatusLine)
    else
      // `int(words[1])`; a word has no whitespace to strip (ParseIntOfWord)
      match ParseTrimmed(words[1], 10)
      case None => Err(BadInteger)
      case Some(n) => Ok(StatusLine(words[0], n, JoinWith(words[2..], [SP])))
  }

  /** `%d` never prints whitespace, so a status code is one word. */
  lemma DecimalIsWord(n: int)
    ensures IsWord(Decimal(n))
  {
    var m := if n < 0 then -n else n;
    var d := NatDigits(m, 10);
    NatDigitsValue(m, 10);
    forall i | 0 <= i < |d|
      ensures d[i] !in WHITESPACE
    {
      assert IsDigit(d[i], 10);
    }
    if n < 0 {
      var s := [MINUS] + d;
      forall i | 0 <= i < |s|
        ensures s[i] !in WHITESPACE
      {
        if i > 0 {
          assert s[i] == d[i - 1];
        }
      }
    }
  }

  /** The bytes of a status line: version, decimal status and the reason words, separated by single spaces. */
  function FormatStatusLine(version: bytes, status: int, reason: seq<bytes>): bytes {
    JoinWith([version, Decimal(status)] + reason, [SP])
  }

  lemma StatusLineWords(version: bytes, status: bytes, reason: seq<bytes>)
    requires IsWord(version) && IsWord(status)
    requires forall k :: 0 <= k < |reason| ==> IsWord(reason[k])
    ensures SplitWords(JoinWith([version, status] + reason, [SP])) == [version, status] + reason
  {
    var words := [version, status] + reason;
    forall k | 0 <= k < |words|
      ensures IsWord(words[k])
    {
      if k == 0 {
        assert words[k] == version;
      } else if k == 1 {
        assert words[k] == status;
      } else {
        assert words[k] == reason[k - 2];
      }
    }
    SplitJoinWords(words);
  }

  lemma ParseStatusWords(line: bytes, version: bytes, status: bytes, reason: seq<bytes>, n: int)
    requires SplitWords(line) == [version, status] + reason
    requires ParseTrimmed(status, 10) == Some(n)
    ensures ParseStatusLine(line) == Ok(StatusLine(version, n, JoinWith(reason, [SP])))
  {
    assert ([version, status] + reason)[2..] == reason;
  }

  /** A well-formed status line is read back word for word; a reason of several words keeps single spaces. */
  lemma StatusLineRoundTrip(version: bytes, status: int, reason: seq<bytes>)
    requires IsWord(version)
    requires forall k :: 0 <= k < |reason| ==> IsWord(reason[k])
    ensures ParseStatusLine(FormatStatusLine(version, status, reason))
         == Ok(StatusLine(version, status, JoinWith(reason, [SP])))
  {
    DecimalIsWord(status);
    DecimalRoundTrip(status);
    ParseIntOfWord(Decimal(status), 10);
    StatusLineWords(version, Decimal(status), reason);
    ParseStatusWords(FormatStatusLine(version, status, reason), version, Decimal(status), reason, status);
  }

  /** A line with no whitespace inside (one word, or nothing) has fewer than two words and is refused. */
  lemma StatusLineTooShort(line: bytes)
    requires forall i :: 0 <= i < |line| ==> line[i] !in WHITESPACE
    ensures ParseStatusLine(line) == Err(BadStatusLine)
  {
    if |line| > 0 {
      SplitJoinWords([line]);
    }
  }

  /** `HTTP/1.1 abc OK`: a status that is not a decimal integer is an error. */
  lemma StatusNotANumber(version: bytes, status: bytes, reason: seq<bytes>)
    requires IsWord(version) && IsWord(status)
    requires forall k :: 0 <= k < |reason| ==> IsWord(reason[k])
    requires ParseInt(status, 10).None?
    ensures ParseStatusLine(JoinWith([version, status] + reason, [SP])) == Err(BadInteger)
  {
    StatusLineWords(version, status, reason);
    ParseIntOfWord(status, 10);
    SecondWordNotANumber(JoinWith([version, status] + reason, [SP]), status);
  }

  lemma SecondWordNotANumber(line: bytes, status: bytes)
    requires |SplitWords(line)| >= 2 && SplitWords(line)[1] == status
    requires ParseTrimmed(status, 10).None?
    ensures ParseStatusLine(line) == Err(BadInteger)
  {
  }

  /** Trailing CR and LF do not change how the status line splits, so Response.begin's `rstrip` has no effect. */
  lemma StatusLineIgnoresTrailingNewline(line: bytes)
    ensures ParseStatusLine(TrimEnd(line, {CR, LF})) == ParseStatusLine(line)
  {
    SplitWordsTrimEnd(line, {CR, LF});
  }

  // ---------------------------------------------------------------------
  // Field lines
  // ---------------------------------------------------------------------

  /**
    A field line split at its first colon: the name is everything before
    it and the value starts two bytes after it. With no colon `find` gives
    -1, so the name is the line without its last byte and the value the
    line without its first.
   */
  function ParseFieldLine(line: bytes): (bytes, bytes) {
    var p := FindFrom(line, [COLON], 0);
    (Slice(line, 0, p), Slice(line, p + 2, |line|))
  }

  /** `name: value`, as a field line is written. */
  function FieldLine(f: (bytes, bytes)): bytes {
    f.0 + [COLON, SP] + f.1
  }

  predicate WellFormedField(f: (bytes, bytes)) {
    COLON !in f.0 && CR !in f.0 && CR !in f.1
  }

  /** A name without a colon, a colon, one space and a value is read back as that name and value. */
  lemma FieldLineRoundTrip(f: (bytes, bytes))
    requires COLON !in f.0
    ensures ParseFieldLine(FieldLine(f)) == f
  {
    var line := FieldLine(f);
    var n := |f.0|;
    assert line[n..n + 1] == [COLON];
    forall i | 0 <= i < n
      ensures !MatchAt(line, [COLON], i)
    {
      assert line[i] == f.0[i];
      NoMatchAtOther(line, [COLON], i);
    }
    FindIs(line, [COLON], 0, n);
    SliceInRange(line, 0, n);
    SliceInRange(line, n + 2, |line|);
    assert line[..n] == f.0;
    assert line[n + 2..|line|] == f.1;
  }

  /** No colon at all: the name loses the line's last byte and the value its first. */
  lemma FieldLineNoColon(line: bytes)
    requires COLON !in line
    ensures |line| > 0 ==> ParseFieldLine(line) == (line[..|line| - 1], line[1..])
    ensures line == [] ==> ParseFieldLine(line) == ([], [])
  {
    forall i | 0 <= i
      ensures !MatchAt(line, [COLON], i)
    {
      if i + 1 <= |line| {
        assert line[i] in line;
        assert line[i..i + 1] == [line[i]];
      }
    }
    FindNone(line, [COLON], 0);
    if |line| > 0 {
      assert Slice(line, 0, -1) == line[..|line| - 1];
      assert Slice(line, 1, |line|) == line[1..];
    }
  }

  /** `Name:value`, with no space after the colon, loses the value's first byte. */
  lemma FieldLineNoSpace(name: bytes, value: bytes)
    requires COLON !in name && |value| > 0
    ensures ParseFieldLine(name + [COLON] + value) == (name, value[1..])
  {
    var line := name + [COLON] + value;
    var n := |name|;
    assert line[n..n + 1] == [COLON];
    forall i | 0 <= i < n
      ensures !MatchAt(line, [COLON], i)
    {
      assert line[i] == name[i];
      NoMatchAtOther(line, [COLON], i);
    }
    FindIs(line, [COLON], 0, n);
    SliceInRange(line, 0, n);
    SliceInRange(line, n + 2, |line|);
    assert line[..n] == name;
    assert line[n + 2..|line|] == value[1..];
  }

  /** Every line of a header block, split into name and value. */
  function FieldPairs(lines: seq<bytes>): (pairs: seq<(bytes, bytes)>)
    ensures |pairs| == |lines|
  {
    seq(|lines|, i requires 0 <= i < |lines| => ParseFieldLine(lines[i]))
  }

  /** The pairs of a header block split on CRLF. */
  function BlockFields(block: bytes): seq<(bytes, bytes)> {
    FieldPairs(SplitOn(block, CRLF))
  }

  function FieldLines(fields: seq<(bytes, bytes)>): (lines: seq<bytes>)
    ensures |lines| == |fields|
  {
    seq(|fields|, i requires 0 <= i < |fields| => FieldLine(fields[i]))
  }

  /** The header block holding `fields`, one line each, separated by CRLF. */
  function FormatBlock(fields: seq<(bytes, bytes)>): bytes {
    JoinWith(FieldLines(fields), CRLF)
  }

  predicate WellFormedFields(fields: seq<(bytes, bytes)>) {
    forall k :: 0 <= k < |fields| ==> WellFormedField(fields[k])
  }

  lemma FieldLineAvoidsCr(f: (bytes, bytes))
    requires WellFormedField(f)
    ensures CR !in FieldLine(f) && |FieldLine(f)| >= 2
  {
    var line := FieldLine(f);
    forall i | 0 <= i < |line|
      ensures line[i] != CR
    {
      if i < |f.0| {
        assert line[i] == f.0[i];
      } else if i >= |f.0| + 2 {
        assert line[i] == f.1[i - |f.0| - 2];
      }
    }
  }

  /** A block of well-formed field lines splits back into exactly those name/value pairs. */
  lemma HeaderBlockRoundTrip(fields: seq<(bytes, bytes)>)
    requires |fields| >= 1 && WellFormedFields(fields)
    ensures BlockFields(FormatBlock(fields)) == fields
  {
    var lines := FieldLines(fields);
    forall k | 0 <= k < |lines|
      ensures CR !in lines[k]
    {
      FieldLineAvoidsCr(fields[k]);
    }
    SplitJoin(lines, CRLF);
    forall k | 0 <= k < |fields|
      ensures ParseFieldLine(lines[k]) == fields[k]
    {
      FieldLineRoundTrip(fields[k]);
    }
  }

  /** An empty block still splits into one empty line, which yields the pair (b"", b""). */
  lemma EmptyBlockFields()
    ensures BlockFields([]) == [([], [])]
  {
    FindNone([], CRLF, 0);
    FindNone([], [COLON], 0);
  }

  // ---------------------------------------------------------------------
  // The whole head
  // ---------------------------------------------------------------------

  /** A parsed head: the status line, the field pairs in order, and where the body starts. */
  datatype Head = Head(line: StatusLine, fields: seq<(bytes, bytes)>, bodyStart: nat)

  /**
    Reading a head from the cursor `start` of `buf`: the status line up to
    the first CRLF at or after the cursor, then the header block up to the
    first CRLF CRLF after that, then the body, which starts at `bodyStart`.
    The status line is checked before the block is looked for.
   */
  function ParseHead(buf: bytes, start: nat): (r: Result<Head>)
    requires start <= |buf|
    ensures r.Ok? ==> start + 6 <= r.value.bodyStart <= |buf|
    ensures r.Ok? ==> buf[r.value.bodyStart - 4..r.value.bodyStart] == CRLFCRLF
  {
    var n1 := FindFrom(buf, CRLF, start);
    if n1 == -1 then Err(ReadLineFail)
    else
      match ParseStatusLine(buf[start..n1])
      case Err(e) => Err(e)
      case Ok(line) =>
        var n2 := FindFrom(buf, CRLFCRLF, n1 + 2);
        if n2 == -1 then Err(ReadHeadersFail)
        else Ok(Head(line, BlockFields(buf[n1 + 2..n2]), n2 + 4))
  }

  /** A response as a server writes it. */
  function FormatResponse(statusLine: bytes, fields: seq<(bytes, bytes)>, body: bytes): bytes {
    statusLine + CRLF + (FormatBlock(fields) + CRLFCRLF + body)
  }

  /** The first `pat` at or after `start`, when `pat` starts with CR and no CR comes before `r`. */
  lemma FindFirstCr(s: bytes, pat: bytes, start: nat, r: nat)
    requires |pat| > 0 && pat[0] == CR && start <= r && MatchAt(s, pat, r)
    requires forall i :: start <= i < r ==> s[i] != CR
    ensures FindFrom(s, pat, start) == r
  {
    forall i | start <= i < r
      ensures !MatchAt(s, pat, i)
    {
      NoMatchAtOther(s, pat, i);
    }
    FindIs(s, pat, start, r);
  }

  predicate CrFreeLines(lines: seq<bytes>) {
    forall k :: 0 <= k < |lines| ==> |lines[k]| > 0 && CR !in lines[k]
  }

  /** Every CR of `s` starts a CRLF that a byte other than CR follows. */
  predicate CrFollowed(s: bytes) {
    forall j {:trigger s[j]} :: 0 <= j < |s| ==> s[j] != CR || (j + 2 < |s| && s[j + 1] == LF && s[j + 2] != CR)
  }

  /** In CR-free, non-empty lines joined by CRLF, each CR starts a CRLF followed by a byte other than CR. */
  lemma {:induction false} JoinCrFollowed(lines: seq<bytes>)
    requires |lines| >= 1 && CrFreeLines(lines)
    ensures CrFollowed(JoinWith(lines, CRLF))
    decreases |lines|
  {
    var s := JoinWith(lines, CRLF);
    if |lines| > 1 {
      var l0 := lines[0];
      var rest := JoinWith(lines[1..], CRLF);
      JoinCons(l0, lines[1..], CRLF);
      assert lines == [l0] + lines[1..];
      assert s == l0 + CRLF + rest;
      JoinCrFollowed(lines[1..]);
      if |lines[1..]| > 1 {
        assert rest == lines[1] + CRLF + JoinWith(lines[2..], CRLF);
      } else {
        assert rest == lines[1];
      }
      assert |rest| > 0 && rest[0] == lines[1][0];
      forall j | 0 <= j < |s|
        ensures s[j] != CR || (j + 2 < |s| && s[j + 1] == LF && s[j + 2] != CR)
      {
        if j < |l0| {
          assert s[j] == l0[j];
        } else if j == |l0| {
          assert s[j + 1] == LF;
          assert s[j + 2] == rest[0];
        } else if j == |l0| + 1 {
          assert s[j] == LF;
        } else {
          var k := j - |l0| - 2;
          assert CrFollowed(rest);
          assert s[j] == rest[k];
          assert rest[k] != CR || (k + 2 < |rest| && rest[k + 1] == LF && rest[k + 2] != CR);
          if k + 2 < |rest| {
            assert s[j + 1] == rest[k + 1];
            assert s[j + 2] == rest[k + 2];
          }
        }
      }
    }
  }

  lemma NoEndAt(block: bytes, body: bytes, j: nat)
    requires j < |block| && CrFollowed(block)
    ensures !MatchAt(block + CRLFCRLF + body, CRLFCRLF, j)
  {
    var s := block + CRLFCRLF + body;
    assert s[j] == block[j];
    assert block[j] != CR || (j + 2 < |block| && block[j + 2] != CR);
    if block[j] != CR {
      NoMatchAtOther(s, CRLFCRLF, j);
    } else if j + 4 <= |s| {
      assert s[j + 2] == block[j + 2];
      assert s[j..j + 4][2] == s[j + 2];
    }
  }

  /** No CRLF CRLF starts inside a block of well-formed lines, even one reaching into the terminator. */
  lemma BlockHasNoEnd(block: bytes, body: bytes, lines: seq<bytes>)
    requires |lines| >= 1 && CrFreeLines(lines) && block == JoinWith(lines, CRLF)
    ensures forall j :: 0 <= j < |block| ==> !MatchAt(block + CRLFCRLF + body, CRLFCRLF, j)
  {
    JoinCrFollowed(lines);
    forall j | 0 <= j < |block|
      ensures !MatchAt(block + CRLFCRLF + body, CRLFCRLF, j)
    {
      NoEndAt(block, body, j);
    }
  }

  /** The block of a formatted response ends at the first CRLF CRLF of what follows the status line. */
  lemma BlockEnd(fields: seq<(bytes, bytes)>, body: bytes)
    requires |fields| >= 1 && WellFormedFields(fields)
    ensures FindFrom(FormatBlock(fields) + CRLFCRLF + body, CRLFCRLF, 0) == |FormatBlock(fields)|
  {
    var block := FormatBlock(fields);
    var lines := FieldLines(fields);
    forall k | 0 <= k < |lines|
      ensures |lines[k]| > 0 && CR !in lines[k]
    {
      FieldLineAvoidsCr(fields[k]);
    }
    var tail := block + CRLFCRLF + body;
    BlockHasNoEnd(block, body, lines);
    assert tail[|block|..|block| + 4] == CRLFCRLF;
    FindIs(tail, CRLFCRLF, 0, |block|);
  }

  lemma StatusLineEnd(statusLine: bytes, tail: bytes)
    requires CR !in statusLine
    ensures FindFrom(statusLine + CRLF + tail, CRLF, 0) == |statusLine|
  {
    var msg := statusLine + CRLF + tail;
    assert msg[|statusLine|..|statusLine| + 2] == CRLF;
    FindFirstCr(msg, CRLF, 0, |statusLine|);
  }

  lemma HeadParts(statusLine: bytes, block: bytes, body: bytes)
    ensures (statusLine + CRLF + (block + CRLFCRLF + body))[..|statusLine|] == statusLine
    ensures (statusLine + CRLF + (block + CRLFCRLF + body))[|statusLine| + 2..|statusLine| + 2 + |block|] == block
    ensures (statusLine + CRLF + (block + CRLFCRLF + body))[|statusLine| + 2 + |block| + 4..] == body
  {
    var msg := statusLine + CRLF + (block + CRLFCRLF + body);
    var tail := block + CRLFCRLF + body;
    assert msg[|statusLine| + 2..] == tail;
    assert tail[..|block|] == block;
    assert tail[|block| + 4..] == body;
  }

  /** Where the status line and a block that ends at its first CRLF CRLF sit in a message. */
  lemma HeadLayout(statusLine: bytes, block: bytes, body: bytes)
    requires CR !in statusLine
    requires FindFrom(block + CRLFCRLF + body, CRLFCRLF, 0) == |block|
    ensures FindFrom(statusLine + CRLF + (block + CRLFCRLF + body), CRLF, 0) == |statusLine|
    ensures FindFrom(statusLine + CRLF + (block + CRLFCRLF + body), CRLFCRLF, |statusLine| + 2) == |statusLine| + 2 + |block|
    ensures (statusLine + CRLF + (block + CRLFCRLF + body))[..|statusLine|] == statusLine
    ensures (statusLine + CRLF + (block + CRLFCRLF + body))[|statusLine| + 2..|statusLine| + 2 + |block|] == block
    ensures (statusLine + CRLF + (block + CRLFCRLF + body))[|statusLine| + 2 + |block| + 4..] == body
  {
    StatusLineEnd(statusLine, block + CRLFCRLF + body);
    FindShift(statusLine + CRLF, block + CRLFCRLF + body, CRLFCRLF);
    HeadParts(statusLine, block, body);
  }

  /** ParseHead once both delimiters are located and the status line is read. */
  lemma ParseHeadAt(buf: bytes, start: nat, n1: nat, n2: nat, line: StatusLine)
    requires start <= n1 && FindFrom(buf, CRLF, start) == n1
    requires ParseStatusLine(buf[start..n1]) == Ok(line)
    requires FindFrom(buf, CRLFCRLF, n1 + 2) == n2
    ensures ParseHead(buf, start) == Ok(Head(line, BlockFields(buf[n1 + 2..n2]), n2 + 4))
  {
  }

  /** ParseHead fails when no CRLF follows the cursor. */
  lemma ParseHeadNoLine(buf: bytes, start: nat)
    requires start <= |buf| && FindFrom(buf, CRLF, start) == -1
    ensures ParseHead(buf, start) == Err(ReadLineFail)
  {
  }

  /** ParseHead fails when no CRLF CRLF follows a readable status line. */
  lemma ParseHeadNoBlock(buf: bytes, start: nat, n1: nat, line: StatusLine)
    requires start <= n1 && FindFrom(buf, CRLF, start) == n1
    requires ParseStatusLine(buf[start..n1]) == Ok(line)
    requires FindFrom(buf, CRLFCRLF, n1 + 2) == -1
    ensures ParseHead(buf, start) == Err(ReadHeadersFail)
  {
  }

  /** ParseHead stops at a status line it cannot read. */
  lemma ParseHeadAtBadLine(buf: bytes, start: nat, n1: nat)
    requires start <= n1 && FindFrom(buf, CRLF, start) == n1
    requires ParseStatusLine(buf[start..n1]).Err?
    ensures ParseHead(buf, start) == Err(ParseStatusLine(buf[start..n1]).error)
  {
  }

  /**
    Where a formatted response's parts are found: the status line ends at
    the first CRLF, the block and the body follow it. With FormattedBlockEnd,
    HeaderBlockRoundTrip and ParseHeadAt (or ParseHeadAtBadLine) this is
    ParseHead's round trip.
   */
  lemma FormattedHeadLayout(statusLine: bytes, fields: seq<(bytes, bytes)>, body: bytes)
    requires CR !in statusLine
    requires |fields| >= 1 && WellFormedFields(fields)
    ensures FindFrom(FormatResponse(statusLine, fields, body), CRLF, 0) == |statusLine|
    ensures FormatResponse(statusLine, fields, body)[..|statusLine|] == statusLine
    ensures FormatResponse(statusLine, fields, body)[|statusLine| + 2..|statusLine| + 2 + |FormatBlock(fields)|] == FormatBlock(fields)
    ensures FormatResponse(statusLine, fields, body)[|statusLine| + 2 + |FormatBlock(fields)| + 4..] == body
  {
    BlockEnd(fields, body);
    HeadLayout(statusLine, FormatBlock(fields), body);
  }

  /** In a formatted response, the first CRLF CRLF after the status line ends the header block. */
  lemma FormattedBlockEnd(statusLine: bytes, fields: seq<(bytes, bytes)>, body: bytes)
    requires CR !in statusLine
    requires |fields| >= 1 && WellFormedFields(fields)
    ensures FindFrom(FormatResponse(statusLine, fields, body), CRLFCRLF, |statusLine| + 2)
      == |statusLine| + 2 + |FormatBlock(fields)|
  {
    BlockEnd(fields, body);
    HeadLayout(statusLine, FormatBlock(fields), body);
  }

  /** A formatted status line carries no CR, so the layout above applies to it. */
  lemma StatusLineAvoidsCr(version: bytes, status: int, reason: seq<bytes>)
    requires IsWord(version)
    requires forall k :: 0 <= k < |reason| ==> IsWord(reason[k])
    ensures CR !in FormatStatusLine(version, status, reason)
  {
    DecimalIsWord(status);
    JoinAvoids([version, Decimal(status)] + reason, [SP], CR);
  }

  /**
    A status line followed directly by the empty line cannot be parsed:
    after the status line's CRLF only CRLF and the body remain, and a body
    without CR holds no CRLF CRLF.
   */
  lemma EmptyHeaderBlockFails(statusLine: bytes, body: bytes)
    requires CR !in statusLine && CR !in body
    requires ParseStatusLine(statusLine).Ok?
    ensures ParseHead(statusLine + CRLFCRLF + body, 0) == Err(ReadHeadersFail)
  {
    var msg := statusLine + CRLFCRLF + body;
    var n := |statusLine|;
    assert msg[n..n + 2] == CRLF;
    FindFirstCr(msg, CRLF, 0, n);
    assert msg[..n] == statusLine;
    forall i | n + 2 <= i
      ensures !MatchAt(msg, CRLFCRLF, i)
    {
      if i < |msg| && i != n + 2 {
        if i == n + 3 {
          assert msg[i] == LF;
        } else {
          assert msg[i] == body[i - n - 4];
        }
        NoMatchAtOther(msg, CRLFCRLF, i);
      } else if i + 4 <= |msg| {
        assert msg[i..i + 4][2] == body[0];
      }
    }
    FindNone(msg, CRLFCRLF, n + 2);
  }

  // ---------------------------------------------------------------------
  // Response's keys
  // ---------------------------------------------------------------------

  /** The dictionary Response.begin builds: each name title-cased and kept as bytes, later pairs winning. */
  function FieldMap(pairs: seq<(bytes, bytes)>): HeaderMap {
    if |pairs| == 0 then map[]
    else
      var last := pairs[|pairs| - 1];
      FieldMap(pairs[..|pairs| - 1])[BytesKey(Title(last.0)) := last.1]
  }

  /** Reference lookup: the value of the last field whose name has the same title form as `name`. */
  function LastField(pairs: seq<(bytes, bytes)>, name: bytes): Option<bytes> {
    if |pairs| == 0 then None
    else if Title(pairs[|pairs| - 1].0) == Title(name) then Some(pairs[|pairs| - 1].1)
    else LastField(pairs[..|pairs| - 1], name)
  }

  /** `getheader(name)` on the built dictionary finds the last field of that name, in any case. */
  lemma {:induction false} FieldMapLookup(pairs: seq<(bytes, bytes)>, name: bytes)
    ensures FindHeader(FieldMap(pairs), BytesKey(name)) == LastField(pairs, name)
    decreases |pairs|
  {
    if |pairs| > 0 {
      FieldMapLookup(pairs[..|pairs| - 1], name);
    }
  }

  // ---------------------------------------------------------------------
  // TxtResponse's keys
  // ---------------------------------------------------------------------

  /** The dictionary TxtResponse.parse builds: each name title-cased, then stored under its `str()`, later pairs winning. */
  function ReprMap(pairs: seq<(bytes, bytes)>): HeaderMap {
    if |pairs| == 0 then map[]
    else
      var last := pairs[|pairs| - 1];
      ReprMap(pairs[..|pairs| - 1])[TextKey(BytesRepr(Title(last.0))) := last.1]
  }

  /** One more pair stores one more key: the last pair's name, title-cased, under its `str()`. */
  lemma ReprMapStep(pairs: seq<(bytes, bytes)>, i: nat)
    requires i < |pairs|
    ensures ReprMap(pairs[..i + 1]) == ReprMap(pairs[..i])[TextKey(BytesRepr(Title(pairs[i].0))) := pairs[i].1]
  {
    assert pairs[..i + 1][..i] == pairs[..i];
  }

  /** Every key it stores is a str starting with `b`. */
  lemma {:induction false} ReprMapKeys(pairs: seq<(bytes, bytes)>)
    ensures forall k :: k in ReprMap(pairs) ==> k.TextKey? && |k.t| > 0 && k.t[0] == 'b'
    decreases |pairs|
  {
    if |pairs| > 0 {
      ReprMapKeys(pairs[..|pairs| - 1]);
    }
  }

  /** So `getheader` on a TxtResponse never finds a parsed field, whatever key it is given. */
  lemma ReprMapLookupMisses(pairs: seq<(bytes, bytes)>, key: HeaderKey, default: bytes)
    ensures GetHeader(ReprMap(pairs), key, default) == default
  {
    ReprMapKeys(pairs);
    LookupMissesReprKeys(ReprMap(pairs), key);
  }

  /** The stored key for a printable name is the name between `b'` and `'`, e.g. `"b'Content-Length'"`. */
  lemma ReprMapStoresRepr(pairs: seq<(bytes, bytes)>)
    requires |pairs| > 0
    ensures TextKey(BytesRepr(Title(pairs[|pairs| - 1].0))) in ReprMap(pairs)
    ensures ReprMap(pairs)[TextKey(BytesRepr(Title(pairs[|pairs| - 1].0)))] == pairs[|pairs| - 1].1
  {
  }
}
