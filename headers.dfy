/**
  Response header dictionaries: keys are title-cased when stored and when
  looked up, so lookups ignore ASCII case (`BaseResponse.__init__` and
  `BaseResponse.getheader`).
 */
module Headers {
  import opened Wrappers
  import opened Bytes

  /** A dictionary key as Python sees it: a bytes object or a str object, never equal to each other. */
  datatype HeaderKey = BytesKey(b: bytes) | TextKey(t: string)

  type HeaderMap = map<HeaderKey, bytes>

  // ---------------------------------------------------------------------
  // str.title() for ASCII text
  // ---------------------------------------------------------------------

  predicate IsTextLetter(c: char) {
    'a' <= c <= 'z' || 'A' <= c <= 'Z'
  }

  function TextToUpper(c: char): char {
    if 'a' <= c <= 'z' then (c as int - 32) as char else c
  }

  function TextToLower(c: char): char {
    if 'A' <= c <= 'Z' then (c as int + 32) as char else c
  }

  function TextTitleFrom(t: string, afterLetter: bool): (r: string)
    ensures |r| == |t|
  {
    if |t| == 0 then ""
    else
      var c := t[0];
      var c' := if !IsTextLetter(c) then c else if afterLetter then TextToLower(c) else TextToUpper(c);
      [c'] + TextTitleFrom(t[1..], IsTextLetter(c))
  }

  /** `t.title()` for a str key. */
  function TextTitle(t: string): string {
    TextTitleFrom(t, false)
  }

  /** `key.title()` for either kind of key. */
  function TitleKey(k: HeaderKey): HeaderKey {
    match k
    case BytesKey(b) => BytesKey(Title(b))
    case TextKey(t) => TextKey(TextTitle(t))
  }

  lemma TitleKeyIdempotent(k: HeaderKey)
    ensures TitleKey(TitleKey(k)) == TitleKey(k)
  {
    match k
    case BytesKey(b) => TitleIdempotent(b);
    case TextKey(t) => TextTitleIdempotent(t, false);
  }

  lemma {:induction false} TextTitleIdempotent(t: string, afterLetter: bool)
    ensures TextTitleFrom(TextTitleFrom(t, afterLetter), afterLetter) == TextTitleFrom(t, afterLetter)
    decreases |t|
  {
    if |t| > 0 {
      var r := TextTitleFrom(t, afterLetter);
      assert r[1..] == TextTitleFrom(t[1..], IsTextLetter(t[0]));
      TextTitleIdempotent(t[1..], IsTextLetter(t[0]));
    }
  }

  // ---------------------------------------------------------------------
  // getheader
  // ---------------------------------------------------------------------

  /** The value stored under the title form of `key`, if any. */
  function FindHeader(h: HeaderMap, key: HeaderKey): Option<bytes> {
    var k := TitleKey(key);
    if k in h then Some(h[k]) else None
  }

  /** `getheader(key, default_value)`. */
  function GetHeader(h: HeaderMap, key: HeaderKey, default: bytes): bytes {
    FindHeader(h, key).GetOr(default)
  }

  /** The dictionary `BaseResponse.__init__` builds: each pair stored under its title-cased key, later pairs winning. */
  function TitledMap(fields: seq<(HeaderKey, bytes)>): HeaderMap {
    if |fields| == 0 then map[]
    else
      var last := fields[|fields| - 1];
      TitledMap(fields[..|fields| - 1])[TitleKey(last.0) := last.1]
  }

  /** Reference lookup: the value of the last pair whose key has the same title form as `key`. */
  function LastValue(fields: seq<(HeaderKey, bytes)>, key: HeaderKey): Option<bytes> {
    if |fields| == 0 then None
    else if TitleKey(fields[|fields| - 1].0) == TitleKey(key) then Some(fields[|fields| - 1].1)
    else LastValue(fields[..|fields| - 1], key)
  }

  /** Looking a key up in the built dictionary gives the last value given for any spelling of that key. */
  lemma {:induction false} TitledMapLookup(fields: seq<(HeaderKey, bytes)>, key: HeaderKey)
    ensures FindHeader(TitledMap(fields), key) == LastValue(fields, key)
    decreases |fields|
  {
    if |fields| > 0 {
      TitledMapLookup(fields[..|fields| - 1], key);
    }
  }

  /** Every key of the built dictionary is already title-cased. */
  lemma {:induction false} TitledMapKeys(fields: seq<(HeaderKey, bytes)>)
    ensures forall k :: k in TitledMap(fields) ==> TitleKey(k) == k
    decreases |fields|
  {
    if |fields| > 0 {
      TitledMapKeys(fields[..|fields| - 1]);
      TitleKeyIdempotent(fields[|fields| - 1].0);
    }
  }

  /** So `getheader` finds every stored key under its own name. */
  lemma StoredKeysFound(fields: seq<(HeaderKey, bytes)>, k: HeaderKey)
    requires k in TitledMap(fields)
    ensures FindHeader(TitledMap(fields), k) == Some(TitledMap(fields)[k])
  {
    TitledMapKeys(fields);
  }

  /** Two bytes keys that differ only in ASCII case find the same value. */
  lemma GetHeaderIgnoresCase(h: HeaderMap, a: bytes, b: bytes, default: bytes)
    requires LowerAll(a) == LowerAll(b)
    ensures GetHeader(h, BytesKey(a), default) == GetHeader(h, BytesKey(b), default)
  {
    TitleIgnoresCase(a, b);
  }

  /** A title-cased str never starts with a lower-case `b`. */
  lemma TextTitleFirst(t: string)
    requires |t| > 0
    ensures TextTitle(t)[0] != 'b'
  {
  }

  /**
    A dictionary whose keys are all strs starting with a lower-case `b`
    (as `str(key.title())` produces for bytes `key`) answers every
    `getheader` with the default: a bytes key is never equal to a str key,
    and a title-cased str cannot start with `b`.
   */
  lemma LookupMissesReprKeys(h: HeaderMap, key: HeaderKey)
    requires forall k :: k in h ==> k.TextKey? && |k.t| > 0 && k.t[0] == 'b'
    ensures FindHeader(h, key) == None
  {
    match key
    case BytesKey(_) =>
    case TextKey(t) =>
      if |t| > 0 { TextTitleFirst(t); }
  }

  // ---------------------------------------------------------------------
  // str(b): the repr of a bytes object
  // ---------------------------------------------------------------------

  function HexDigitChar(n: nat): char
    requires n < 16
  {
    "0123456789abcdef"[n]
  }

  /** `repr` quotes with `"` when the bytes contain `'` and no `"`, and with `'` otherwise. */
  function ReprQuote(b: bytes): char {
    if 39 in b && 34 !in b then '"' else '\''
  }

  function EscapeByte(c: byte, quote: char): string {
    if c as int == quote as int || c == 92 then ['\\', (c as int) as char]
    else if c == 9 then "\\t"
    else if c == 10 then "\\n"
    else if c == 13 then "\\r"
    else if c < 32 || c >= 127 then ['\\', 'x', HexDigitChar(c as int / 16), HexDigitChar(c as int % 16)]
    else [(c as int) as char]
  }

  function EscapeAll(b: bytes, quote: char): string {
    if |b| == 0 then "" else EscapeByte(b[0], quote) + EscapeAll(b[1..], quote)
  }

  /** `str(b)` for a bytes object `b`, e.g. `b'Content-Length'`. */
  function BytesRepr(b: bytes): (r: string)
    ensures |r| >= 3 && r[0] == 'b'
  {
    var q := ReprQuote(b);
    ['b', q] + EscapeAll(b, q) + [q]
  }

  lemma {:induction false} EscapePrintable(b: bytes)
    requires forall i :: 0 <= i < |b| ==> 32 <= b[i] < 127 && b[i] != 39 && b[i] != 92
    ensures EscapeAll(b, '\'') == seq(|b|, i requires 0 <= i < |b| => (b[i] as int) as char)
    decreases |b|
  {
    if |b| > 0 {
      EscapePrintable(b[1..]);
    }
  }

  /** Printable bytes without quotes or backslashes appear verbatim between `b'` and `'`. */
  lemma ReprOfPrintable(b: bytes)
    requires forall i :: 0 <= i < |b| ==> 32 <= b[i] < 127 && b[i] != 39 && b[i] != 92
    ensures BytesRepr(b) == "b'" + seq(|b|, i requires 0 <= i < |b| => (b[i] as int) as char) + "'"
  {
    assert 39 !in b;
    EscapePrintable(b);
  }

  // ---------------------------------------------------------------------
  // BaseResponse
  // ---------------------------------------------------------------------

  /** The fields every response object starts with. */
  class BaseResponse {
    var status: int
    var reason: bytes
    var headers: HeaderMap
    var text: bytes

    /** `BaseResponse(status, reason, headers, body)`; `fields` are the dict's items or the list's pairs, in order. */
    constructor (status: int, reason: bytes, fields: seq<(HeaderKey, bytes)>, body: bytes)
      ensures this.status == status && this.reason == reason && text == body
      ensures headers == TitledMap(fields)
    {
      this.status := status;
      this.reason := reason;
      this.text := body;
      var h: HeaderMap := map[];
      var i := 0;
      while i < |fields|
        invariant 0 <= i <= |fields|
        invariant h == TitledMap(fields[..i])
      {
        assert fields[..i + 1][..i] == fields[..i];
        h := h[TitleKey(fields[i].0) := fields[i].1];
        i := i + 1;
      }
      assert fields[..|fields|] == fields;
      this.headers := h;
    }
  }
}
