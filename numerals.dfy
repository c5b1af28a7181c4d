/**
  Integers as bytes: Python's `int(b, 10)` / `int(b, 16)` parser and the
  `%d` / hexadecimal printers that are its partners.
 */
module Numerals {
  import opened Wrappers
  import opened Bytes

  const MINUS: byte := 45
  const PLUS: byte := 43
  const UNDERSCORE: byte := 95

  /** The value of a hexadecimal digit of either case, or -1 for any other byte. */
  function DigitValue(b: byte): int {
    if 48 <= b <= 57 then b as int - 48
    else if 97 <= b <= 102 then b as int - 87
    else if 65 <= b <= 70 then b as int - 55
    else -1
  }

  predicate IsDigit(b: byte, base: nat) {
    0 <= DigitValue(b) < base
  }

  /** Digits, with single underscores allowed between two digits: the body of a Python integer literal. */
  predicate IsDigitRun(s: bytes, base: nat) {
    |s| > 0 && IsDigit(s[0], base) && DigitsAfter(s[1..], base)
  }

  /** What may follow a digit in a digit run: digits, each optionally preceded by one underscore. */
  predicate DigitsAfter(s: bytes, base: nat)
    decreases |s|
  {
    if |s| == 0 then true
    else if IsDigit(s[0], base) then DigitsAfter(s[1..], base)
    else s[0] == UNDERSCORE && |s| > 1 && IsDigit(s[1], base) && DigitsAfter(s[2..], base)
  }

  /** A non-empty run of digits is a digit run. */
  lemma {:induction false} AllDigitsAfter(s: bytes, base: nat)
    requires forall i :: 0 <= i < |s| ==> IsDigit(s[i], base)
    ensures DigitsAfter(s, base)
    decreases |s|
  {
    if |s| > 0 {
      AllDigitsAfter(s[1..], base);
    }
  }

  /** The value of a digit run read most significant digit first, underscores skipped. */
  function RunValue(s: bytes, base: nat): nat {
    if |s| == 0 then 0
    else
      var d := DigitValue(s[|s| - 1]);
      if d < 0 then RunValue(s[..|s| - 1], base) else RunValue(s[..|s| - 1], base) * base + d
  }

  /**
    `int(s, base)` for bytes `s` and base 10 or 16: surrounding whitespace is
    ignored, one sign is allowed, base 16 allows a `0x`/`0X` prefix that may
    be followed by one underscore; anything else is a ValueError (None).
   */
  function ParseInt(s: bytes, base: nat): Option<int>
    requires base == 10 || base == 16
  {
    ParseTrimmed(Strip(s), base)
  }

  /** `int(t, base)` once surrounding whitespace is gone: sign, prefix and digits. */
  function ParseTrimmed(t: bytes, base: nat): Option<int>
    requires base == 10 || base == 16
  {
    var negative := |t| > 0 && t[0] == MINUS;
    var unsigned := if |t| > 0 && (t[0] == MINUS || t[0] == PLUS) then t[1..] else t;
    var digits :=
      if base == 16 && |unsigned| >= 2 && unsigned[0] == 48 && (unsigned[1] == 120 || unsigned[1] == 88)
      then (var w := unsigned[2..]; if |w| > 0 && w[0] == UNDERSCORE then w[1..] else w)
      else unsigned;
    var magnitude: int := RunValue(digits, base);
    if IsDigitRun(digits, base) then Some(if negative then -magnitude else magnitude) else None
  }

  /** A whitespace-free word needs no stripping. */
  lemma ParseIntOfWord(w: bytes, base: nat)
    requires base == 10 || base == 16
    requires IsWord(w)
    ensures ParseInt(w, base) == ParseTrimmed(w, base)
  {
    StripNothing(w);
  }

  /** The lower-case digit for a value below 16. */
  function DigitChar(d: nat): byte
    requires d < 16
  {
    if d < 10 then (48 + d) as byte else (87 + d) as byte
  }

  /** The digits of `n` in `base`, most significant first, no leading zeros. */
  function NatDigits(n: nat, base: nat): (r: bytes)
    requires 2 <= base <= 16
    decreases n
  {
    if n < base then [DigitChar(n)] else NatDigits(n / base, base) + [DigitChar(n % base)]
  }

  /** `b"%d" % n`, and `str(n)` encoded. */
  function Decimal(n: int): bytes {
    if n < 0 then [MINUS] + NatDigits(-n, 10) else NatDigits(n, 10)
  }

  /** `n` in lower-case hexadecimal, as a chunk-size line carries it. */
  function Hex(n: nat): bytes {
    NatDigits(n, 16)
  }

  lemma {:induction false} NatDigitsValue(n: nat, base: nat)
    requires base == 10 || base == 16
    ensures |NatDigits(n, base)| > 0
    ensures forall i :: 0 <= i < |NatDigits(n, base)| ==> IsDigit(NatDigits(n, base)[i], base)
    ensures RunValue(NatDigits(n, base), base) == n
    decreases n
  {
    var r := NatDigits(n, base);
    if n >= base {
      var p := NatDigits(n / base, base);
      NatDigitsValue(n / base, base);
      assert r == p + [DigitChar(n % base)];
      assert r[..|r| - 1] == p;
    }
  }

  /** The digits of a natural number, read back in the same base, give the number. */
  lemma {:induction false} NatDigitsRoundTrip(n: nat, base: nat)
    requires base == 10 || base == 16
    ensures ParseInt(NatDigits(n, base), base) == Some(n)
  {
    var d := NatDigits(n, base);
    NatDigitsValue(n, base);
    StripNothing(d);
    AllDigitsAfter(d[1..], base);
  }

  /** What `%d` prints, `int()` reads back. */
  lemma {:induction false} DecimalRoundTrip(n: int)
    ensures ParseInt(Decimal(n), 10) == Some(n)
  {
    if n < 0 {
      var d := NatDigits(-n, 10);
      NatDigitsValue(-n, 10);
      var s := [MINUS] + d;
      StripNothing(s);
      assert s[1..] == d;
      AllDigitsAfter(d[1..], 10);
    } else {
      NatDigitsRoundTrip(n, 10);
    }
  }

  /** A chunk size printed in hexadecimal is read back by `int(line, 16)`. */
  lemma {:induction false} HexRoundTrip(n: nat)
    ensures ParseInt(Hex(n), 16) == Some(n)
  {
    NatDigitsRoundTrip(n, 16);
  }

  /** `int(b"0x" + digits, 16)` reads the digits after the prefix: `int(b"0x1a", 16)` is 26. */
  lemma {:induction false} HexPrefix(n: nat)
    ensures ParseInt(Ascii("0x") + Hex(n), 16) == Some(n)
  {
    var h := Hex(n);
    NatDigitsValue(n, 16);
    var s := Ascii("0x") + h;
    assert s[0] == 48 && s[1] == 120 && s[|s| - 1] == h[|h| - 1];
    StripNothing(s);
    assert s[2..] == h;
    AllDigitsAfter(h[1..], 16);
  }

  /** Base 10 takes no prefix: `int(b"0x1a")` is a ValueError. */
  lemma {:induction false} DecimalRejectsHexPrefix(h: bytes)
    requires h == [] || h[|h| - 1] !in WHITESPACE
    ensures ParseInt(Ascii("0x") + h, 10) == None
  {
    var s := Ascii("0x") + h;
    assert s[0] == 48 && s[1] == 120 && s[|s| - 1] !in WHITESPACE;
    StripNothing(s);
    assert s[1..][0] == 120;
  }
}
