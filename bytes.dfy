/**
  Python `bytes` operations the HTTP client relies on: `find` with a start
  position, slicing with Python's index rules, `split(sep)`, `split()` on
  whitespace, `strip`/`rstrip`, `join` and the ASCII `title()` casing.
 */
module Bytes {

  newtype byte = x: int | 0 <= x < 256
  type bytes = seq<byte>

  const CR: byte := 13
  const LF: byte := 10
  const SP: byte := 32
  const COLON: byte := 58
  const CRLF: bytes := [CR, LF]
  const CRLFCRLF: bytes := [CR, LF, CR, LF]

  /** The bytes that `bytes.isspace`, `bytes.split()` and `bytes.strip()` treat as whitespace. */
  const WHITESPACE: set<byte> := {9, 10, 11, 12, 13, 32}

  /** An ASCII text literal as bytes. */
  function Ascii(s: string): (r: bytes)
    ensures |r| == |s|
  {
    seq(|s|, i requires 0 <= i < |s| => ((s[i] as int) % 256) as byte)
  }

  /** All the byte strings of a sequence, one after another. */
  function Concat(parts: seq<bytes>): bytes {
    if |parts| == 0 then [] else parts[0] + Concat(parts[1..])
  }

  lemma {:induction false} ConcatAppend(parts: seq<bytes>, last: bytes)
    ensures Concat(parts + [last]) == Concat(parts) + last
    decreases |parts|
  {
    if |parts| == 0 {
      assert parts + [last] == [last];
    } else {
      assert (parts + [last])[1..] == parts[1..] + [last];
      ConcatAppend(parts[1..], last);
    }
  }

  // ---------------------------------------------------------------------
  // bytes.find(pat, start)
  // ---------------------------------------------------------------------

  /** `pat` occurs in `s` at index `i`. */
  predicate MatchAt(s: bytes, pat: bytes, i: int) {
    0 <= i && i + |pat| <= |s| && s[i..i + |pat|] == pat
  }

  /** `s.find(pat, start)`: the first index at or after `start` where `pat` occurs, or -1. */
  function FindFrom(s: bytes, pat: bytes, start: nat): (r: int)
    ensures r == -1 || (start <= r && MatchAt(s, pat, r))
    ensures r == -1 ==> forall i :: start <= i ==> !MatchAt(s, pat, i)
    ensures r != -1 ==> forall i :: start <= i < r ==> !MatchAt(s, pat, i)
    decreases |s| - start
  {
    if start + |pat| > |s| then -1
    else if s[start..start + |pat|] == pat then start
    else FindFrom(s, pat, start + 1)
  }

  /** `needle in s` for byte strings. */
  predicate Contains(s: bytes, needle: bytes) {
    FindFrom(s, needle, 0) != -1
  }

  /** The first-occurrence characterisation determines `find`. */
  lemma {:induction false} FindIs(s: bytes, pat: bytes, start: nat, r: int)
    requires start <= r && MatchAt(s, pat, r)
    requires forall i :: start <= i < r ==> !MatchAt(s, pat, i)
    ensures FindFrom(s, pat, start) == r
  {
  }

  lemma {:induction false} FindNone(s: bytes, pat: bytes, start: nat)
    requires forall i :: start <= i ==> !MatchAt(s, pat, i)
    ensures FindFrom(s, pat, start) == -1
  {
  }

  /** A byte that `pat` does not start with cannot begin a match. */
  lemma {:induction false} NoMatchAtOther(s: bytes, pat: bytes, i: int)
    requires |pat| > 0 && 0 <= i < |s| && s[i] != pat[0]
    ensures !MatchAt(s, pat, i)
  {
    if i + |pat| <= |s| {
      assert s[i..i + |pat|][0] == s[i];
    }
  }

  /** Occurrences in the second half of a concatenation are shifted by the first half's length. */
  lemma {:induction false} MatchShift(a: bytes, b: bytes, pat: bytes, i: nat)
    ensures MatchAt(a + b, pat, |a| + i) <==> MatchAt(b, pat, i)
  {
    if i + |pat| <= |b| {
      assert (a + b)[|a| + i..|a| + i + |pat|] == b[i..i + |pat|];
    }
  }

  /** Occurrences that end inside the first half are occurrences in the first half. */
  lemma {:induction false} MatchPrefix(a: bytes, b: bytes, pat: bytes, i: nat)
    requires i + |pat| <= |a|
    ensures MatchAt(a + b, pat, i) <==> MatchAt(a, pat, i)
  {
    assert (a + b)[i..i + |pat|] == a[i..i + |pat|];
  }

  lemma {:induction false} NoMatchShifted(a: bytes, b: bytes, pat: bytes, k: nat)
    requires forall i :: 0 <= i < k ==> !MatchAt(b, pat, i)
    ensures forall j :: |a| <= j < |a| + k ==> !MatchAt(a + b, pat, j)
  {
    forall j | |a| <= j < |a| + k
      ensures !MatchAt(a + b, pat, j)
    {
      MatchShift(a, b, pat, j - |a|);
    }
  }

  /** Searching after a prefix is searching the rest, shifted. */
  lemma {:induction false} FindShift(a: bytes, b: bytes, pat: bytes)
    requires FindFrom(b, pat, 0) != -1
    ensures FindFrom(a + b, pat, |a|) == |a| + FindFrom(b, pat, 0)
  {
    var k := FindFrom(b, pat, 0);
    MatchShift(a, b, pat, k);
    NoMatchShifted(a, b, pat, k);
    FindIs(a + b, pat, |a|, |a| + k);
  }

  /** No occurrence in the rest: none after the prefix either. */
  lemma {:induction false} FindShiftNone(a: bytes, b: bytes, pat: bytes)
    requires FindFrom(b, pat, 0) == -1
    ensures FindFrom(a + b, pat, |a|) == -1
  {
    forall j | |a| <= j
      ensures !MatchAt(a + b, pat, j)
    {
      MatchShift(a, b, pat, j - |a|);
    }
    FindNone(a + b, pat, |a|);
  }

  /** Reading from a cursor: an occurrence wholly inside the unread bytes is one in the buffer. */
  lemma {:induction false} MatchCursor(buf: bytes, start: nat, rest: bytes, pat: bytes, i: nat)
    requires start + i + |pat| <= |buf|
    ensures MatchAt(buf[start..] + rest, pat, i) <==> MatchAt(buf, pat, start + i)
  {
    var u := buf[start..];
    MatchPrefix(u, rest, pat, i);
    assert u[i..i + |pat|] == buf[start + i..start + i + |pat|];
  }

  /**
    Searching a buffer from a cursor finds the same delimiter as searching
    the unread bytes, whatever bytes arrive after them.
   */
  lemma {:induction false} FindFromCursor(buf: bytes, start: nat, rest: bytes, pat: bytes)
    requires start <= |buf|
    requires FindFrom(buf, pat, start) != -1
    ensures FindFrom(buf[start..] + rest, pat, 0) == FindFrom(buf, pat, start) - start
  {
    var n := FindFrom(buf, pat, start);
    var s := buf[start..] + rest;
    MatchCursor(buf, start, rest, pat, n - start);
    forall i | 0 <= i < n - start
      ensures !MatchAt(s, pat, i)
    {
      MatchCursor(buf, start, rest, pat, i);
    }
    FindIs(s, pat, 0, n - start);
  }

  lemma {:induction false} FindFromCursorNone(buf: bytes, start: nat, pat: bytes)
    requires start <= |buf|
    requires FindFrom(buf, pat, start) == -1
    ensures FindFrom(buf[start..], pat, 0) == -1
  {
    var s := buf[start..];
    assert s + [] == s;
    forall i | 0 <= i
      ensures !MatchAt(s, pat, i)
    {
      if start + i + |pat| <= |buf| {
        MatchCursor(buf, start, [], pat, i);
      }
    }
    FindNone(s, pat, 0);
  }

  /** Searching the bytes after `start` from `k` is searching the whole buffer from `start + k`. */
  lemma {:induction false} FindFromSuffix(buf: bytes, start: nat, pat: bytes, k: nat)
    requires start <= |buf|
    ensures var r := FindFrom(buf, pat, start + k);
      FindFrom(buf[start..], pat, k) == if r == -1 then -1 else r - start
  {
    var s := buf[start..];
    var r := FindFrom(buf, pat, start + k);
    assert s + [] == s;
    forall i | 0 <= i
      ensures MatchAt(s, pat, i) <==> MatchAt(buf, pat, start + i)
    {
      if start + i + |pat| <= |buf| {
        MatchCursor(buf, start, [], pat, i);
      }
    }
    if r == -1 {
      FindNone(s, pat, k);
    } else {
      FindIs(s, pat, k, r - start);
    }
  }

  // ---------------------------------------------------------------------
  // Slicing s[a:b] with Python's rules for negative and oversized indices
  // ---------------------------------------------------------------------

  /** A slice bound as Python normalises it: negative counts from the end, then clamped to [0, n]. */
  function SliceIndex(i: int, n: nat): (k: nat)
    ensures k <= n
  {
    if i < 0 then (if i + n < 0 then 0 else i + n)
    else if i > n then n
    else i
  }

  function Slice(s: bytes, a: int, b: int): bytes {
    var i, j := SliceIndex(a, |s|), SliceIndex(b, |s|);
    if i <= j then s[i..j] else []
  }

  /** Within bounds, a Python slice is a Dafny subsequence. */
  lemma {:induction false} SliceInRange(s: bytes, a: nat, b: nat)
    requires a <= b <= |s|
    ensures Slice(s, a, b) == s[a..b]
  {
  }

  /** `s[:-2]` drops the last two bytes, and is empty when there are fewer than two. */
  lemma {:induction false} SliceDropLastTwo(s: bytes)
    ensures Slice(s, 0, -2) == if |s| >= 2 then s[..|s| - 2] else []
  {
  }

  // ---------------------------------------------------------------------
  // bytes.split(sep) and sep.join(parts)
  // ---------------------------------------------------------------------

  /** `s.split(sep)`: the pieces between the non-overlapping occurrences of `sep`, left to right. */
  function SplitOn(s: bytes, sep: bytes): (parts: seq<bytes>)
    requires |sep| > 0
    ensures |parts| >= 1
    decreases |s|
  {
    var i := FindFrom(s, sep, 0);
    if i == -1 then [s] else [s[..i]] + SplitOn(s[i + |sep|..], sep)
  }

  /** `sep.join(parts)`. */
  function JoinWith(parts: seq<bytes>, sep: bytes): bytes {
    if |parts| == 0 then []
    else if |parts| == 1 then parts[0]
    else parts[0] + sep + JoinWith(parts[1..], sep)
  }

  /** A byte that occurs in no part and not in the separator does not occur in the join. */
  lemma {:induction false} JoinAvoids(parts: seq<bytes>, sep: bytes, c: byte)
    requires c !in sep
    requires forall k :: 0 <= k < |parts| ==> c !in parts[k]
    ensures c !in JoinWith(parts, sep)
    decreases |parts|
  {
    if |parts| > 1 {
      JoinAvoids(parts[1..], sep, c);
    }
  }

  lemma {:induction false} JoinCons(head: bytes, rest: seq<bytes>, sep: bytes)
    requires |rest| >= 1
    ensures JoinWith([head] + rest, sep) == head + sep + JoinWith(rest, sep)
  {
    assert ([head] + rest)[1..] == rest;
  }

  /** The bytes around the first separator. */
  lemma {:induction false} AroundFirst(s: bytes, sep: bytes)
    requires |sep| > 0 && FindFrom(s, sep, 0) != -1
    ensures var i := FindFrom(s, sep, 0); s == s[..i] + sep + s[i + |sep|..]
  {
    var i := FindFrom(s, sep, 0);
    assert s[i..i + |sep|] == sep;
    assert s == s[..i] + s[i..i + |sep|] + s[i + |sep|..];
  }

  /** Splitting and joining again gives back the original bytes. */
  lemma {:induction false} JoinSplit(s: bytes, sep: bytes)
    requires |sep| > 0
    ensures JoinWith(SplitOn(s, sep), sep) == s
    decreases |s|
  {
    var i := FindFrom(s, sep, 0);
    if i != -1 {
      var tail := s[i + |sep|..];
      JoinSplit(tail, sep);
      JoinCons(s[..i], SplitOn(tail, sep), sep);
      AroundFirst(s, sep);
    }
  }

  /** Joining pieces free of the separator's first byte and splitting again gives back the pieces. */
  lemma {:induction false} SplitJoin(parts: seq<bytes>, sep: bytes)
    requires |sep| > 0 && |parts| >= 1
    requires forall k :: 0 <= k < |parts| ==> sep[0] !in parts[k]
    ensures SplitOn(JoinWith(parts, sep), sep) == parts
    decreases |parts|
  {
    var p0 := parts[0];
    if |parts| == 1 {
      forall i | 0 <= i
        ensures !MatchAt(p0, sep, i)
      {
        if i < |p0| { NoMatchAtOther(p0, sep, i); }
      }
      FindNone(p0, sep, 0);
    } else {
      var rest := JoinWith(parts[1..], sep);
      var s := p0 + sep + rest;
      assert JoinWith(parts, sep) == s;
      forall i | 0 <= i < |p0|
        ensures !MatchAt(s, sep, i)
      {
        NoMatchAtOther(s, sep, i);
      }
      assert s[|p0|..|p0| + |sep|] == sep;
      FindIs(s, sep, 0, |p0|);
      assert s[..|p0|] == p0;
      assert s[|p0| + |sep|..] == rest;
      SplitJoin(parts[1..], sep);
    }
  }

  // ---------------------------------------------------------------------
  // bytes.split() on runs of whitespace
  // ---------------------------------------------------------------------

  /** A non-empty run of non-whitespace bytes. */
  predicate IsWord(w: bytes) {
    |w| > 0 && forall i :: 0 <= i < |w| ==> w[i] !in WHITESPACE
  }

  /** The length of the non-whitespace run that `s` starts with. */
  function WordLength(s: bytes): (n: nat)
    ensures n <= |s|
    ensures forall i :: 0 <= i < n ==> s[i] !in WHITESPACE
    ensures n == |s| || s[n] in WHITESPACE
  {
    if |s| == 0 || s[0] in WHITESPACE then 0 else 1 + WordLength(s[1..])
  }

  /** `s.split()`: the maximal whitespace-free runs of `s`, in order. */
  function SplitWords(s: bytes): (words: seq<bytes>)
    ensures forall k :: 0 <= k < |words| ==> IsWord(words[k])
    decreases |s|
  {
    if |s| == 0 then []
    else if s[0] in WHITESPACE then SplitWords(s[1..])
    else
      var n := WordLength(s);
      [s[..n]] + SplitWords(s[n..])
  }

  lemma {:induction false} WordLengthOfWord(w: bytes, rest: bytes)
    requires IsWord(w)
    requires rest == [] || rest[0] in WHITESPACE
    ensures WordLength(w + rest) == |w|
    decreases |w|
  {
    if |w| > 1 {
      assert (w + rest)[1..] == w[1..] + rest;
      WordLengthOfWord(w[1..], rest);
    } else {
      assert (w + rest)[1..] == rest;
    }
  }

  /** Words joined by single spaces split back into the same words. */
  lemma {:induction false} SplitJoinWords(words: seq<bytes>)
    requires forall k :: 0 <= k < |words| ==> IsWord(words[k])
    ensures SplitWords(JoinWith(words, [SP])) == words
    decreases |words|
  {
    if |words| == 1 {
      var w := words[0];
      WordLengthOfWord(w, []);
      assert w + [] == w;
      assert w[|w|..] == [];
    } else if |words| > 1 {
      var w := words[0];
      var rest := JoinWith(words[1..], [SP]);
      var s := w + [SP] + rest;
      assert JoinWith(words, [SP]) == s;
      assert s == w + ([SP] + rest);
      WordLengthOfWord(w, [SP] + rest);
      assert s[..|w|] == w;
      assert s[|w|..] == [SP] + rest;
      assert ([SP] + rest)[1..] == rest;
      SplitJoinWords(words[1..]);
    }
  }

  // ---------------------------------------------------------------------
  // strip / rstrip
  // ---------------------------------------------------------------------

  /** `s.lstrip(drop)`. */
  function TrimStart(s: bytes, drop: set<byte>): (r: bytes)
    ensures |r| <= |s|
    ensures forall i :: 0 <= i < |s| - |r| ==> s[i] in drop
    ensures r == [] || r[0] !in drop
  {
    if |s| > 0 && s[0] in drop then TrimStart(s[1..], drop) else s
  }

  /** `s.rstrip(drop)`. */
  function TrimEnd(s: bytes, drop: set<byte>): (r: bytes)
    ensures |r| <= |s|
    ensures forall i :: |r| <= i < |s| ==> s[i] in drop
    ensures r == [] || r[|r| - 1] !in drop
  {
    if |s| > 0 && s[|s| - 1] in drop then TrimEnd(s[..|s| - 1], drop) else s
  }

  /** `s.strip()`: whitespace removed at both ends. */
  function Strip(s: bytes): bytes {
    TrimEnd(TrimStart(s, WHITESPACE), WHITESPACE)
  }

  /** Bytes with no byte from `drop` at either end are left alone. */
  lemma {:induction false} StripNothing(s: bytes)
    requires s == [] || (s[0] !in WHITESPACE && s[|s| - 1] !in WHITESPACE)
    ensures Strip(s) == s
  {
  }

  lemma {:induction false} WordLengthSnoc(s: bytes, c: byte)
    requires c in WHITESPACE
    ensures WordLength(s + [c]) == WordLength(s)
    decreases |s|
  {
    if |s| > 0 && s[0] !in WHITESPACE {
      assert (s + [c])[1..] == s[1..] + [c];
      WordLengthSnoc(s[1..], c);
    }
  }

  /** A trailing whitespace byte does not change `split()`. */
  lemma {:induction false} SplitWordsSnoc(s: bytes, c: byte)
    requires c in WHITESPACE
    ensures SplitWords(s + [c]) == SplitWords(s)
    decreases |s|
  {
    var t := s + [c];
    if |s| == 0 {
      assert t[1..] == [];
    } else if s[0] in WHITESPACE {
      assert t[1..] == s[1..] + [c];
      SplitWordsSnoc(s[1..], c);
    } else {
      var n := WordLength(s);
      WordLengthSnoc(s, c);
      assert t[..n] == s[..n];
      assert t[n..] == s[n..] + [c];
      SplitWordsSnoc(s[n..], c);
    }
  }

  /** Stripping trailing whitespace before `split()` changes nothing: `s.rstrip(b"\r\n").split() == s.split()`. */
  lemma {:induction false} SplitWordsTrimEnd(s: bytes, drop: set<byte>)
    requires drop <= WHITESPACE
    ensures SplitWords(TrimEnd(s, drop)) == SplitWords(s)
    decreases |s|
  {
    if |s| > 0 && s[|s| - 1] in drop {
      var init := s[..|s| - 1];
      SplitWordsTrimEnd(init, drop);
      assert init + [s[|s| - 1]] == s;
      SplitWordsSnoc(init, s[|s| - 1]);
    }
  }

  // ---------------------------------------------------------------------
  // bytes.title()
  // ---------------------------------------------------------------------

  predicate IsUpper(b: byte) { 65 <= b <= 90 }
  predicate IsLower(b: byte) { 97 <= b <= 122 }
  predicate IsCased(b: byte) { IsUpper(b) || IsLower(b) }

  function ToUpper(b: byte): byte { if IsLower(b) then b - 32 else b }
  function ToLower(b: byte): byte { if IsUpper(b) then b + 32 else b }

  /** `s.lower()` for ASCII bytes. */
  function LowerAll(s: bytes): (r: bytes)
    ensures |r| == |s|
  {
    seq(|s|, i requires 0 <= i < |s| => ToLower(s[i]))
  }

  /**
    One byte of `title()`, given whether the byte before it is a letter: a
    letter after a letter becomes lower case, any other letter upper case,
    and every other byte is kept.
   */
  function TitleByte(c: byte, afterLetter: bool): (r: byte)
    ensures IsCased(r) == IsCased(c)
  {
    if !IsCased(c) then c else if afterLetter then ToLower(c) else ToUpper(c)
  }

  /** `s.title()` for bytes: each byte cased by whether the byte before it is a letter. */
  function Title(s: bytes): (r: bytes)
    ensures |r| == |s|
  {
    seq(|s|, i requires 0 <= i < |s| => TitleByte(s[i], i > 0 && IsCased(s[i - 1])))
  }

  /** Title-casing an already title-cased key changes nothing. */
  lemma TitleIdempotent(s: bytes)
    ensures Title(Title(s)) == Title(s)
  {
    var t := Title(s);
    forall i | 0 <= i < |s|
      ensures Title(t)[i] == t[i]
    {
      if i > 0 {
        assert IsCased(t[i - 1]) == IsCased(s[i - 1]);
      }
    }
  }

  /** Two byte strings that agree up to ASCII case have the same title form. */
  lemma TitleIgnoresCase(a: bytes, b: bytes)
    requires LowerAll(a) == LowerAll(b)
    ensures Title(a) == Title(b)
  {
    forall i | 0 <= i < |a|
      ensures Title(a)[i] == Title(b)[i]
    {
      assert LowerAll(a)[i] == LowerAll(b)[i];
      if i > 0 {
        assert LowerAll(a)[i - 1] == LowerAll(b)[i - 1];
      }
    }
  }
}
