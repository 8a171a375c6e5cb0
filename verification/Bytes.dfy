/** Shared value types. */
module Bytes {
  type byte = b: int | 0 <= b < 256

  type bytes = seq<byte>

  datatype Option<+T> = None | Some(value: T)

  function Flatten(pieces: seq<bytes>): bytes {
    if pieces == [] then [] else Flatten(pieces[..|pieces| - 1]) + pieces[|pieces| - 1]
  }

  lemma FlattenAppend(pieces: seq<bytes>, last: bytes)
    ensures Flatten(pieces + [last]) == Flatten(pieces) + last
  {
    assert (pieces + [last])[..|pieces|] == pieces;
  }

  lemma {:induction false} FlattenPrefix(pieces: seq<bytes>, i: nat)
    requires i <= |pieces|
    ensures Flatten(pieces[..i]) <= Flatten(pieces)
    decreases |pieces|
  {
    if i < |pieces| {
      var front := pieces[..|pieces| - 1];
      FlattenPrefix(front, i);
      assert front[..i] == pieces[..i];
    } else {
      assert pieces[..i] == pieces;
    }
  }

  lemma FlattenNone(pieces: seq<bytes>)
    ensures Flatten(pieces[..0]) == []
  {
  }

  lemma FlattenOne(pieces: seq<bytes>, i: nat)
    requires i < |pieces|
    ensures Flatten(pieces[..i + 1]) == Flatten(pieces[..i]) + pieces[i]
    ensures |Flatten(pieces[..i + 1])| <= |Flatten(pieces)|
  {
    assert pieces[..i + 1] == pieces[..i] + [pieces[i]];
    FlattenAppend(pieces[..i], pieces[i]);
    FlattenPrefix(pieces, i + 1);
  }

  /** copy(t[w:], p), of a p that fits */
  method CopyAt(t: array<byte>, w: nat, p: bytes) returns (w1: nat)
    requires w + |p| <= t.Length
    modifies t
    ensures w1 == w + |p| && t[..w1] == old(t[..w]) + p
  {
    forall i | 0 <= i < |p| {
      t[w + i] := p[i];
    }
    return w + |p|;
  }

  /** rest is what is left of s behind its first i bytes. */
  predicate LeftOf(s: bytes, i: nat, rest: bytes) {
    i <= |s| && rest == s[i..]
  }

  lemma LeftTwice(s: bytes, i: nat, mid: bytes, k: nat, rest: bytes)
    requires LeftOf(s, i, mid) && LeftOf(mid, k, rest)
    ensures LeftOf(s, i + k, rest)
  {
    assert s[i..][k..] == s[i + k..];
  }

  lemma LeftAtOnce(s: bytes)
    ensures LeftOf(s, 0, s)
  {
  }

  predicate Ascii(s: bytes) {
    forall c | c in s :: c < 0x80
  }

  lemma AsciiParts(s: bytes, t: bytes)
    ensures Ascii(s + t) <==> Ascii(s) && Ascii(t)
  {
    assert forall c :: c in s + t <==> c in s || c in t;
  }

  function LowerByte(c: byte): byte {
    if 65 <= c <= 90 then c + 32 else c
  }

  /** An upper-case hexadecimal digit. */
  function HexDigit(n: int): byte
    requires 0 <= n < 16
  {
    if n < 10 then 48 + n else 65 + n - 10
  }

  const NL: byte := 10 // '\n'
  const CR: byte := 13 // '\r'

  /** bytes.IndexByte: the first position of c, or -1. */
  function IndexByte(s: bytes, c: byte): (i: int)
    ensures -1 <= i < |s|
    ensures i >= 0 ==> s[i] == c
    ensures forall k | 0 <= k < (if i >= 0 then i else |s|) :: s[k] != c
  {
    if s == [] then -1
    else if s[0] == c then 0
    else
      var i := IndexByte(s[1..], c);
      if i < 0 then -1 else i + 1
  }

  lemma IndexByteUnique(s: bytes, c: byte, i: nat)
    requires i < |s| && s[i] == c && c !in s[..i]
    ensures IndexByte(s, c) == i
  {
    assert forall k | 0 <= k < i :: s[k] == s[..i][k];
  }

  lemma IndexByteAbsent(s: bytes, c: byte)
    ensures IndexByte(s, c) < 0 <==> c !in s
  {
  }

  // ---- Numbers ----

  /** The character for a digit, in either case. */
  predicate IsDigit(c: byte, d: int) {
    (0 <= d < 10 && c == 48 + d) || (10 <= d < 16 && (c == 55 + d || c == 87 + d))
  }

  /** The digits write the number in that base, with or without zeros in front. */
  predicate Writes(digits: bytes, base: int, n: nat)
    requires base > 1
  {
    if digits == [] then n == 0
    else IsDigit(digits[|digits| - 1], n % base) && Writes(digits[..|digits| - 1], base, n / base)
  }

  // ---- Texts made of lines ----

  datatype TextLine = TextLine(body: bytes, crlf: bool)

  /** A body that its end, "\n" or "\r\n", can be told from. */
  predicate IsBody(body: bytes) {
    NL !in body && (body == [] || body[|body| - 1] != CR)
  }

  ghost predicate AreLines(ls: seq<TextLine>) {
    forall i | 0 <= i < |ls| :: IsBody(ls[i].body)
  }

  function LineText(l: TextLine): bytes {
    l.body + if l.crlf then [CR, NL] else [NL]
  }

  /** The lines with their ends, and a last one without. */
  function TextOf(ls: seq<TextLine>, tail: bytes): bytes {
    if ls == [] then tail else LineText(ls[0]) + TextOf(ls[1..], tail)
  }

  function Bodies(ls: seq<TextLine>): seq<bytes> {
    if ls == [] then [] else [ls[0].body] + Bodies(ls[1..])
  }

  /** The first line end of a text that begins with a line. */
  lemma FirstEnd(l: TextLine, rest: bytes)
    requires IsBody(l.body)
    ensures var (s, n) := (LineText(l) + rest, |LineText(l)| - 1);
      && IndexByte(s, NL) == n && s[n + 1..] == rest
      && s[..n] == l.body + (if l.crlf then [CR] else [])
  {
    var (s, n) := (LineText(l) + rest, |LineText(l)| - 1);
    assert forall k | 0 <= k < n :: s[k] == (l.body + [CR])[k];
    IndexByteUnique(s, NL, n);
  }
}
