/** unicode/utf8/utf8.go: encoding and decoding one rune (RFC 3629 section 3). */
module Utf8 {
  import opened Bytes
  import Powers

  const RUNE_ERROR := 0xFFFD
  const RUNE_SELF := 0x80
  const MAX_RUNE := 0x10FFFF
  const UTF_MAX := 4

  /** The length the first byte announces: 1 for ASCII and for bytes that start no rune. */
  function Announced(b: byte): (n: nat)
    ensures 1 <= n <= UTF_MAX
  {
    if 0xC2 <= b <= 0xDF then 2 else if 0xE0 <= b <= 0xEF then 3 else if 0xF0 <= b <= 0xF4 then 4 else 1
  }

  /** acceptRanges: the second bytes that may follow, which shut out overlong forms and surrogates. */
  predicate SecondOk(first: byte, second: byte) {
    (if first == 0xE0 then 0xA0 else if first == 0xF0 then 0x90 else 0x80) <= second
    && second <= (if first == 0xED then 0x9F else if first == 0xF4 then 0x8F else 0xBF)
  }

  predicate Continuation(b: byte) {
    0x80 <= b <= 0xBF
  }

  function FullRune(p: bytes): bool {
    if |p| == 0 then false
    else if |p| >= Announced(p[0]) then true
    else if |p| > 1 && !SecondOk(p[0], p[1]) then true
    else |p| > 2 && !Continuation(p[2])
  }

  /** b & maskx */
  function Low6(b: byte): (x: int)
    ensures 0 <= x < 0x40
  {
    b % 0x40
  }

  function DecodeRune(p: bytes): (d: (int, nat))
    ensures d.1 <= |p| && d.1 <= UTF_MAX && (p != [] ==> d.1 > 0)
    ensures 0 <= d.0 <= MAX_RUNE
  {
    if |p| < 1 then (RUNE_ERROR, 0)
    else
      var (p0: int, sz) := (p[0], Announced(p[0]));
      if p0 < RUNE_SELF then (p0, 1)
      else if sz == 1 || |p| < sz || !SecondOk(p0, p[1]) then (RUNE_ERROR, 1)
      else if sz == 2 then (p0 % 0x20 * 0x40 + Low6(p[1]), 2)
      else if !Continuation(p[2]) then (RUNE_ERROR, 1)
      else if sz == 3 then (p0 % 0x10 * 0x1000 + Low6(p[1]) * 0x40 + Low6(p[2]), 3)
      else if !Continuation(p[3]) then (RUNE_ERROR, 1)
      else (p0 % 8 * 0x40000 + Low6(p[1]) * 0x1000 + Low6(p[2]) * 0x40 + Low6(p[3]), 4)
  }

  predicate ValidRune(r: int) {
    0 <= r < 0xD800 || 0xE000 <= r <= MAX_RUNE
  }

  /** EncodeRune of an int32; anything but a valid rune is written as U+FFFD. */
  function EncodeRune(r: int): (p: bytes)
    ensures 1 <= |p| <= UTF_MAX
  {
    if !ValidRune(r) then [0xEF, 0xBF, 0xBD]
    else if r <= 0x7F then [r]
    else if r <= 0x7FF then [0xC0 + r / 0x40, 0x80 + r % 0x40]
    else if r <= 0xFFFF then [0xE0 + r / 0x1000, 0x80 + r / 0x40 % 0x40, 0x80 + r % 0x40]
    else [0xF0 + r / 0x40000, 0x80 + r / 0x1000 % 0x40, 0x80 + r / 0x40 % 0x40, 0x80 + r % 0x40]
  }

  /** Once the bytes hold a full rune, more bytes do not change what is decoded. */
  lemma FullRuneDecodes(p: bytes, ext: bytes)
    requires FullRune(p)
    ensures DecodeRune(p + ext) == DecodeRune(p) && FullRune(p + ext)
  {
    assert forall i | 0 <= i < |p| :: (p + ext)[i] == p[i];
  }

  /** The rune whose groups of six bits, the topmost first, are a, b, c and d. */
  function Rune(a: int, b: int, c: int, d: int): int {
    a * 0x40000 + b * 0x1000 + c * 0x40 + d
  }

  predicate Groups(a: int, b: int, c: int, d: int) {
    0 <= a < 8 && 0 <= b < 0x40 && 0 <= c < 0x40 && 0 <= d < 0x40
  }

  lemma GroupsUnique(r: int, a: int, b: int, c: int, d: int)
    requires Groups(a, b, c, d) && r == Rune(a, b, c, d)
    ensures r / 0x40000 == a && r / 0x1000 % 0x40 == b && r / 0x40 % 0x40 == c && r % 0x40 == d
    ensures r / 0x1000 == a * 0x40 + b && r / 0x40 == (a * 0x40 + b) * 0x40 + c
  {
    var upper := a * 0x40 + b;
    Powers.DivisionUnique(r, 0x40, upper * 0x40 + c, d);
    Powers.DivisionUnique(upper * 0x40 + c, 0x40, upper, c);
    Powers.DivisionUnique(r, 0x1000, upper, c * 0x40 + d);
    Powers.DivisionUnique(upper, 0x40, a, b);
    Powers.DivisionUnique(r, 0x40000, a, b * 0x1000 + c * 0x40 + d);
  }

  lemma GroupsExist(r: int) returns (a: int, b: int, c: int, d: int)
    requires 0 <= r <= MAX_RUNE
    ensures Groups(a, b, c, d) && r == Rune(a, b, c, d)
  {
    d := r % 0x40;
    var r1 := r / 0x40;
    c := r1 % 0x40;
    var r2 := r1 / 0x40;
    b, a := r2 % 0x40, r2 / 0x40;
    assert r == r1 * 0x40 + d && r1 == r2 * 0x40 + c && r2 == a * 0x40 + b;
  }

  lemma Low6Of(x: int)
    requires 0 <= x < 0x40
    ensures Low6(0x80 + x) == x
  {
    Powers.DivisionUnique(0x80 + x, 0x40, 2, x);
  }

  lemma Decode2(c: int, d: int, rest: bytes)
    requires Groups(0, 0, c, d) && 0x7F < Rune(0, 0, c, d) <= 0x7FF
    ensures DecodeRune([0xC0 + c, 0x80 + d] + rest) == (Rune(0, 0, c, d), 2)
  {
    hide DecodeRune;
    var p := [0xC0 + c, 0x80 + d] + rest;
    assert p[0] == 0xC0 + c && p[1] == 0x80 + d;
    TwoBytes(p, c, d);
  }

  lemma TwoBytes(p: bytes, c: int, d: int)
    requires |p| >= 2 && 2 <= c < 0x20 && 0 <= d < 0x40 && p[0] == 0xC0 + c && p[1] == 0x80 + d
    ensures DecodeRune(p) == (c * 0x40 + d, 2)
  {
    Powers.DivisionUnique(p[0], 0x20, 6, c);
    Low6Of(d);
    hide Low6;
  }

  lemma Decode3(b: int, c: int, d: int, rest: bytes)
    requires Groups(0, b, c, d) && 0x7FF < Rune(0, b, c, d) <= 0xFFFF && ValidRune(Rune(0, b, c, d))
    ensures DecodeRune([0xE0 + b, 0x80 + c, 0x80 + d] + rest) == (Rune(0, b, c, d), 3)
  {
    Powers.DivisionUnique(0xE0 + b, 0x10, 14, b);
    Low6Of(c);
    Low6Of(d);
    hide Low6;
    var p := [0xE0 + b, 0x80 + c, 0x80 + d] + rest;
    assert p[0] == 0xE0 + b && p[1] == 0x80 + c && p[2] == 0x80 + d;
  }

  lemma Decode4(a: int, b: int, c: int, d: int, rest: bytes)
    requires Groups(a, b, c, d) && 0xFFFF < Rune(a, b, c, d) <= MAX_RUNE
    ensures DecodeRune([0xF0 + a, 0x80 + b, 0x80 + c, 0x80 + d] + rest) == (Rune(a, b, c, d), 4)
  {
    Powers.DivisionUnique(0xF0 + a, 8, 30, a);
    Low6Of(b);
    Low6Of(c);
    Low6Of(d);
    hide Low6;
    var p := [0xF0 + a, 0x80 + b, 0x80 + c, 0x80 + d] + rest;
    assert p[0] == 0xF0 + a && p[1] == 0x80 + b && p[2] == 0x80 + c && p[3] == 0x80 + d;
  }

  /** Decoding undoes encoding, whatever follows. */
  lemma DecodeEncode(r: int, rest: bytes)
    requires ValidRune(r)
    ensures DecodeRune(EncodeRune(r) + rest) == (r, |EncodeRune(r)|)
  {
    var a, b, c, d := GroupsExist(r);
    GroupsUnique(r, a, b, c, d);
    var p := EncodeRune(r);
    if r <= 0x7F {
      assert p == [r] && (p + rest)[0] == r;
    } else if r <= 0x7FF {
      assert p == [0xC0 + c, 0x80 + d];
      hide *;
      Decode2(c, d, rest);
    } else if r <= 0xFFFF {
      assert p == [0xE0 + b, 0x80 + c, 0x80 + d];
      hide *;
      Decode3(b, c, d, rest);
    } else {
      assert p == [0xF0 + a, 0x80 + b, 0x80 + c, 0x80 + d];
      hide *;
      Decode4(a, b, c, d, rest);
    }
  }

  // ---- What is decoded ----

  lemma Low6Back(b: byte)
    requires Continuation(b)
    ensures b == 0x80 + Low6(b)
  {
    Powers.DivisionUnique(b, 0x40, 2, b - 0x80);
  }

  lemma Encode2(c: int, d: int)
    requires Groups(0, 0, c, d) && 2 <= c < 0x20
    ensures var r := c * 0x40 + d; 0x80 <= r && ValidRune(r) && EncodeRune(r) == [0xC0 + c, 0x80 + d]
  {
    GroupsUnique(c * 0x40 + d, 0, 0, c, d);
  }

  lemma Encode3(b: int, c: int, d: int)
    requires Groups(0, b, c, d) && b < 0x10 && (b == 0 ==> c >= 0x20) && (b == 0xD ==> c < 0x20)
    ensures var r := b * 0x1000 + c * 0x40 + d;
      0x80 <= r && ValidRune(r) && EncodeRune(r) == [0xE0 + b, 0x80 + c, 0x80 + d]
  {
    GroupsUnique(b * 0x1000 + c * 0x40 + d, 0, b, c, d);
  }

  lemma Encode4(a: int, b: int, c: int, d: int)
    requires Groups(a, b, c, d) && a <= 4 && (a == 0 ==> b >= 0x10) && (a == 4 ==> b < 0x10)
    ensures var r := a * 0x40000 + b * 0x1000 + c * 0x40 + d;
      0x80 <= r && ValidRune(r) && EncodeRune(r) == [0xF0 + a, 0x80 + b, 0x80 + c, 0x80 + d]
  {
    GroupsUnique(a * 0x40000 + b * 0x1000 + c * 0x40 + d, a, b, c, d);
  }

  predicate IsLongRune(r: int, p: bytes) {
    0x80 <= r && ValidRune(r) && p == EncodeRune(r)
  }

  lemma LongRune2(s: bytes)
    requires s != [] && DecodeRune(s).1 == 2
    ensures IsLongRune(DecodeRune(s).0, s[..2])
  {
    hide EncodeRune, Low6, ValidRune;
    Low6Back(s[1]);
    Powers.DivisionUnique(s[0], 0x20, 6, s[0] - 0xC0);
    Encode2(s[0] - 0xC0, Low6(s[1]));
    assert s[..2] == [s[0], s[1]];
  }

  lemma LongRune3(s: bytes)
    requires s != [] && DecodeRune(s).1 == 3
    ensures IsLongRune(DecodeRune(s).0, s[..3])
  {
    hide EncodeRune, Low6, ValidRune;
    Low6Back(s[1]);
    Low6Back(s[2]);
    Powers.DivisionUnique(s[0], 0x10, 14, s[0] - 0xE0);
    Encode3(s[0] - 0xE0, Low6(s[1]), Low6(s[2]));
    assert s[..3] == [s[0], s[1], s[2]];
  }

  lemma LongRune4(s: bytes)
    requires s != [] && DecodeRune(s).1 == 4
    ensures IsLongRune(DecodeRune(s).0, s[..4])
  {
    hide EncodeRune, Low6, ValidRune;
    Low6Back(s[1]);
    Low6Back(s[2]);
    Low6Back(s[3]);
    Powers.DivisionUnique(s[0], 8, 30, s[0] - 0xF0);
    Encode4(s[0] - 0xF0, Low6(s[1]), Low6(s[2]), Low6(s[3]));
    assert s[..4] == [s[0], s[1], s[2], s[3]];
  }

  /** What several bytes are decoded to is what they encode. */
  lemma LongRune(s: bytes)
    requires s != [] && DecodeRune(s).1 > 1
    ensures IsLongRune(DecodeRune(s).0, s[..DecodeRune(s).1])
  {
    hide DecodeRune, IsLongRune;
    match DecodeRune(s).1
    case 2 => LongRune2(s);
    case 3 => LongRune3(s);
    case _ => LongRune4(s);
  }

  /** What a text decodes to: an ASCII byte, the one rune whose encoding it begins with, or else U+FFFD
      for a single byte. */
  lemma FirstRuneDecoded(s: bytes)
    requires s != []
    ensures var (r, n) := (DecodeRune(s).0, DecodeRune(s).1);
      && (s[0] < 0x80 ==> r == s[0] && n == 1)
      && (n > 1 ==> IsLongRune(r, s[..n]))
      && (s[0] >= 0x80 && n == 1 ==> r == 0xFFFD && forall v | ValidRune(v) :: !(EncodeRune(v) <= s))
  {
    if DecodeRune(s).1 > 1 {
      LongRune(s);
    } else if s[0] >= 0x80 {
      forall v | ValidRune(v)
        ensures !(EncodeRune(v) <= s)
      {
        if EncodeRune(v) <= s {
          BeginsWith(s, v);
        }
      }
    }
  }

  lemma BeginsWith(s: bytes, v: int)
    requires ValidRune(v) && EncodeRune(v) <= s
    ensures DecodeRune(s) == (v, |EncodeRune(v)|) && s[0] == EncodeRune(v)[0]
    ensures |EncodeRune(v)| == 1 ==> EncodeRune(v) == [v] && v < 0x80
  {
    DecodeEncode(v, s[|EncodeRune(v)|..]);
    assert EncodeRune(v) + s[|EncodeRune(v)|..] == s;
  }

  /** A rune that ends within a prefix is decoded from that alone. */
  lemma RuneInPrefix(s: bytes, n: nat)
    requires s != [] && DecodeRune(s).1 <= n <= |s|
    ensures DecodeRune(s[..n]) == DecodeRune(s)
  {
  }

  // ---- Whole texts ----

  /** The runes of a text, decoded at once: each bad byte is U+FFFD. With whole, a rune that the end
      of the text cuts off is decoded byte by byte; otherwise it is dropped. */
  function Runes(s: bytes, whole: bool): seq<int> {
    if s == [] || (!whole && !FullRune(s)) then []
    else [DecodeRune(s).0] + Runes(s[DecodeRune(s).1..], whole)
  }

  /** The last bytes of s are the beginning of a rune that does not end in it. */
  predicate CutOff(s: bytes) {
    exists j :: 0 <= j < |s| && |s| - j < UTF_MAX && !FullRune(s[j..])
  }

  /** Dropping an unfinished rune makes a difference exactly if the text ends in one. */
  lemma {:induction false} DroppedRune(s: bytes)
    ensures Runes(s, false) == Runes(s, true) <==> !CutOff(s)
  {
    if s == [] {
    } else if !FullRune(s) {
      assert s[0..] == s;
    } else {
      var w := DecodeRune(s).1;
      DroppedRune(s[w..]);
      CutOffBehind(s, w);
      assert Runes(s, false)[1..] == Runes(s[w..], false) && Runes(s, true)[1..] == Runes(s[w..], true);
    }
  }

  /** No unfinished rune starts inside a rune. */
  lemma CutOffBehind(s: bytes, w: nat)
    requires s != [] && FullRune(s) && w == DecodeRune(s).1
    ensures CutOff(s) <==> CutOff(s[w..])
  {
    hide DecodeRune, FullRune;
    var rest := s[w..];
    if CutOff(s) {
      var j :| 0 <= j < |s| && |s| - j < UTF_MAX && !FullRune(s[j..]);
      StartsOutside(s, w, j);
      assert rest[j - w..] == s[j..];
    }
    if CutOff(rest) {
      var j :| 0 <= j < |rest| && |rest| - j < UTF_MAX && !FullRune(rest[j..]);
      assert s[j + w..] == rest[j..];
    }
  }

  lemma StartsOutside(s: bytes, w: nat, j: nat)
    requires j < |s| && FullRune(s) && w == DecodeRune(s).1 && !FullRune(s[j..])
    ensures j >= w
  {
    assert s[j..][0] == s[j] && Announced(s[j]) > 1;
    assert s[0..] == s;
  }

  /** The text the runes are written as. */
  function Encoded(runes: seq<int>): bytes {
    if runes == [] then [] else EncodeRune(runes[0]) + Encoded(runes[1..])
  }

  /** Every text made of encoded runes is read back as those runes. */
  lemma {:induction false} RunesOfEncoded(runes: seq<int>, whole: bool)
    requires forall r | r in runes :: ValidRune(r)
    ensures Runes(Encoded(runes), whole) == runes
  {
    if runes != [] {
      var (p, rest) := (EncodeRune(runes[0]), Encoded(runes[1..]));
      assert runes[0] in runes;
      DecodeEncode(runes[0], rest);
      assert (p + rest)[|p|..] == rest;
      RunesOfEncoded(runes[1..], whole);
    }
  }

  lemma {:induction false} EncodedAppend(runes: seq<int>, r: int)
    ensures Encoded(runes + [r]) == Encoded(runes) + EncodeRune(r)
  {
    if runes == [] {
      assert [] + [r] == [r] && [r][1..] == [];
      assert EncodeRune(r) + [] == [] + EncodeRune(r);
    } else {
      assert (runes + [r])[1..] == runes[1..] + [r];
      EncodedAppend(runes[1..], r);
      hide EncodeRune;
    }
  }

  /** Only ASCII is written as ASCII, and that as it is. */
  lemma {:induction false} EncodedAscii(runes: seq<int>)
    ensures Ascii(Encoded(runes)) ==> Encoded(runes) == runes
  {
    if runes != [] && Ascii(Encoded(runes)) {
      var (p, rest) := (EncodeRune(runes[0]), Encoded(runes[1..]));
      OneAscii(runes[0]);
      hide EncodeRune, Encoded;
      AsciiParts(p, rest);
      EncodedAscii(runes[1..]);
      assert runes == [runes[0]] + runes[1..];
    }
  }

  lemma OneAscii(r: int)
    ensures Ascii(EncodeRune(r)) ==> EncodeRune(r) == [r]
  {
    assert EncodeRune(r)[0] in EncodeRune(r);
  }
}
