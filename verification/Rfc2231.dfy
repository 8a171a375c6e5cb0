/** mime/mediatype.go: the parameters of RFC 2231, whose values come in numbered or encoded pieces. */
module Rfc2231 {
  import opened Bytes
  import Search
  import Split

  const STAR: byte := 42 // '*'
  const PERCENT: byte := 37
  const APOSTROPHE: byte := 39
  const US_ASCII: bytes := [117, 115, 45, 97, 115, 99, 105, 105]
  const UTF_8: bytes := [117, 116, 102, 45, 56]

  type Params = map<bytes, bytes>

  // ---- Percent encoding ----

  /** The value of a hexadecimal digit, or -1. */
  function Hex(c: byte): (d: int)
    ensures -1 <= d < 16
  {
    if 48 <= c <= 57 then c - 48
    else if 97 <= c <= 102 then c - 97 + 10
    else if 65 <= c <= 70 then c - 65 + 10
    else -1
  }

  function Prepend(c: byte, o: Option<bytes>): Option<bytes> {
    match o
    case None => None
    case Some(t) => Some([c] + t)
  }

  /** Each "%" and the two digits behind it are a byte; None if a "%" has none. */
  function PercentDecoded(s: bytes): Option<bytes> {
    if s == [] then Some([])
    else if s[0] != PERCENT then Prepend(s[0], PercentDecoded(s[1..]))
    else if |s| < 3 || Hex(s[1]) < 0 || Hex(s[2]) < 0 then None
    else Prepend(Hex(s[1]) * 16 + Hex(s[2]), PercentDecoded(s[3..]))
  }

  /** The number of bytes written with "%" from i on, or -1 if one is malformed. */
  method CountPercents(s: bytes) returns (percents: int)
    ensures PercentDecoded(s).None? <==> percents < 0
    ensures percents >= 0 ==> |PercentDecoded(s).value| == |s| - 2 * percents
  {
    percents := 0;
    var i := 0;
    assert s[0..] == s;
    while i < |s|
      invariant 0 <= i <= |s| && percents >= 0
      invariant PercentDecoded(s).None? <==> PercentDecoded(s[i..]).None?
      invariant PercentDecoded(s).Some? ==>
        |PercentDecoded(s).value| == i - 2 * percents + |PercentDecoded(s[i..]).value|
    {
      assert s[i..][1..] == s[i + 1..];
      if s[i] != PERCENT {
        i := i + 1;
        continue;
      }
      if i + 2 >= |s| || Hex(s[i + 1]) < 0 || Hex(s[i + 2]) < 0 {
        return -1;
      }
      assert s[i..][3..] == s[i + 3..];
      percents := percents + 1;
      i := i + 3;
    }
  }

  /** percentHexUnescape, into a buffer of the length counted before. */
  method PercentHexUnescape(s: bytes) returns (r: Option<bytes>)
    ensures r == PercentDecoded(s)
  {
    var percents := CountPercents(s);
    if percents < 0 {
      return None;
    }
    ghost var whole := PercentDecoded(s).value;
    var t := new byte[|s| - 2 * percents];
    var i, j := 0, 0;
    assert s[0..] == s;
    while i < |s|
      invariant 0 <= i <= |s| && 0 <= j <= t.Length == |whole|
      invariant PercentDecoded(s[i..]) == Some(whole[j..]) && t[..j] == whole[..j]
    {
      var width := if s[i] == PERCENT then 3 else 1;
      assert s[i..][width..] == s[i + width..] by { DecodedWidth(s, i); }
      assert whole[j..] != [] && whole[j..][0] == whole[j] && whole[j..][1..] == whole[j + 1..];
      t[j] := if width == 3 then Hex(s[i + 1]) * 16 + Hex(s[i + 2]) else s[i];
      i, j := i + width, j + 1;
    }
    assert s[i..] == [] && |whole[j..]| == 0;
    assert t[..] == t[..j] && whole == whole[..j];
    return Some(t[..]);
  }

  lemma DecodedWidth(s: bytes, i: nat)
    requires i < |s| && PercentDecoded(s[i..]).Some?
    ensures s[i] == PERCENT ==> i + 3 <= |s|
  {
    assert s[i..][0] == s[i];
  }

  /** decode2231Enc: charset, language and text between apostrophes. */
  function Decode2231(lower: bytes -> bytes, v: bytes): Option<bytes> {
    var sv := Split.Pieces(v, [APOSTROPHE], 3);
    if |sv| != 3 then None
    else
      var charset := lower(sv[0]);
      if charset != US_ASCII && charset != UTF_8 then None else PercentDecoded(sv[2])
  }

  // ---- Numbered pieces ----

  /** fmt's %d, of a number that is not negative. */
  function Decimal(n: nat): (s: bytes)
    ensures s != [] && forall c | c in s :: 48 <= c <= 57
  {
    if n < 10 then [48 + n] else Decimal(n / 10) + [48 + n % 10]
  }

  /** It writes the number in base 10, without zeros in front. */
  lemma {:induction false} DecimalWrites(n: nat)
    ensures Writes(Decimal(n), 10, n) && (n >= 10 ==> Decimal(n)[0] != 48) && (0 < n < 10 ==> Decimal(n)[0] != 48)
  {
    var s := Decimal(n);
    if n >= 10 {
      DecimalWrites(n / 10);
      assert s[..|s| - 1] == Decimal(n / 10) && s[0] == Decimal(n / 10)[0];
    } else {
      assert s[..0] == [];
    }
  }

  lemma {:induction false} DecimalInjective(m: nat, n: nat)
    requires Decimal(m) == Decimal(n)
    ensures m == n
  {
    var (s, k) := (Decimal(m), |Decimal(m)|);
    if m >= 10 && n >= 10 {
      assert s[..k - 1] == Decimal(m / 10) && s[..k - 1] == Decimal(n / 10);
      assert s[k - 1] == 48 + m % 10 && s[k - 1] == 48 + n % 10;
      DecimalInjective(m / 10, n / 10);
    }
  }

  /** The name of piece n: "key*n". */
  function Part(key: bytes, n: nat): bytes {
    key + [STAR] + Decimal(n)
  }

  /** The name under which piece n is there: as it is, or with a "*" behind if it is encoded. */
  function PartName(m: Params, key: bytes, n: nat): Option<bytes> {
    if Part(key, n) in m then Some(Part(key, n))
    else if Part(key, n) + [STAR] in m then Some(Part(key, n) + [STAR])
    else None
  }

  lemma PartNamesDiffer(m: Params, key: bytes, i: nat, j: nat)
    requires i != j && PartName(m, key, i).Some? && PartName(m, key, j).Some?
    ensures PartName(m, key, i) != PartName(m, key, j)
  {
    PartsDiffer(key, i, j);
    hide Part;
  }

  lemma PartsDiffer(key: bytes, i: nat, j: nat)
    ensures i != j ==> Part(key, i) != Part(key, j) && Part(key, i) + [STAR] != Part(key, j) + [STAR]
    ensures Part(key, i) + [STAR] != Part(key, j) && Part(key, i) != Part(key, j) + [STAR]
  {
    var (p, q) := (Part(key, i), Part(key, j));
    var k := |key| + 1;
    assert p[k..] == Decimal(i) && q[k..] == Decimal(j);
    if p == q {
      DecimalInjective(i, j);
    }
    assert p[|p| - 1] == Decimal(i)[|Decimal(i)| - 1] && q[|q| - 1] == Decimal(j)[|Decimal(j)| - 1];
    assert p[|p| - 1] != STAR && q[|q| - 1] != STAR;
    assert (p + [STAR])[..|p|] == p && (q + [STAR])[..|q|] == q;
    assert (p + [STAR])[|p|] == STAR && (q + [STAR])[|q|] == STAR;
  }

  /** Pieces 0 to n - 1 are there. */
  predicate HasPieces(m: Params, key: bytes, n: nat) {
    forall i | 0 <= i < n :: PartName(m, key, i).Some?
  }

  /** There are no more pieces than names. */
  lemma {:induction false} PiecesBounded(m: Params, key: bytes, n: nat) returns (names: set<bytes>)
    requires HasPieces(m, key, n)
    ensures names <= m.Keys && |names| == n
    ensures forall a | a in names :: exists i: nat :: i < n && PartName(m, key, i) == Some(a)
  {
    if n == 0 {
      return {};
    }
    var fewer := PiecesBounded(m, key, n - 1);
    var last := PartName(m, key, n - 1).value;
    if last in fewer {
      var i: nat :| i < n - 1 && PartName(m, key, i) == Some(last);
      PartNamesDiffer(m, key, i, n - 1);
      assert false;
    }
    names := fewer + {last};
  }

  lemma {:induction false} Cardinality(a: set<bytes>, b: set<bytes>)
    requires a <= b
    ensures |a| <= |b|
  {
    if a != {} {
      var x :| x in a;
      Cardinality(a - {x}, b - {x});
    }
  }

  lemma PiecesAtMost(m: Params, key: bytes, n: nat)
    requires HasPieces(m, key, n)
    ensures n <= |m|
  {
    var names := PiecesBounded(m, key, n);
    Cardinality(names, m.Keys);
  }

  /** The number of pieces in unbroken order, from n on. */
  function Missing(m: Params, key: bytes, n: nat): (k: nat)
    requires n <= |m| && HasPieces(m, key, n)
    ensures HasPieces(m, key, k) && PartName(m, key, k).None?
    decreases |m| - n
  {
    if PartName(m, key, n).None? then n
    else
      PiecesAtMost(m, key, n + 1);
      Missing(m, key, n + 1)
  }

  lemma MissingUnique(m: Params, key: bytes, k: nat)
    requires HasPieces(m, key, k) && PartName(m, key, k).None?
    ensures Missing(m, key, 0) == k
  {
    var j := Missing(m, key, 0);
    hide PartName, Missing;
  }

  /** What piece n adds: its text, decoded if it is encoded, and nothing if that fails. */
  function PieceText(lower: bytes -> bytes, m: Params, key: bytes, n: nat): bytes
    requires PartName(m, key, n).Some?
  {
    var v := m[PartName(m, key, n).value];
    if Part(key, n) in m then v
    else
      var decoded := if n == 0 then Decode2231(lower, v) else PercentDecoded(v);
      if decoded.Some? then decoded.value else []
  }

  function Joined(lower: bytes -> bytes, m: Params, key: bytes, n: nat): bytes
    requires HasPieces(m, key, n)
  {
    if n == 0 then [] else Joined(lower, m, key, n - 1) + PieceText(lower, m, key, n - 1)
  }

  /** The value that the pieces of key give, if they give one. */
  function Stitched(lower: bytes -> bytes, m: Params, key: bytes): Option<bytes> {
    if key + [STAR] in m then Decode2231(lower, m[key + [STAR]])
    else if Missing(m, key, 0) == 0 then None
    else Some(Joined(lower, m, key, Missing(m, key, 0)))
  }

  /** The parameters, with those put together from pieces in front. */
  function Stitch(lower: bytes -> bytes, params: Params, pieces: map<bytes, Params>): Params {
    map k | k in params.Keys + pieces.Keys && (k in params || Stitched(lower, pieces[k], k).Some?) ::
      if k in pieces && Stitched(lower, pieces[k], k).Some? then Stitched(lower, pieces[k], k).value else params[k]
  }

  lemma NothingToStitch(lower: bytes -> bytes, params: Params)
    ensures Stitch(lower, params, map[]) == params
  {
  }

  /** The value of one key: the loop over n ends at the first piece that is not there. */
  method StitchOne(lower: bytes -> bytes, m: Params, key: bytes) returns (r: Option<bytes>)
    ensures r == Stitched(lower, m, key)
  {
    hide PieceText, Decode2231, Part, PartName, Missing;
    if key + [STAR] in m {
      return Decode2231(lower, m[key + [STAR]]);
    }
    var buf: bytes := [];
    var valid := false;
    var n := 0;
    while PartName(m, key, n).Some?
      invariant HasPieces(m, key, n) && n <= |m| && valid == (n > 0)
      invariant buf == Joined(lower, m, key, n)
      decreases |m| - n
    {
      PiecesAtMost(m, key, n + 1);
      valid := true;
      buf := buf + PieceText(lower, m, key, n);
      n := n + 1;
    }
    MissingUnique(m, key, n);
    return if valid then Some(buf) else None;
  }

  /** The last loop of ParseMediaType: the keys come in any order. */
  method StitchAll(lower: bytes -> bytes, params0: Params, pieces: map<bytes, Params>) returns (params: Params)
    ensures params == Stitch(lower, params0, pieces)
  {
    hide *;
    params := params0;
    var left := pieces.Keys;
    StitchStarts(lower, params0, pieces);
    while left != {}
      invariant left <= pieces.Keys && params == Stitch(lower, params0, Except(pieces, left))
      decreases left
    {
      var key :| key in left;
      var v := StitchOne(lower, pieces[key], key);
      StitchNext(lower, params0, pieces, left, key);
      if v.Some? {
        params := params[key := v.value];
      }
      left := left - {key};
    }
    StitchEnds(pieces);
  }

  /** The pieces of the keys not in left. */
  function Except(pieces: map<bytes, Params>, left: set<bytes>): map<bytes, Params> {
    map k | k in pieces && k !in left :: pieces[k]
  }

  lemma StitchStarts(lower: bytes -> bytes, params: Params, pieces: map<bytes, Params>)
    ensures Stitch(lower, params, Except(pieces, pieces.Keys)) == params
  {
    assert Except(pieces, pieces.Keys) == map[];
    NothingToStitch(lower, params);
  }

  lemma StitchEnds(pieces: map<bytes, Params>)
    ensures Except(pieces, {}) == pieces
  {
  }

  lemma StitchNext(lower: bytes -> bytes, params: Params, pieces: map<bytes, Params>, left: set<bytes>, key: bytes)
    requires key in left && left <= pieces.Keys
    ensures var before := Stitch(lower, params, Except(pieces, left)); var v := Stitched(lower, pieces[key], key);
      Stitch(lower, params, Except(pieces, left - {key})) == if v.Some? then before[key := v.value] else before
  {
    var (p, q) := (Except(pieces, left), Except(pieces, left - {key}));
    assert q == p[key := pieces[key]] && key !in p;
    hide Stitched, Except;
    StitchMore(lower, params, p, key, pieces[key]);
  }

  lemma StitchMore(lower: bytes -> bytes, params: Params, pieces: map<bytes, Params>, key: bytes, m: Params)
    requires key !in pieces
    ensures var before := Stitch(lower, params, pieces); var v := Stitched(lower, m, key);
      Stitch(lower, params, pieces[key := m]) == if v.Some? then before[key := v.value] else before
  {
    hide Stitched;
  }

  // ---- The round trip ----

  predicate LetterOrDigit(c: byte) {
    48 <= c <= 57 || 65 <= c <= 90 || 97 <= c <= 122
  }

  function PercentByte(c: byte): bytes {
    if LetterOrDigit(c) then [c] else [PERCENT, HexDigit(c / 16), HexDigit(c % 16)]
  }

  /** A text with everything but letters and digits written with "%". */
  function PercentText(s: bytes): bytes {
    if s == [] then [] else PercentByte(s[0]) + PercentText(s[1..])
  }

  lemma {:induction false} PercentReadBack(s: bytes)
    ensures PercentDecoded(PercentText(s)) == Some(s)
  {
    if s != [] {
      var (p, rest) := (PercentByte(s[0]), PercentText(s[1..]));
      PercentReadBack(s[1..]);
      assert (p + rest)[..|p|] == p && (p + rest)[|p|..] == rest;
      assert [s[0]] + s[1..] == s;
      PercentByteReadBack(s[0], rest);
    }
  }

  lemma PercentByteReadBack(c: byte, rest: bytes)
    ensures PercentDecoded(PercentByte(c) + rest) == Prepend(c, PercentDecoded(rest))
  {
    var (p, s) := (PercentByte(c), PercentByte(c) + rest);
    assert s[|p|..] == rest && forall i | 0 <= i < |p| :: s[i] == p[i];
  }

  /** A part of a value, as it is or percent-encoded. */
  datatype Piece = Piece(encoded: bool, chunk: bytes)

  function PieceKey(key: bytes, n: nat, encoded: bool): bytes {
    Part(key, n) + if encoded then [STAR] else []
  }

  /** The first piece, if it is encoded, begins with the charset and an empty language. */
  function PieceValue(n: nat, p: Piece): bytes {
    if !p.encoded then p.chunk
    else if n == 0 then UTF_8 + [APOSTROPHE] + ([] + [APOSTROPHE] + PercentText(p.chunk))
    else PercentText(p.chunk)
  }

  /** The parameters "key*0", "key*1*" and so on. */
  function PieceMap(key: bytes, ps: seq<Piece>): Params {
    if ps == [] then map[]
    else
      var n := |ps| - 1;
      PieceMap(key, ps[..n])[PieceKey(key, n, ps[n].encoded) := PieceValue(n, ps[n])]
  }

  function Whole(ps: seq<Piece>): bytes {
    if ps == [] then [] else Whole(ps[..|ps| - 1]) + ps[|ps| - 1].chunk
  }

  lemma KeysDiffer(key: bytes, i: nat, e: bool, j: nat, f: bool)
    ensures PieceKey(key, i, e) == PieceKey(key, j, f) <==> i == j && e == f
    ensures PieceKey(key, i, e) != key + [STAR]
  {
    PartsDiffer(key, i, j);
    var p := Part(key, i);
    assert |p| > |key| + 1 && p + [] == p && Part(key, j) + [] == Part(key, j);
    hide Part;
  }

  /** What the map holds under the names of the pieces. */
  lemma {:induction false} InMap(key: bytes, ps: seq<Piece>, n: nat, e: bool)
    ensures var m := PieceMap(key, ps);
      && (PieceKey(key, n, e) in m <==> n < |ps| && ps[n].encoded == e)
      && (n < |ps| && ps[n].encoded == e ==> m[PieceKey(key, n, e)] == PieceValue(n, ps[n]))
      && key + [STAR] !in m
    decreases |ps|
  {
    if ps != [] {
      var k := |ps| - 1;
      InMap(key, ps[..k], n, e);
      KeysDiffer(key, n, e, k, ps[k].encoded);
      KeysDiffer(key, k, ps[k].encoded, k, ps[k].encoded);
      hide PieceKey, PieceValue;
    }
  }

  lemma PieceNamed(key: bytes, ps: seq<Piece>, n: nat)
    ensures PartName(PieceMap(key, ps), key, n) == if n < |ps| then Some(PieceKey(key, n, ps[n].encoded)) else None
    ensures Part(key, n) in PieceMap(key, ps) <==> n < |ps| && !ps[n].encoded
  {
    InMap(key, ps, n, false);
    InMap(key, ps, n, true);
    assert Part(key, n) + [] == Part(key, n);
    hide PieceMap, Part;
  }

  lemma CharsetCut(charset: bytes, lang: bytes, t: bytes)
    requires APOSTROPHE !in charset && APOSTROPHE !in lang
    ensures Split.Pieces(charset + [APOSTROPHE] + (lang + [APOSTROPHE] + t), [APOSTROPHE], 3) == [charset, lang, t]
  {
    var (sep, rest) := ([APOSTROPHE], lang + [APOSTROPHE] + t);
    Search.FindAfter(charset, sep, rest);
    Search.FindAfter(lang, sep, t);
    Split.CutOne(charset, rest, sep, 1);
    Split.CutOne(lang, t, sep, 0);
    Split.CutStops(t, sep, false, 0);
  }

  /** An encoded value is decoded if its charset is one of the two in whatever case, whatever its language. */
  lemma CharsetDecoded(lower: bytes -> bytes, charset: bytes, lang: bytes, t: bytes)
    requires APOSTROPHE !in charset && APOSTROPHE !in lang
    ensures Decode2231(lower, charset + [APOSTROPHE] + (lang + [APOSTROPHE] + t))
      == if lower(charset) == US_ASCII || lower(charset) == UTF_8 then PercentDecoded(t) else None
  {
    CharsetCut(charset, lang, t);
    hide Split.Pieces, PercentDecoded;
  }

  /** The two digits behind "%" may be in either case. */
  lemma EscapeRead(a: byte, d: int, b: byte, e: int, rest: bytes)
    requires IsDigit(a, d) && IsDigit(b, e)
    ensures PercentDecoded([PERCENT, a, b] + rest) == Prepend((16 * d + e) as byte, PercentDecoded(rest))
  {
    assert ([PERCENT, a, b] + rest)[3..] == rest;
  }

  /** And must both be digits. */
  lemma EscapeRefused(a: byte, b: byte, rest: bytes)
    requires !(exists d :: IsDigit(a, d)) || !(exists d :: IsDigit(b, d))
    ensures PercentDecoded([PERCENT, a, b] + rest) == None
  {
    assert IsDigit(a, Hex(a)) || Hex(a) < 0;
    assert IsDigit(b, Hex(b)) || Hex(b) < 0;
  }

  lemma EncodedReadBack(lower: bytes -> bytes, s: bytes)
    requires lower(UTF_8) == UTF_8
    ensures Decode2231(lower, PieceValue(0, Piece(true, s))) == Some(s)
  {
    CharsetCut(UTF_8, [], PercentText(s));
    PercentReadBack(s);
    hide Split.Pieces, PercentText, PercentDecoded;
  }

  lemma PieceReadBack(lower: bytes -> bytes, key: bytes, ps: seq<Piece>, n: nat)
    requires lower(UTF_8) == UTF_8 && n < |ps|
    ensures PartName(PieceMap(key, ps), key, n).Some?
    ensures PieceText(lower, PieceMap(key, ps), key, n) == ps[n].chunk
  {
    PieceNamed(key, ps, n);
    InMap(key, ps, n, ps[n].encoded);
    PercentReadBack(ps[n].chunk);
    if n == 0 {
      EncodedReadBack(lower, ps[n].chunk);
    }
    hide PieceMap, PieceKey, PartName, Decode2231, PercentDecoded, PercentText;
  }

  lemma {:induction false} JoinedBack(lower: bytes -> bytes, key: bytes, ps: seq<Piece>, n: nat)
    requires lower(UTF_8) == UTF_8 && n <= |ps|
    ensures HasPieces(PieceMap(key, ps), key, n) && Joined(lower, PieceMap(key, ps), key, n) == Whole(ps[..n])
  {
    hide PieceMap, PieceText, PartName;
    if n > 0 {
      JoinedBack(lower, key, ps, n - 1);
      PieceReadBack(lower, key, ps, n - 1);
      assert ps[..n][..n - 1] == ps[..n - 1];
    }
  }

  /** A value cut into any pieces, any of them encoded, is put together again. */
  lemma StitchPieces(lower: bytes -> bytes, key: bytes, ps: seq<Piece>)
    requires lower(UTF_8) == UTF_8 && ps != []
    ensures Stitched(lower, PieceMap(key, ps), key) == Some(Whole(ps))
  {
    JoinedBack(lower, key, ps, |ps|);
    PieceNamed(key, ps, |ps|);
    InMap(key, ps, 0, false);
    hide PieceMap, PartName, HasPieces, Missing, Joined, Whole;
    MissingUnique(PieceMap(key, ps), key, |ps|);
    assert ps[..|ps|] == ps;
  }

  /** And so is one that is encoded in one piece, "key*". */
  lemma StitchOnePiece(lower: bytes -> bytes, key: bytes, s: bytes)
    requires lower(UTF_8) == UTF_8
    ensures Stitched(lower, map[key + [STAR] := PieceValue(0, Piece(true, s))], key) == Some(s)
  {
    EncodedReadBack(lower, s);
    hide Decode2231, PieceValue;
  }
}
