/** mime/mediatype.go and mime/grammar.go: formatting and parsing media types with parameters. */
module MediaType {
  import opened Bytes
  import Utf8
  import Rfc2231

  const SEMI: byte := 59 // ';'
  const SPACE: byte := 32
  const EQ: byte := 61 // '='
  const QUOTE: byte := 34 // '"'
  const BACKSLASH: byte := 92
  const SLASH: byte := 47
  const STAR: byte := 42

  // ---- The token grammar ----

  const TSPECIALS: set<byte> := {40, 41, 60, 62, 64, 44, 59, 58, 92, 34, 47, 91, 93, 63, 61}

  predicate IsTokenChar(c: byte) {
    0x20 < c < 0x7f && c !in TSPECIALS
  }

  predicate IsToken(s: bytes) {
    s != [] && forall c | c in s :: IsTokenChar(c)
  }

  /** The characters of a token as RFC 2045 section 5.1 leaves them: no space, control or special character. */
  predicate InToken(c: byte) {
    || 48 <= c <= 57 || 65 <= c <= 90 || 97 <= c <= 122
    || c == 33 || 35 <= c <= 39 || c == 42 || c == 43 || c == 45 || c == 46 // ! #$%&' * + - .
    || 94 <= c <= 96 || 123 <= c <= 126 // ^_` {|}~
  }

  lemma TokenCharacters(c: byte)
    ensures IsTokenChar(c) <==> InToken(c)
  {
  }

  /** The end of the longest token s starts with. */
  function TokenEnd(s: bytes): (n: nat)
    ensures n <= |s| && (n < |s| ==> !IsTokenChar(s[n]))
    ensures forall i | 0 <= i < n :: IsTokenChar(s[i])
  {
    if s == [] || !IsTokenChar(s[0]) then 0 else 1 + TokenEnd(s[1..])
  }

  lemma {:induction false} TokenEndIs(token: bytes, rest: bytes)
    requires forall c | c in token :: IsTokenChar(c)
    requires rest == [] || !IsTokenChar(rest[0])
    ensures TokenEnd(token + rest) == |token|
  {
    if token == [] {
      assert token + rest == rest;
    } else {
      assert (token + rest)[1..] == token[1..] + rest;
      TokenEndIs(token[1..], rest);
    }
  }

  // ---- Spaces ----

  /** unicode.IsSpace */
  predicate IsSpace(r: int) {
    9 <= r <= 13 || r == 32 || r == 0x85 || r == 0xA0 || r == 0x1680 || 0x2000 <= r <= 0x200a
    || r == 0x2028 || r == 0x2029 || r == 0x202f || r == 0x205f || r == 0x3000
  }

  function TrimLeft(s: bytes): (t: bytes)
    ensures |t| <= |s|
  {
    if s != [] && IsSpace(Utf8.DecodeRune(s).0) then TrimLeft(s[Utf8.DecodeRune(s).1..]) else s
  }

  /** utf8.DecodeLastRune */
  function LastRune(s: bytes): (d: (int, nat))
    ensures d.1 <= |s| && (s != [] ==> d.1 > 0)
  {
    if s == [] then (Utf8.RUNE_ERROR, 0)
    else if s[|s| - 1] < Utf8.RUNE_SELF then (s[|s| - 1], 1)
    else
      var start := RuneStart(s, |s| - 2, if |s| > Utf8.UTF_MAX then |s| - Utf8.UTF_MAX else 0);
      var d := Utf8.DecodeRune(s[start..]);
      if start + d.1 != |s| then (Utf8.RUNE_ERROR, 1) else d
  }

  /** The last place at or before i, but not before lim, of a byte that may start a rune; or just before lim. */
  function RuneStart(s: bytes, i: int, lim: nat): (start: nat)
    requires -1 <= i < |s| && lim <= i + 1
    ensures start <= if i < 0 then 0 else i
    decreases i + 1
  {
    if i < lim then (if i < 0 then 0 else i)
    else if !Utf8.Continuation(s[i]) then i
    else RuneStart(s, i - 1, lim)
  }

  function TrimRight(s: bytes): (t: bytes)
    ensures |t| <= |s|
  {
    if s != [] && IsSpace(LastRune(s).0) then TrimRight(s[..|s| - LastRune(s).1]) else s
  }

  /** strings.TrimSpace */
  function TrimSpace(s: bytes): bytes {
    TrimRight(TrimLeft(s))
  }

  lemma NothingToTrim(s: bytes)
    requires s != [] && s[0] < Utf8.RUNE_SELF && !IsSpace(s[0])
    ensures TrimLeft(s) == s
    ensures s[|s| - 1] < Utf8.RUNE_SELF && !IsSpace(s[|s| - 1]) ==> TrimSpace(s) == s
  {
  }

  lemma SpaceTrimmed(s: bytes)
    requires s != [] && s[0] < Utf8.RUNE_SELF && !IsSpace(s[0])
    ensures TrimLeft([SPACE] + s) == s
  {
    assert ([SPACE] + s)[1..] == s;
    NothingToTrim(s);
  }

  // ---- Quoted values ----

  function QuoteByte(c: byte): bytes {
    if c == QUOTE || c == BACKSLASH then [BACKSLASH, c] else [c]
  }

  function Quoted(s: bytes): bytes {
    if s == [] then [] else Quoted(s[..|s| - 1]) + QuoteByte(s[|s| - 1])
  }

  lemma {:induction false} QuotedConcat(s: bytes, t: bytes)
    ensures Quoted(s + t) == Quoted(s) + Quoted(t)
  {
    if t == [] {
      assert s + t == s;
    } else {
      var front := t[..|t| - 1];
      assert (s + t)[..|s + t| - 1] == s + front;
      QuotedConcat(s, front);
    }
  }

  /** No rune of the value has the bit 0x80 set: what FormatMediaType takes for being ASCII. */
  predicate Plain(s: bytes) {
    s == [] || (Utf8.DecodeRune(s).0 / 0x80 % 2 == 0 && Plain(s[Utf8.DecodeRune(s).1..]))
  }

  predicate NoBit(runes: seq<int>) {
    forall r | r in runes :: r / 0x80 % 2 == 0
  }

  predicate AllBelow(runes: seq<int>, bound: int) {
    forall r | r in runes :: r < bound
  }

  lemma RunesCons(r: int, more: seq<int>, bound: int)
    ensures NoBit([r] + more) <==> r / 0x80 % 2 == 0 && NoBit(more)
    ensures AllBelow([r] + more, bound) <==> r < bound && AllBelow(more, bound)
  {
    var all := [r] + more;
    assert all[0] == r && r in all;
    forall x | x in more ensures x in all {
      var i :| 0 <= i < |more| && more[i] == x;
      assert all[i + 1] == x;
    }
    assert forall x | x in all :: x == r || x in more;
  }

  /** The bit is that of every rune of the value; ASCII is what has only runes below 0x80. */
  lemma {:induction false} PlainRunes(s: bytes)
    ensures Plain(s) <==> NoBit(Utf8.Runes(s, true))
    ensures Ascii(s) <==> AllBelow(Utf8.Runes(s, true), 0x80)
  {
    if s != [] {
      var (r, w) := (Utf8.DecodeRune(s).0, Utf8.DecodeRune(s).1);
      PlainRunes(s[w..]);
      FirstRuneAscii(s);
      RunesCons(r, Utf8.Runes(s[w..], true), 0x80);
      assert Utf8.Runes(s, true) == [r] + Utf8.Runes(s[w..], true);
      assert Plain(s) == (r / 0x80 % 2 == 0 && Plain(s[w..]));
      hide NoBit, AllBelow, Utf8.DecodeRune, Utf8.Runes, Plain;
      assert s == s[..w] + s[w..];
      assert forall c :: c in s <==> c in s[..w] || c in s[w..];
    }
  }

  lemma FirstRuneAscii(s: bytes)
    requires s != []
    ensures Ascii(s[..Utf8.DecodeRune(s).1]) <==> Utf8.DecodeRune(s).0 < 0x80
  {
    assert s[0] in s[..Utf8.DecodeRune(s).1];
  }

  /** A value that is not ASCII is written all the same exactly if it has runes from 0x100 on only
      beside ASCII ones, and none of them has the bit. */
  lemma NonAsciiWritten(attribute: bytes, value: bytes)
    requires IsToken(attribute)
    ensures var runes := Utf8.Runes(value, true);
      Formattable(attribute, value) && !Ascii(value) <==> NoBit(runes) && !AllBelow(runes, 0x100)
  {
    PlainRunes(value);
    assert IsToken(value) ==> Ascii(value);
    assert forall r: int | 0x80 <= r < 0x100 :: r / 0x80 % 2 == 1;
    hide Plain, Ascii, IsToken, Utf8.Runes;
  }

  /** The value "Ā" is one of them. */
  lemma LatinAWritten()
    ensures var value: bytes := [0xC4, 0x80];
      Plain(value) && !Ascii(value) && forall attribute | IsToken(attribute) :: Formattable(attribute, value)
  {
    var value: bytes := [0xC4, 0x80];
    assert Utf8.DecodeRune(value) == (0x100, 2) && value[2..] == [] && value[0] in value;
  }

  /** What consumeValue makes of the text behind an opening quote: the value and what follows, if it ends. */
  function Unquoted(s: bytes): Option<(bytes, bytes)> {
    if s == [] then None
    else if s[0] == QUOTE then Some(([], s[1..]))
    else if s[0] == BACKSLASH && |s| > 1 && !IsTokenChar(s[1]) then Behind(s[1], Unquoted(s[2..]))
    else if s[0] == CR || s[0] == NL then None
    else Behind(s[0], Unquoted(s[1..]))
  }

  function Behind(c: byte, u: Option<(bytes, bytes)>): Option<(bytes, bytes)> {
    match u
    case None => None
    case Some((value, rest)) => Some(([c] + value, rest))
  }

  predicate OneLine(s: bytes) {
    CR !in s && NL !in s
  }

  /** A quoted value is read back exactly if it has no line break. */
  lemma {:induction false} UnquotedQuoted(s: bytes, rest: bytes)
    ensures Unquoted(Quoted(s) + [QUOTE] + rest) == if OneLine(s) then Some((s, rest)) else None
  {
    hide *;
    if s == [] {
      UnquotedEnd(rest);
    } else {
      UnquotedQuoted(s[1..], rest);
      UnquotedByte(s[0], Quoted(s[1..]) + [QUOTE] + rest);
      QuotedFront(s, rest);
      OneLineFront(s);
      BehindFirst(s, rest);
    }
  }

  lemma UnquotedEnd(rest: bytes)
    ensures Unquoted(Quoted([]) + [QUOTE] + rest) == Some(([], rest)) && OneLine([])
  {
    assert Quoted([]) + [QUOTE] + rest == [QUOTE] + rest;
  }

  lemma BehindFirst(s: bytes, rest: bytes)
    requires s != []
    ensures Behind(s[0], Some((s[1..], rest))) == Some((s, rest)) && Behind(s[0], None) == None
  {
    assert [s[0]] + s[1..] == s;
  }

  lemma QuotedFront(s: bytes, rest: bytes)
    requires s != []
    ensures Quoted(s) + [QUOTE] + rest == QuoteByte(s[0]) + (Quoted(s[1..]) + [QUOTE] + rest)
  {
    hide *;
    assert [s[0]] + s[1..] == s;
    QuotedConcat([s[0]], s[1..]);
    QuotedOne(s[0]);
  }

  lemma OneLineFront(s: bytes)
    requires s != []
    ensures OneLine(s) <==> s[0] != CR && s[0] != NL && OneLine(s[1..])
  {
    assert s == [s[0]] + s[1..];
  }

  lemma QuotedOne(c: byte)
    ensures Quoted([c]) == QuoteByte(c)
  {
    assert [c][..0] == [] && [] + QuoteByte(c) == QuoteByte(c);
  }

  lemma UnquotedByte(c: byte, s: bytes)
    ensures Unquoted(QuoteByte(c) + s) == if c == CR || c == NL then None else Behind(c, Unquoted(s))
  {
    var q := QuoteByte(c) + s;
    assert q[0] == QuoteByte(c)[0] && q[|QuoteByte(c)|..] == s;
    if c == QUOTE || c == BACKSLASH {
      assert q[1] == c;
    }
  }

  // ---- Parsing ----

  type Params = Rfc2231.Params

  /** strings.ToLower, of which only the effect on ASCII is asked. */
  datatype Env = Env(lower: bytes -> bytes)

  function AsciiLower(s: bytes): (t: bytes)
    ensures |t| == |s|
  {
    seq(|s|, i requires 0 <= i < |s| => LowerByte(s[i]))
  }

  ghost predicate Proper(u: Env) {
    forall s: bytes | (forall c | c in s :: c < 0x80) :: u.lower(s) == AsciiLower(s)
  }

  datatype Param = NoParam | Param(key: bytes, value: bytes, rest: bytes)

  /** consumeValue; None where it gives ("", v). */
  function ConsumeValue(v: bytes): Option<(bytes, bytes)> {
    if v == [] then None
    else if v[0] == QUOTE then Unquoted(v[1..])
    else if TokenEnd(v) == 0 then None
    else Some((v[..TokenEnd(v)], v[TokenEnd(v)..]))
  }

  lemma {:induction false} UnquotedShrinks(s: bytes)
    ensures Unquoted(s).Some? ==> |Unquoted(s).value.1| < |s|
    decreases |s|
  {
    if s != [] && s[0] != QUOTE {
      if s[0] == BACKSLASH && |s| > 1 && !IsTokenChar(s[1]) {
        UnquotedShrinks(s[2..]);
      } else {
        UnquotedShrinks(s[1..]);
      }
    }
  }

  /** consumeMediaParam; NoParam where it gives no key. */
  function ConsumeParam(u: Env, v: bytes): Param {
    var r0 := TrimLeft(v);
    if r0 == [] || r0[0] != SEMI then NoParam
    else
      var r1 := TrimLeft(r0[1..]);
      var n := TokenEnd(r1);
      var r2 := TrimLeft(r1[n..]);
      if u.lower(r1[..n]) == [] || r2 == [] || r2[0] != EQ then NoParam
      else
        match ConsumeValue(TrimLeft(r2[1..]))
        case None => NoParam
        case Some((value, rest)) => Param(u.lower(r1[..n]), value, rest)
  }

  lemma ConsumeParamShrinks(u: Env, v: bytes)
    ensures ConsumeParam(u, v).Param? ==> |ConsumeParam(u, v).rest| < |v|
  {
    var r0 := TrimLeft(v);
    if ConsumeParam(u, v).Param? {
      var r1 := TrimLeft(r0[1..]);
      var w := TrimLeft(TrimLeft(r1[TokenEnd(r1)..])[1..]);
      if w[0] == QUOTE {
        UnquotedShrinks(w[1..]);
      }
    }
  }

  datatype Parsed =
    | NoMediaType // no media type, or one that is malformed
    | Duplicate // two parameters of one name
    | BadParameter(mediatype: bytes)
    | Parsed(mediatype: bytes, params: Params)

  /** checkMediaTypeDisposition */
  predicate IsMediaType(s: bytes) {
    var n := TokenEnd(s);
    n > 0 && (n == |s| || (s[n] == SLASH && n + 1 < |s| && TokenEnd(s[n + 1..]) == |s| - n - 1))
  }

  /** How the text of the parameters ends: used up, at a rest that is no parameter, or at a second
      parameter of one name. */
  datatype Ending = AllUsed(params: Params, pieces: map<bytes, Params>) | Unread(rest: bytes, params: Params) | Twice

  /** The parameters and pieces with one more; a name with "*" goes to the pieces of its base name. */
  function Enter(key: bytes, value: bytes, params: Params, pieces: map<bytes, Params>)
      : Option<(Params, map<bytes, Params>)> {
    if STAR in key then
      var base := key[..IndexByte(key, STAR)];
      var pmap := if base in pieces then pieces[base] else map[];
      if key in pmap then None else Some((params, pieces[base := pmap[key := value]]))
    else if key in params then None
    else Some((params[key := value], pieces))
  }

  function EndOf(u: Env, v: bytes, params: Params, pieces: map<bytes, Params>): Ending
    decreases |v|
  {
    var v1 := TrimLeft(v);
    if v1 == [] then AllUsed(params, pieces)
    else
      ConsumeParamShrinks(u, v1);
      match ConsumeParam(u, v1)
      case NoParam => Unread(v1, params)
      case Param(key, value, rest) =>
        match Enter(key, value, params, pieces)
        case None => Twice
        case Some((params1, pieces1)) => EndOf(u, rest, params1, pieces1)
  }

  /** The result: pieces are put together at the end of the text, but not in front of a lone semicolon. */
  function Result(u: Env, mediatype: bytes, e: Ending): Parsed {
    match e
    case AllUsed(params, pieces) => Parsed(mediatype, Rfc2231.Stitch(u.lower, params, pieces))
    case Unread(rest, params) => if TrimSpace(rest) == [SEMI] then Parsed(mediatype, params)
      else BadParameter(mediatype)
    case Twice => Duplicate
  }

  function ParseLoop(u: Env, mediatype: bytes, v: bytes, params: Params, pieces: map<bytes, Params>): Parsed {
    Result(u, mediatype, EndOf(u, v, params, pieces))
  }

  /** What ParseMediaType returns. */
  function Parse(u: Env, v: bytes): Parsed {
    var i := if SEMI in v then IndexByte(v, SEMI) else |v|;
    var mediatype := TrimSpace(u.lower(v[..i]));
    if IsMediaType(mediatype) then ParseLoop(u, mediatype, v[i..], map[], map[]) else NoMediaType
  }

  /** ParseMediaType */
  method ParseMediaType(u: Env, v0: bytes) returns (r: Parsed)
    ensures r == Parse(u, v0)
  {
    var i := IndexByte(v0, SEMI);
    IndexByteAbsent(v0, SEMI);
    if i == -1 {
      i := |v0|;
    }
    var mediatype := TrimSpace(u.lower(v0[..i]));
    if !IsMediaType(mediatype) {
      return NoMediaType;
    }
    var params: Params := map[];
    var pieces: map<bytes, Params> := map[];
    var v := v0[i..];
    ghost var result := ParseLoop(u, mediatype, v, params, pieces);
    hide *;
    TrimNothing();
    while |v| > 0
      invariant result == ParseLoop(u, mediatype, v, params, pieces)
      decreases |v|
    {
      ParseTurn(u, mediatype, v, params, pieces);
      v := TrimLeft(v);
      if |v| == 0 {
        break;
      }
      match ConsumeParam(u, v)
      case NoParam =>
        if TrimSpace(v) == [SEMI] {
          return Parsed(mediatype, params);
        }
        return BadParameter(mediatype);
      case Param(key, value, rest) =>
        if STAR in key {
          var base := key[..IndexByte(key, STAR)];
          var pmap: Params := if base in pieces then pieces[base] else map[];
          if key in pmap {
            return Duplicate;
          }
          pieces := pieces[base := pmap[key := value]];
        } else {
          if key in params {
            return Duplicate;
          }
          params := params[key := value];
        }
        v := rest;
    }
    ParseTurn(u, mediatype, v, params, pieces);
    params := Rfc2231.StitchAll(u.lower, params, pieces);
    return Parsed(mediatype, params);
  }

  lemma TrimNothing()
    ensures TrimLeft([]) == []
  {
  }

  /** One turn of the loop. */
  lemma ParseTurn(u: Env, mediatype: bytes, v: bytes, params: Params, pieces: map<bytes, Params>)
    ensures TrimLeft([]) == []
    ensures var v1 := TrimLeft(v);
      ParseLoop(u, mediatype, v, params, pieces) ==
      if v1 == [] then Parsed(mediatype, Rfc2231.Stitch(u.lower, params, pieces))
      else match ConsumeParam(u, v1)
        case NoParam => if TrimSpace(v1) == [SEMI] then Parsed(mediatype, params) else BadParameter(mediatype)
        case Param(key, value, rest) =>
          if STAR in key then
            var base := key[..IndexByte(key, STAR)];
            var pmap := if base in pieces then pieces[base] else map[];
            if key in pmap then Duplicate
            else ParseLoop(u, mediatype, rest, params, pieces[base := pmap[key := value]])
          else if key in params then Duplicate
          else ParseLoop(u, mediatype, rest, params[key := value], pieces)
    ensures TrimLeft(v) == [] || ConsumeParam(u, TrimLeft(v)).NoParam? || |ConsumeParam(u, TrimLeft(v)).rest| < |v|
    ensures TrimLeft(v) != [] && ConsumeParam(u, TrimLeft(v)).Param? && STAR in ConsumeParam(u, TrimLeft(v)).key ==>
      IndexByte(ConsumeParam(u, TrimLeft(v)).key, STAR) >= 0
  {
    if TrimLeft(v) != [] && ConsumeParam(u, TrimLeft(v)).Param? {
      IndexByteAbsent(ConsumeParam(u, TrimLeft(v)).key, STAR);
    }
    ConsumeParamShrinks(u, TrimLeft(v));
    hide TrimLeft, ConsumeParam, TrimSpace, IndexByte, Rfc2231.Stitch;
  }

  // ---- A semicolon at the end ----

  function WithRest(p: Param, more: bytes): Param {
    match p
    case NoParam => NoParam
    case Param(key, value, rest) => Param(key, value, rest + more)
  }

  function ValueWithRest(u: Option<(bytes, bytes)>, more: bytes): Option<(bytes, bytes)> {
    match u
    case None => None
    case Some((value, rest)) => Some((value, rest + more))
  }

  lemma RuneKept(s: bytes)
    requires s != []
    ensures Utf8.DecodeRune(s + [SEMI]) == Utf8.DecodeRune(s)
  {
    assert forall i | 0 <= i < |s| :: (s + [SEMI])[i] == s[i];
  }

  lemma {:induction false} TrimAppended(s: bytes)
    ensures TrimLeft(s + [SEMI]) == TrimLeft(s) + [SEMI]
  {
    if s == [] {
      assert [] + [SEMI] == [SEMI];
      NothingToTrim([SEMI]);
    } else {
      RuneKept(s);
      var w := Utf8.DecodeRune(s).1;
      hide Utf8.DecodeRune;
      assert (s + [SEMI])[w..] == s[w..] + [SEMI];
      TrimAppended(s[w..]);
    }
  }

  lemma {:induction false} TrimTwice(s: bytes)
    ensures TrimLeft(TrimLeft(s)) == TrimLeft(s)
  {
    hide Utf8.DecodeRune;
    if s != [] && IsSpace(Utf8.DecodeRune(s).0) {
      TrimTwice(s[Utf8.DecodeRune(s).1..]);
    }
  }

  lemma {:induction false} TokenAppended(s: bytes)
    ensures TokenEnd(s + [SEMI]) == TokenEnd(s)
  {
    if s == [] {
      assert [] + [SEMI] == [SEMI];
    } else {
      assert (s + [SEMI])[1..] == s[1..] + [SEMI];
      TokenAppended(s[1..]);
    }
  }

  lemma {:induction false} UnquotedAppended(s: bytes)
    ensures Unquoted(s + [SEMI]) == ValueWithRest(Unquoted(s), [SEMI])
    decreases |s|
  {
    var t := s + [SEMI];
    if s == [] {
      assert t == [SEMI] && t[1..] == [];
    } else {
      assert t[0] == s[0] && t[1..] == s[1..] + [SEMI];
      UnquotedAppended(s[1..]);
      if |s| > 1 {
        assert t[1] == s[1] && t[2..] == s[2..] + [SEMI];
        UnquotedAppended(s[2..]);
      } else {
        assert t[2..] == [];
      }
    }
  }

  lemma ValueAppended(v: bytes)
    ensures ConsumeValue(v + [SEMI]) == ValueWithRest(ConsumeValue(v), [SEMI])
  {
    var t := v + [SEMI];
    TokenAppended(v);
    hide TokenEnd, Unquoted;
    if v == [] {
      assert t == [SEMI];
      TokenEndIs([], [SEMI]);
      assert [] + [SEMI] == [SEMI];
    } else {
      assert t[0] == v[0] && t[1..] == v[1..] + [SEMI];
      UnquotedAppended(v[1..]);
      var n := TokenEnd(v);
      assert t[..n] == v[..n] && t[n..] == v[n..] + [SEMI];
    }
  }

  /** A semicolon behind the text is left over by what is consumed, and makes nothing more of it. */
  lemma ParamAppended(u: Env, v: bytes)
    ensures ConsumeParam(u, v + [SEMI]) == WithRest(ConsumeParam(u, v), [SEMI])
  {
    hide TrimLeft, TokenEnd, ConsumeValue;
    var r0 := TrimLeft(v);
    TrimAppended(v);
    if r0 == [] {
      assert [] + [SEMI] == [SEMI] && [SEMI][1..] == [];
      TrimAppended([]);
      TrimNothing();
      EmptyTail();
    } else if r0[0] == SEMI {
      assert (r0 + [SEMI])[1..] == r0[1..] + [SEMI];
      var r1 := TrimLeft(r0[1..]);
      TrimAppended(r0[1..]);
      TokenAppended(r1);
      var n := TokenEnd(r1);
      assert (r1 + [SEMI])[..n] == r1[..n] && (r1 + [SEMI])[n..] == r1[n..] + [SEMI];
      TrimAppended(r1[n..]);
      var r2 := TrimLeft(r1[n..]);
      if r2 != [] {
        assert (r2 + [SEMI])[1..] == r2[1..] + [SEMI];
        TrimAppended(r2[1..]);
        ValueAppended(TrimLeft(r2[1..]));
      }
    }
  }

  lemma EmptyTail()
    ensures TokenEnd([]) == 0 && TrimLeft([]) == []
  {
  }

  /** So it is what is left unread at the end, alone or behind what was left before. */
  lemma {:induction false} EndAppended(u: Env, v: bytes, params: Params, pieces: map<bytes, Params>)
    ensures var e := EndOf(u, v, params, pieces);
      EndOf(u, v + [SEMI], params, pieces) ==
      match e
      case AllUsed(p, _) => Unread([SEMI], p)
      case Unread(rest, p) => Unread(rest + [SEMI], p)
      case Twice => Twice
    ensures var e := EndOf(u, v, params, pieces);
      e.Unread? ==> e.rest != [] && TrimLeft(e.rest) == e.rest
    decreases |v|
  {
    var v1 := TrimLeft(v);
    TrimAppended(v);
    TrimTwice(v);
    ParamAppended(u, v1);
    ConsumeParamShrinks(u, v1);
    hide TrimLeft, ConsumeParam;
    if v1 == [] {
      assert [] + [SEMI] == [SEMI];
      LoneSemicolon(u);
    } else if ConsumeParam(u, v1).Param? {
      var Param(key, value, rest) := ConsumeParam(u, v1);
      var entered := Enter(key, value, params, pieces);
      hide Enter;
      if entered.Some? {
        EndAppended(u, rest, entered.value.0, entered.value.1);
      }
    }
  }

  lemma LoneSemicolon(u: Env)
    ensures ConsumeParam(u, [SEMI]) == NoParam && TrimSpace([SEMI]) == [SEMI]
  {
    NothingToTrim([SEMI]);
    EmptyTail();
  }

  /** The parameters and pieces of a whole text. */
  function Collected(u: Env, v: bytes): Ending {
    EndOf(u, v[if SEMI in v then IndexByte(v, SEMI) else |v|..], map[], map[])
  }

  /** A semicolon behind a text that parses leaves the result as it is exactly if the text was used up,
      so that the semicolon is the only one, and putting the pieces together adds nothing. */
  lemma TrailingSemicolon(u: Env, v: bytes)
    requires Parse(u, v).Parsed?
    ensures var e := Collected(u, v);
      Parse(u, v + [SEMI]) == Parse(u, v) <==> e.AllUsed? && Rfc2231.Stitch(u.lower, e.params, e.pieces) == e.params
    ensures Collected(u, v).AllUsed? && Collected(u, v).pieces == map[] ==> Parse(u, v + [SEMI]) == Parse(u, v)
  {
    var i := if SEMI in v then IndexByte(v, SEMI) else |v|;
    SameType(v);
    var e := Collected(u, v);
    EndAppended(u, v[i..], map[], map[]);
    LoneSemicolon(u);
    if e.Unread? {
      SemicolonKept(e.rest);
    } else if e.AllUsed? {
      Rfc2231.NothingToStitch(u.lower, e.params);
    }
    hide EndOf, TrimSpace, IsMediaType, Rfc2231.Stitch;
  }

  lemma SameType(v: bytes)
    ensures var t := v + [SEMI]; var i := if SEMI in v then IndexByte(v, SEMI) else |v|;
      SEMI in t && IndexByte(t, SEMI) == i && t[..i] == v[..i] && t[i..] == v[i..] + [SEMI]
  {
    FirstSemicolon(v);
    hide IndexByte;
    var i := if SEMI in v then IndexByte(v, SEMI) else |v|;
    AppendedAt(v, i);
    IndexByteUnique(v + [SEMI], SEMI, i);
  }

  lemma FirstSemicolon(v: bytes)
    ensures var i := if SEMI in v then IndexByte(v, SEMI) else |v|;
      0 <= i <= |v| && SEMI !in v[..i] && (i < |v| ==> v[i] == SEMI)
  {
    IndexByteAbsent(v, SEMI);
    if SEMI in v {
      var i := IndexByte(v, SEMI);
      assert forall k | 0 <= k < i :: v[..i][k] == v[k];
    } else {
      assert v[..|v|] == v;
    }
  }

  lemma AppendedAt(v: bytes, i: nat)
    requires i <= |v| && (i < |v| ==> v[i] == SEMI)
    ensures var t := v + [SEMI]; t[i] == SEMI && SEMI in t && t[..i] == v[..i] && t[i..] == v[i..] + [SEMI]
  {
    assert (v + [SEMI])[i] == SEMI;
  }

  lemma SemicolonKept(rest: bytes)
    requires rest != [] && TrimLeft(rest) == rest
    ensures TrimSpace(rest + [SEMI]) != [SEMI]
  {
    TrimAppended(rest);
    assert (rest + [SEMI])[|rest|] == SEMI;
  }

  // ---- Formatting ----

  function ValueText(value: bytes): bytes {
    if IsToken(value) then value else [QUOTE] + Quoted(value) + [QUOTE]
  }

  /** A value is written without quotes exactly if it is a token. */
  lemma UnquotedValue(value: bytes)
    ensures var text := ValueText(value);
      && text != []
      && (text[0] != QUOTE <==> value != [] && forall c | c in value :: InToken(c))
      && (text[0] != QUOTE ==> text == value)
  {
    forall c | c in value
      ensures IsTokenChar(c) <==> InToken(c)
    {
      TokenCharacters(c);
    }
    hide InToken, IsTokenChar;
    assert InToken(QUOTE) == false by { TokenCharacters(QUOTE); }
    assert value != [] ==> value[0] in value;
  }

  function ParamText(u: Env, attribute: bytes, value: bytes): bytes {
    [SEMI, SPACE] + u.lower(attribute) + [EQ] + ValueText(value)
  }

  function ParamsText(u: Env, param: Params, attrs: seq<bytes>): bytes
    requires forall a | a in attrs :: a in param
  {
    if attrs == [] then [] else ParamText(u, attrs[0], param[attrs[0]]) + ParamsText(u, param, attrs[1..])
  }

  predicate ValidType(t: bytes) {
    if SLASH in t then IsToken(t[..IndexByte(t, SLASH)]) && IsToken(t[IndexByte(t, SLASH) + 1..]) else IsToken(t)
  }

  predicate Formattable(attribute: bytes, value: bytes) {
    IsToken(attribute) && (IsToken(value) || Plain(value))
  }

  /** A rune that is escaped is one byte; no byte of any other rune is. */
  lemma RuneQuoted(s: bytes)
    requires s != []
    ensures var (r, w) := (Utf8.DecodeRune(s).0, Utf8.DecodeRune(s).1);
      var special := r == QUOTE || r == BACKSLASH;
      (special ==> w == 1 && s[0] == r) && Quoted(s[..w]) == (if special then [BACKSLASH] else []) + s[..w]
  {
    var (r, w) := (Utf8.DecodeRune(s).0, Utf8.DecodeRune(s).1);
    if r == QUOTE || r == BACKSLASH {
      AsciiRune(s);
      hide Utf8.DecodeRune;
      QuotedOne(s[0]);
      assert s[..1] == [s[0]];
    } else {
      UnescapedRune(s);
      hide Utf8.DecodeRune;
      QuotedSame(s[..w]);
      assert [] + s[..w] == s[..w];
    }
  }

  lemma AsciiRune(s: bytes)
    requires s != [] && Utf8.DecodeRune(s).0 < 0x80
    ensures Utf8.DecodeRune(s) == (s[0], 1)
  {
  }

  lemma UnescapedRune(s: bytes)
    requires s != [] && Utf8.DecodeRune(s).0 != QUOTE && Utf8.DecodeRune(s).0 != BACKSLASH
    ensures forall i | 0 <= i < Utf8.DecodeRune(s).1 :: s[i] != QUOTE && s[i] != BACKSLASH
  {
  }

  lemma {:induction false} QuotedSame(s: bytes)
    requires forall i | 0 <= i < |s| :: s[i] != QUOTE && s[i] != BACKSLASH
    ensures Quoted(s) == s
  {
    if s != [] {
      QuotedSame(s[..|s| - 1]);
    }
  }

  /** The quoted form of a value, unless it has a rune that is taken for not being ASCII. */
  method QuoteValue(value: bytes) returns (r: Option<bytes>)
    ensures r == if Plain(value) then Some([QUOTE] + Quoted(value) + [QUOTE]) else None
  {
    hide *;
    var b := [QUOTE];
    var offset, index := 0, 0;
    QuotingStarts(value);
    while index < |value|
      invariant 0 <= offset <= index <= |value| && Quoting(value, b, offset, index)
    {
      var (character, w) := (Utf8.DecodeRune(value[index..]).0, Utf8.DecodeRune(value[index..]).1);
      QuotingStep(value, b, offset, index);
      if character == QUOTE || character == BACKSLASH {
        b := b + value[offset..index];
        offset := index;
        b := b + [BACKSLASH];
      }
      if character / 0x80 % 2 != 0 {
        return None;
      }
      index := index + w;
    }
    QuotingEnds(value, b, offset);
    b := b + value[offset..];
    return Some(b + [QUOTE]);
  }

  /** Where the loop stands: what is written and what is pending quote the value up to index. */
  ghost predicate Quoting(value: bytes, b: bytes, offset: nat, index: nat) {
    && offset <= index <= |value| && Plain(value) == Plain(value[index..])
    && b + value[offset..index] == [QUOTE] + Quoted(value[..index])
  }

  lemma QuotingStarts(value: bytes)
    ensures Quoting(value, [QUOTE], 0, 0)
  {
    assert value[0..] == value && value[..0] == [] && [QUOTE] + [] == [QUOTE];
  }

  lemma QuotingStep(value: bytes, b: bytes, offset: nat, index: nat)
    requires Quoting(value, b, offset, index) && index < |value|
    ensures var d := Utf8.DecodeRune(value[index..]);
      index < index + d.1 <= |value| &&
      if d.0 == QUOTE || d.0 == BACKSLASH then
        d.0 / 0x80 % 2 == 0 && Quoting(value, b + value[offset..index] + [BACKSLASH], index, index + d.1)
      else if d.0 / 0x80 % 2 != 0 then !Plain(value)
      else Quoting(value, b, offset, index + d.1)
  {
    hide *;
    QuoteStep(value, index);
    var d := Utf8.DecodeRune(value[index..]);
    var n := index + d.1;
    if d.0 == QUOTE || d.0 == BACKSLASH {
      QuotingEscaped(value, b, offset, index, n);
    } else if d.0 / 0x80 % 2 == 0 {
      QuotingPlain(value, b, offset, index, n);
    } else {
      QuotingFails(value, b, offset, index);
    }
  }

  lemma QuotingFails(value: bytes, b: bytes, offset: nat, index: nat)
    requires Quoting(value, b, offset, index) && !Plain(value[index..])
    ensures !Plain(value)
  {
  }

  lemma QuotingEscaped(value: bytes, b: bytes, offset: nat, index: nat, n: nat)
    requires Quoting(value, b, offset, index) && Extends(value, index, n, [BACKSLASH])
    ensures n <= |value| && Quoting(value, b + value[offset..index] + [BACKSLASH], index, n)
  {
    hide Quoted, Plain;
    WriteBehind(b, value[offset..index], value[index..n], [QUOTE], Quoted(value[..index]), [BACKSLASH]);
  }

  lemma QuotingPlain(value: bytes, b: bytes, offset: nat, index: nat, n: nat)
    requires Quoting(value, b, offset, index) && Extends(value, index, n, [])
    ensures Quoting(value, b, offset, n)
  {
    hide Quoted, Plain;
    WriteBehind(b, value[offset..index], value[index..n], [QUOTE], Quoted(value[..index]), []);
    assert value[offset..n] == value[offset..index] + value[index..n];
  }

  lemma WriteBehind(b: bytes, pending: bytes, p: bytes, head: bytes, quoted: bytes, esc: bytes)
    requires b + pending == head + quoted
    ensures (b + pending + esc) + p == head + (quoted + (esc + p))
    ensures esc == [] ==> b + (pending + p) == head + (quoted + (esc + p))
  {
    assert (b + pending + esc) + p == (b + pending) + (esc + p);
    assert (head + quoted) + (esc + p) == head + (quoted + (esc + p));
    assert b + (pending + p) == (b + pending) + p && [] + p == p;
  }

  lemma QuotingEnds(value: bytes, b: bytes, offset: nat)
    requires Quoting(value, b, offset, |value|)
    ensures Plain(value) && b + value[offset..] == [QUOTE] + Quoted(value)
  {
    assert value[..|value|] == value && value[offset..] == value[offset..|value|] && value[|value|..] == [];
  }

  /** The bytes from index to n add themselves, behind esc, to the quoted value, and do not decide whether it is
      plain. */
  ghost predicate Extends(value: bytes, index: nat, n: nat, esc: bytes) {
    && index <= n <= |value|
    && Quoted(value[..n]) == Quoted(value[..index]) + (esc + value[index..n])
    && Plain(value[index..]) == Plain(value[n..])
  }

  lemma QuoteStep(value: bytes, index: nat)
    requires index < |value|
    ensures var d := Utf8.DecodeRune(value[index..]);
      var (n, special) := (index + d.1, d.0 == QUOTE || d.0 == BACKSLASH);
      && index < n <= |value|
      && (special ==> d.0 / 0x80 % 2 == 0 && Extends(value, index, n, [BACKSLASH]))
      && (!special && d.0 / 0x80 % 2 == 0 ==> Extends(value, index, n, []))
      && (d.0 / 0x80 % 2 != 0 ==> !Plain(value[index..]))
  {
    hide Utf8.DecodeRune, Plain, Quoted;
    var rest := value[index..];
    RuneQuoted(rest);
    PlainFirst(rest);
    RuneExtends(value, index, Utf8.DecodeRune(rest).1);
  }

  lemma PlainFirst(s: bytes)
    requires s != []
    ensures Plain(s) <==> Utf8.DecodeRune(s).0 / 0x80 % 2 == 0 && Plain(s[Utf8.DecodeRune(s).1..])
  {
  }

  lemma RuneExtends(value: bytes, index: nat, w: nat)
    requires index + w <= |value|
    ensures Quoted(value[..index + w]) == Quoted(value[..index]) + Quoted(value[index..][..w])
    ensures value[index..][..w] == value[index..index + w] && value[index..][w..] == value[index + w..]
  {
    hide *;
    QuotedConcat(value[..index], value[index..index + w]);
    assert value[..index + w] == value[..index] + value[index..index + w];
    assert value[index..][..w] == value[index..index + w];
  }

  // ---- The order of the attributes ----

  /** The order of Go's strings. */
  predicate StringLess(a: bytes, b: bytes) {
    b != [] && (a == [] || a[0] < b[0] || (a[0] == b[0] && StringLess(a[1..], b[1..])))
  }

  lemma {:induction false} StringLessTotal(a: bytes, b: bytes)
    ensures a == b || StringLess(a, b) || StringLess(b, a)
    ensures !(StringLess(a, b) && StringLess(b, a)) && !StringLess(a, a)
  {
    if a != [] && b != [] {
      StringLessTotal(a[1..], b[1..]);
      StringLessTotal(a[1..], a[1..]);
      assert a == [a[0]] + a[1..] && b == [b[0]] + b[1..];
    } else if a != [] {
      StringLessTotal(a[1..], a[1..]);
    }
  }

  lemma {:induction false} StringLessTransitive(a: bytes, b: bytes, c: bytes)
    requires StringLess(a, b) && StringLess(b, c)
    ensures StringLess(a, c)
  {
    if a != [] && a[0] == b[0] == c[0] {
      StringLessTransitive(a[1..], b[1..], c[1..]);
    }
  }

  ghost predicate Increasing(keys: seq<bytes>) {
    forall i, j | 0 <= i < j < |keys| :: StringLess(keys[i], keys[j])
  }

  /** A new key goes where sort.Strings would put it. */
  method InsertKey(keys: seq<bytes>, k: bytes) returns (r: seq<bytes>)
    requires Increasing(keys) && k !in keys
    ensures Increasing(r) && forall a :: a in r <==> a in keys || a == k
  {
    var i := 0;
    while i < |keys| && StringLess(keys[i], k)
      invariant 0 <= i <= |keys| && forall j | 0 <= j < i :: StringLess(keys[j], k)
    {
      i := i + 1;
    }
    forall j | i <= j < |keys| ensures StringLess(k, keys[j]) {
      StringLessTotal(keys[i], k);
      if i < j {
        StringLessTransitive(k, keys[i], keys[j]);
      }
    }
    hide StringLess;
    r := keys[..i] + [k] + keys[i..];
    assert forall a :: a in keys <==> a in keys[..i] || a in keys[i..];
  }

  /** The keys of a map, in the order of sort.Strings. */
  method SortedKeys(param: Params) returns (attrs: seq<bytes>)
    ensures Increasing(attrs) && forall a :: a in attrs <==> a in param
  {
    attrs := [];
    var left := param.Keys;
    while left != {}
      invariant left <= param.Keys
      invariant Increasing(attrs) && forall a :: a in attrs <==> a in param.Keys - left
      decreases left
    {
      var k :| k in left;
      attrs := InsertKey(attrs, k);
      left := left - {k};
    }
  }

  /** The keys of a map have one increasing order only, so the text does not depend on the map's own. */
  lemma {:induction false} IncreasingUnique(p: seq<bytes>, q: seq<bytes>)
    requires Increasing(p) && Increasing(q) && forall a :: a in p <==> a in q
    ensures p == q
  {
    assert q == [] || q[0] in q;
    if p != [] {
      assert p[0] in q && q != [] && q[0] in p;
      FirstIsLeast(p, q[0]);
      FirstIsLeast(q, p[0]);
      StringLessTotal(p[0], q[0]);
      TailMembers(p);
      TailMembers(q);
      IncreasingUnique(p[1..], q[1..]);
      assert p == [p[0]] + p[1..] && q == [q[0]] + q[1..];
    }
  }

  lemma FirstIsLeast(p: seq<bytes>, a: bytes)
    requires Increasing(p) && a in p
    ensures p[0] == a || StringLess(p[0], a)
  {
  }

  lemma TailMembers(p: seq<bytes>)
    requires Increasing(p) && p != []
    ensures forall a :: a in p[1..] <==> a in p && a != p[0]
  {
    assert p == [p[0]] + p[1..];
    forall a | a in p[1..] ensures a != p[0] {
      var i :| 0 <= i < |p[1..]| && p[1..][i] == a;
      assert StringLess(p[0], p[i + 1]);
      StringLessTotal(p[0], a);
    }
  }

  /** FormatMediaType: "" stands for a violation of the standard. */
  method FormatMediaType(u: Env, t: bytes, param: Params) returns (r: bytes, ghost attrs: seq<bytes>)
    ensures Increasing(attrs) && forall a :: a in attrs <==> a in param
    ensures r == if ValidType(t) && forall a | a in param :: Formattable(a, param[a])
      then TypeText(u, t) + ParamsText(u, param, attrs) else []
  {
    var b: bytes;
    var slash := IndexByte(t, SLASH);
    IndexByteAbsent(t, SLASH);
    var sorted := SortedKeys(param);
    attrs := sorted;
    if slash == -1 {
      if !IsToken(t) {
        return [], attrs;
      }
      b := u.lower(t);
    } else {
      var (major, sub) := (t[..slash], t[slash + 1..]);
      if !IsToken(major) || !IsToken(sub) {
        return [], attrs;
      }
      b := u.lower(major) + [SLASH] + u.lower(sub);
    }
    assert b == TypeText(u, t) && ValidType(t);
    b := FormatParams(u, b, param, sorted);
    r := b;
  }

  /** The parameters behind the type; "" if one of them cannot be written. */
  method FormatParams(u: Env, b0: bytes, param: Params, attrs: seq<bytes>) returns (b: bytes)
    requires forall a | a in attrs :: a in param
    ensures b == if forall a | a in attrs :: Formattable(a, param[a]) then b0 + ParamsText(u, param, attrs) else []
  {
    b := b0;
    hide IsToken, Plain, ParamsText, ParamText, ValueText;
    assert attrs[0..] == attrs && attrs[|attrs|..] == [];
    ParamsEnd(u, param);
    for i := 0 to |attrs|
      invariant forall j | 0 <= j < i :: Formattable(attrs[j], param[attrs[j]])
      invariant b + ParamsText(u, param, attrs[i..]) == b0 + ParamsText(u, param, attrs)
    {
      var attribute := attrs[i];
      assert attribute in attrs;
      if !IsToken(attribute) {
        return [];
      }
      var text := FormatValue(param[attribute]);
      if text.None? {
        return [];
      }
      ParamsStep(u, param, attrs, i);
      ghost var more := ParamsText(u, param, attrs[i + 1..]);
      ghost var p := [SEMI, SPACE] + u.lower(attribute) + [EQ] + text.value;
      assert b + (p + more) == (b + p) + more;
      b := b + ([SEMI, SPACE] + u.lower(attribute) + [EQ] + text.value);
    }
  }

  lemma ParamsEnd(u: Env, param: Params)
    ensures ParamsText(u, param, []) == []
  {
  }

  lemma ParamsStep(u: Env, param: Params, attrs: seq<bytes>, i: nat)
    requires i < |attrs| && forall a | a in attrs :: a in param
    ensures ParamsText(u, param, attrs[i..])
      == ([SEMI, SPACE] + u.lower(attrs[i]) + [EQ] + ValueText(param[attrs[i]])) + ParamsText(u, param, attrs[i + 1..])
  {
    assert attrs[i..][0] == attrs[i] && attrs[i..][1..] == attrs[i + 1..];
  }

  /** A value as a token or quoted. */
  method FormatValue(value: bytes) returns (r: Option<bytes>)
    ensures r == if IsToken(value) || Plain(value) then Some(ValueText(value)) else None
  {
    if IsToken(value) {
      return Some(value);
    }
    r := QuoteValue(value);
  }

  function TypeText(u: Env, t: bytes): bytes
    requires ValidType(t)
  {
    if SLASH in t then u.lower(t[..IndexByte(t, SLASH)]) + [SLASH] + u.lower(t[IndexByte(t, SLASH) + 1..])
    else u.lower(t)
  }

  // ---- The round trip ----

  /** An attribute name that formatting leaves alone. */
  predicate LowerName(a: bytes) {
    IsToken(a) && AsciiLower(a) == a
  }

  /** One that is not of RFC 2231's. */
  predicate PlainName(a: bytes) {
    LowerName(a) && STAR !in a
  }

  lemma TokenIsAscii(s: bytes)
    requires IsToken(s)
    ensures forall c | c in s :: c < 0x80
    ensures 0x20 < s[0] < 0x7f && 0x20 < s[|s| - 1] < 0x7f
  {
    assert s[0] in s && s[|s| - 1] in s;
  }

  /** The text of one parameter is consumed again, unless its value has a line break. */
  lemma ParamConsumed(u: Env, a: bytes, value: bytes, rest: bytes)
    requires Proper(u) && LowerName(a) && (rest == [] || rest[0] == SEMI)
    ensures ConsumeParam(u, ParamText(u, a, value) + rest)
      == if OneLine(value) then Param(a, value, rest) else NoParam
  {
    hide *;
    var text := ValueText(value) + rest;
    var tail := [EQ] + text;
    var (r1, v) := (a + tail, [SEMI] + ([SPACE] + (a + tail)));
    NameKept(u, a);
    ValueConsumed(value, rest);
    ParamShape(u, a, value, rest, text, tail, v);
    TokenEndIs(a, tail);
    ParamConsumedAt(u, v, a, r1, tail, text);
  }

  lemma NameKept(u: Env, a: bytes)
    requires Proper(u) && LowerName(a)
    ensures u.lower(a) == a != [] && 0x20 < a[0] < 0x7f && forall c | c in a :: IsTokenChar(c)
  {
    TokenIsAscii(a);
  }

  lemma ParamShape(u: Env, a: bytes, value: bytes, rest: bytes, text: bytes, tail: bytes, v: bytes)
    requires u.lower(a) == a != [] && 0x20 < a[0] < 0x7f
    requires text == ValueText(value) + rest != [] && 0x20 < text[0] < 0x7f
    requires tail == [EQ] + text && v == [SEMI] + ([SPACE] + (a + tail))
    ensures v[0] == SEMI && tail[0] == EQ && !IsTokenChar(tail[0])
    ensures ParamText(u, a, value) + rest == v && TrimLeft(v) == v && TrimLeft(v[1..]) == a + tail
    ensures (a + tail)[..|a|] == a && TrimLeft((a + tail)[|a|..]) == tail && TrimLeft(tail[1..]) == text
  {
    hide TrimLeft, ValueText;
    FirstKept(v);
    assert v[1..] == [SPACE] + (a + tail) && (a + tail)[0] == a[0];
    SpaceTrimmed(a + tail);
    FirstKept(tail);
    FirstKept(text);
    assert tail[1..] == text && (a + tail)[|a|..] == tail;
  }

  /** consumeMediaParam with its intermediate rests given. */
  lemma ParamConsumedAt(u: Env, v: bytes, a: bytes, r1: bytes, r2: bytes, text: bytes)
    requires TrimLeft(v) == v != [] && v[0] == SEMI && TrimLeft(v[1..]) == r1
    requires TokenEnd(r1) == |a| && r1[..|a|] == a && u.lower(a) == a != []
    requires TrimLeft(r1[|a|..]) == r2 != [] && r2[0] == EQ && TrimLeft(r2[1..]) == text
    ensures ConsumeParam(u, v) ==
      match ConsumeValue(text) case None => NoParam case Some((value, rest)) => Param(a, value, rest)
  {
    hide TrimLeft, TokenEnd, ConsumeValue;
  }

  /** Nothing is trimmed before a character that is not a space. */
  lemma FirstKept(s: bytes)
    requires s != [] && 0x20 < s[0] < 0x7f
    ensures TrimLeft(s) == s
  {
    NothingToTrim(s);
  }

  lemma ValueConsumed(value: bytes, rest: bytes)
    requires rest == [] || rest[0] == SEMI
    ensures var text := ValueText(value) + rest;
      text != [] && 0x20 < text[0] < 0x7f
      && ConsumeValue(text) == if OneLine(value) then Some((value, rest)) else None
  {
    if IsToken(value) {
      TokenConsumed(value, rest);
    } else {
      QuotedConsumed(value, rest);
    }
    hide *;
  }

  lemma TokenConsumed(value: bytes, rest: bytes)
    requires IsToken(value) && (rest == [] || rest[0] == SEMI)
    ensures OneLine(value) && 0x20 < (value + rest)[0] < 0x7f && ConsumeValue(value + rest) == Some((value, rest))
  {
    TokenIsAscii(value);
    TokenEndIs(value, rest);
    var text := value + rest;
    hide TokenEnd;
    assert text[0] == value[0] && value[0] in value;
    assert text[..|value|] == value && text[|value|..] == rest;
  }

  lemma QuotedConsumed(value: bytes, rest: bytes)
    ensures var text := [QUOTE] + Quoted(value) + [QUOTE] + rest;
      text[0] == QUOTE && ConsumeValue(text) == if OneLine(value) then Some((value, rest)) else None
  {
    UnquotedQuoted(value, rest);
    var text := [QUOTE] + Quoted(value) + [QUOTE] + rest;
    hide Quoted, Unquoted, OneLine;
    assert text[1..] == Quoted(value) + [QUOTE] + rest;
  }

  // ---- What is not written but read ----

  predicate Blanks(b: bytes) {
    forall c | c in b :: c == 32 || 9 <= c <= 13
  }

  lemma {:induction false} BlanksTrimmed(b: bytes, s: bytes)
    requires Blanks(b) && s != [] && 0x20 < s[0] < 0x7f
    ensures TrimLeft(b + s) == s
  {
    if b == [] {
      assert b + s == s;
      FirstKept(s);
    } else {
      assert b[0] in b && (b + s)[1..] == b[1..] + s && forall c | c in b[1..] :: c in b;
      BlanksTrimmed(b[1..], s);
    }
  }

  lemma TokenStops(a: bytes, b: bytes, s: bytes)
    requires IsToken(a) && Blanks(b) && s != [] && s[0] == EQ
    ensures TokenEnd(a + (b + s)) == |a|
  {
    assert b != [] ==> b[0] in b && (b + s)[0] == b[0];
    TokenEndIs(a, b + s);
  }

  /** White space around the parts of a parameter does not matter, nor does the case of its name. */
  lemma SpacedParam(u: Env, a: bytes, value: bytes, rest: bytes, b0: bytes, b1: bytes, b2: bytes, b3: bytes)
    requires Proper(u) && IsToken(a) && (rest == [] || rest[0] == SEMI)
    requires Blanks(b0) && Blanks(b1) && Blanks(b2) && Blanks(b3)
    ensures ConsumeParam(u, b0 + ([SEMI] + (b1 + (a + (b2 + ([EQ] + (b3 + (ValueText(value) + rest))))))))
      == if OneLine(value) then Param(AsciiLower(a), value, rest) else NoParam
  {
    var text := ValueText(value) + rest;
    var r2 := [EQ] + (b3 + text);
    var r1 := a + (b2 + r2);
    var r0 := [SEMI] + (b1 + r1);
    TokenIsAscii(a);
    ValueConsumed(value, rest);
    TokenStops(a, b2, r2);
    assert u.lower(a) == AsciiLower(a);
    assert r0[0] == SEMI && r1[0] == a[0] && r2[0] == EQ;
    hide Proper, IsToken, ValueText, OneLine, ConsumeValue, TrimLeft, TokenEnd, AsciiLower;
    BlanksTrimmed(b0, r0);
    BlanksTrimmed(b1, r1);
    BlanksTrimmed(b2, r2);
    BlanksTrimmed(b3, text);
    assert r0[1..] == b1 + r1 && r1[..|a|] == a && r1[|a|..] == b2 + r2 && r2[1..] == b3 + text;
  }

  /** A backslash in quotes that need not be one is kept, as in a path written by a browser of old. */
  predicate NeedlessSlashes(s: bytes) {
    OneLine(s) && QUOTE !in s && forall i: nat | i < |s| && s[i] == BACKSLASH :: i + 1 < |s| && IsTokenChar(s[i + 1])
  }

  lemma {:induction false} NeedlessSlashesKept(s: bytes, rest: bytes)
    requires NeedlessSlashes(s)
    ensures Unquoted(s + [QUOTE] + rest) == Some((s, rest))
  {
    var text := s + [QUOTE] + rest;
    if s == [] {
      assert text == [QUOTE] + rest;
    } else {
      var t := s[1..];
      forall i: nat | i < |t| && t[i] == BACKSLASH ensures i + 1 < |t| && IsTokenChar(t[i + 1]) {
        assert s[i + 1] == BACKSLASH;
      }
      NeedlessSlashesKept(t, rest);
      assert text[1..] == t + [QUOTE] + rest && text[0] == s[0] && s[0] in s;
      assert s[0] == BACKSLASH ==> IsTokenChar(text[1]);
      OneLineFront(s);
      BehindFirst(s, rest);
    }
  }

  /** What the text of a parameter starts with is no lone semicolon, however it is trimmed. */
  lemma MoreThanSemicolon(u: Env, a: bytes, value: bytes, rest: bytes)
    requires Proper(u) && LowerName(a)
    ensures var v := ParamText(u, a, value) + rest; TrimLeft(v) == v != [] && TrimSpace(v) != [SEMI]
  {
    TokenIsAscii(a);
    assert u.lower(a) == a;
    var v := ParamText(u, a, value) + rest;
    assert v[0] == SEMI && v[2] == a[0];
    hide ParamText, Proper, LowerName, TrimRight;
    FirstKept(v);
    TrimRightKeeps(v, 2);
  }

  lemma {:induction false} TrimRightKeeps(s: bytes, k: nat)
    requires k < |s| && 0x20 < s[k] < 0x7f
    ensures |TrimRight(s)| > k
  {
    var d := LastRune(s);
    if IsSpace(d.0) {
      LastRuneSpares(s, k);
      TrimRightKeeps(s[..|s| - d.1], k);
    }
  }

  /** The last rune does not reach back over a character that is not a space. */
  lemma LastRuneSpares(s: bytes, k: nat)
    requires k < |s| && 0x20 < s[k] < 0x7f && IsSpace(LastRune(s).0)
    ensures k < |s| - LastRune(s).1
  {
    if s[|s| - 1] >= Utf8.RUNE_SELF {
      var start := RuneStart(s, |s| - 2, if |s| > Utf8.UTF_MAX then |s| - Utf8.UTF_MAX else 0);
      var rest := s[start..];
      assert Utf8.DecodeRune(rest).0 != Utf8.RUNE_ERROR;
      assert forall i | start <= i < start + Utf8.DecodeRune(rest).1 :: s[i] == rest[i - start];
    }
  }

  function Without(param: Params, attrs: seq<bytes>): Params {
    map a | a in param && a !in attrs :: param[a]
  }

  /** The formatted parameters are parsed back, whatever order they are in. */
  lemma {:induction false} ParamsParsed(u: Env, mediatype: bytes, param: Params, attrs: seq<bytes>)
    requires Proper(u) && Increasing(attrs) && forall a | a in attrs :: a in param && PlainName(a)
    ensures ParseLoop(u, mediatype, ParamsText(u, param, attrs), Without(param, attrs), map[])
      == if forall a | a in attrs :: OneLine(param[a]) then Parsed(mediatype, param) else BadParameter(mediatype)
    decreases |attrs|
  {
    hide *;
    if attrs == [] {
      NoneLeft(u, param);
      ParseTurn(u, mediatype, [], param, map[]);
    } else {
      var (a, more) := (attrs[0], attrs[1..]);
      OneLess(u, param, attrs);
      FirstOfParams(u, param, more);
      WithoutStep(param, attrs);
      ParamTurn(u, mediatype, a, param[a], ParamsText(u, param, more), Without(param, attrs));
      ParamsParsed(u, mediatype, param, more);
      assert attrs == [a] + more;
    }
  }

  lemma NoneLeft(u: Env, param: Params)
    ensures ParamsText(u, param, []) == [] && Without(param, []) == param
    ensures Rfc2231.Stitch(u.lower, param, map[]) == param
  {
    Rfc2231.NothingToStitch(u.lower, param);
  }

  lemma OneLess(u: Env, param: Params, attrs: seq<bytes>)
    requires attrs != [] && Increasing(attrs) && forall a | a in attrs :: a in param && PlainName(a)
    ensures attrs[0] !in attrs[1..] && Increasing(attrs[1..])
    ensures forall a | a in attrs[1..] :: a in param && PlainName(a)
    ensures ParamsText(u, param, attrs) == ParamText(u, attrs[0], param[attrs[0]]) + ParamsText(u, param, attrs[1..])
  {
    TailMembers(attrs);
    hide PlainName, ParamText;
  }

  lemma WithoutStep(param: Params, attrs: seq<bytes>)
    requires attrs != [] && attrs[0] in param && attrs[0] !in attrs[1..]
    ensures attrs[0] !in Without(param, attrs)
    ensures Without(param, attrs)[attrs[0] := param[attrs[0]]] == Without(param, attrs[1..])
  {
    assert attrs == [attrs[0]] + attrs[1..];
  }

  /** The turn of the loop for the text of one parameter. */
  lemma ParamTurn(u: Env, mediatype: bytes, a: bytes, value: bytes, rest: bytes, params: Params)
    requires Proper(u) && PlainName(a) && (rest == [] || rest[0] == SEMI) && a !in params
    ensures ParseLoop(u, mediatype, ParamText(u, a, value) + rest, params, map[])
      == if OneLine(value) then ParseLoop(u, mediatype, rest, params[a := value], map[]) else BadParameter(mediatype)
  {
    assert STAR !in a;
    hide *;
    ParamConsumed(u, a, value, rest);
    MoreThanSemicolon(u, a, value, rest);
    ParseTurn(u, mediatype, ParamText(u, a, value) + rest, params, map[]);
  }

  lemma FirstOfParams(u: Env, param: Params, attrs: seq<bytes>)
    requires forall a | a in attrs :: a in param
    ensures ParamsText(u, param, attrs) == [] || ParamsText(u, param, attrs)[0] == SEMI
  {
  }

  /** A valid type is its own lower case's media type, with nothing to trim and no semicolon. */
  lemma TypeParsed(u: Env, t: bytes)
    requires Proper(u) && ValidType(t)
    ensures var text := TypeText(u, t);
      text == AsciiLower(t) && u.lower(text) == text && Clean(text)
  {
    if SLASH in t {
      var i := IndexByte(t, SLASH);
      IndexByteAbsent(t, SLASH);
      var (major, sub) := (t[..i], t[i + 1..]);
      TokenIsAscii(major);
      TokenIsAscii(sub);
      assert TypeText(u, t) == AsciiLower(major) + [SLASH] + AsciiLower(sub);
      hide *;
      assert t == major + [SLASH] + sub;
      LowerToken(major);
      LowerToken(sub);
      LowerConcat(major, sub);
      PairIsClean(AsciiLower(major), AsciiLower(sub));
    } else {
      TokenIsAscii(t);
      assert TypeText(u, t) == AsciiLower(t);
      hide *;
      LowerToken(t);
      TokenIsClean(AsciiLower(t));
    }
    LoweredAgain(t);
    hide TypeText, TrimSpace, IsMediaType, AsciiLower;
  }

  lemma LowerConcat(major: bytes, sub: bytes)
    ensures AsciiLower(major + [SLASH] + sub) == AsciiLower(major) + [SLASH] + AsciiLower(sub)
  {
  }

  predicate Clean(text: bytes) {
    SEMI !in text && TrimSpace(text) == text && IsMediaType(text) && forall c | c in text :: c < 0x80
  }

  lemma TokenIsClean(text: bytes)
    requires IsToken(text)
    ensures Clean(text)
  {
    TokenIsAscii(text);
    assert text + [] == text;
    TokenEndIs(text, []);
    NothingToTrim(text);
  }

  lemma PairIsClean(x: bytes, y: bytes)
    requires IsToken(x) && IsToken(y)
    ensures Clean(x + [SLASH] + y)
  {
    hide TrimSpace, IsMediaType, IsToken;
    PairTrims(x, y);
    PairIsMediaType(x, y);
    TokenIsAscii(x);
    TokenIsAscii(y);
    NoSemicolon(x);
    NoSemicolon(y);
  }

  lemma NoSemicolon(s: bytes)
    requires IsToken(s)
    ensures SEMI !in s
  {
  }

  lemma PairIsMediaType(x: bytes, y: bytes)
    requires IsToken(x) && IsToken(y)
    ensures IsMediaType(x + [SLASH] + y)
  {
    var text := x + [SLASH] + y;
    TokenEndIs(x, [SLASH] + y);
    TokenEndIs(y, []);
    hide TokenEnd;
    assert text == x + ([SLASH] + y) && text[|x| + 1..] == y && y + [] == y;
  }

  lemma PairTrims(x: bytes, y: bytes)
    requires IsToken(x) && IsToken(y)
    ensures TrimSpace(x + [SLASH] + y) == x + [SLASH] + y
  {
    assert x != [] && y != [];
    hide TrimSpace, IsToken;
    var text := x + [SLASH] + y;
    TokenIsAscii(x);
    TokenIsAscii(y);
    assert text[0] == x[0] && text[|text| - 1] == y[|y| - 1];
    NothingToTrim(text);
  }

  lemma LowerToken(s: bytes)
    requires IsToken(s)
    ensures IsToken(AsciiLower(s))
  {
    assert forall c :: IsTokenChar(c) ==> IsTokenChar(LowerByte(c));
  }

  lemma LoweredAgain(s: bytes)
    ensures AsciiLower(AsciiLower(s)) == AsciiLower(s)
  {
  }

  /** The round trip: for plain attribute names what was formatted is parsed back, with the type in lower
      case, exactly if no value has a line break. */
  method FormatThenParse(u: Env, t: bytes, param: Params) returns (text: bytes, r: Parsed)
    requires Proper(u) && forall a | a in param :: PlainName(a)
    ensures text != [] <==> ValidType(t) && forall a | a in param :: IsToken(param[a]) || Plain(param[a])
    ensures text != [] ==>
      r == if forall a | a in param :: OneLine(param[a]) then Parsed(AsciiLower(t), param)
        else BadParameter(AsciiLower(t))
  {
    ghost var attrs;
    text, attrs := FormatMediaType(u, t, param);
    r := ParseMediaType(u, text);
    if ValidType(t) {
      TypeParsed(u, t);
      if forall a | a in param :: Formattable(a, param[a]) {
        FormattedIsParsed(u, t, param, attrs);
      }
    }
  }

  lemma FormattedIsParsed(u: Env, t: bytes, param: Params, attrs: seq<bytes>)
    requires Proper(u) && ValidType(t) && Increasing(attrs)
    requires forall a :: a in attrs <==> a in param
    requires forall a | a in param :: PlainName(a)
    ensures Parse(u, TypeText(u, t) + ParamsText(u, param, attrs))
      == if forall a | a in param :: OneLine(param[a]) then Parsed(AsciiLower(t), param)
        else BadParameter(AsciiLower(t))
  {
    assert Without(param, attrs) == map[];
    hide *;
    TypeParsed(u, t);
    ParamsParsed(u, AsciiLower(t), param, attrs);
    FirstOfParams(u, param, attrs);
    ParseBehind(u, TypeText(u, t), ParamsText(u, param, attrs));
  }

  lemma TypeEnds(text: bytes, params: bytes)
    requires SEMI !in text && (params == [] || params[0] == SEMI)
    ensures var v := text + params; var i := if SEMI in v then IndexByte(v, SEMI) else |v|;
      v[..i] == text && v[i..] == params
  {
    var v := text + params;
    if params == [] {
      assert v == text;
    } else {
      assert v[|text|] == SEMI && v[..|text|] == text;
      IndexByteUnique(v, SEMI, |text|);
    }
  }

  lemma {:induction false} BlanksTrimmedRight(s: bytes, b: bytes)
    requires Blanks(b) && s != [] && 0x20 < s[|s| - 1] < 0x7f
    ensures TrimRight(s + b) == s
  {
    hide LastRune;
    if b == [] {
      assert s + b == s;
      LastByte(s);
    } else {
      var m := |b| - 1;
      assert b[m] in b && (s + b)[|s + b| - 1] == b[m];
      LastByte(s + b);
      assert (s + b)[..|s| + m] == s + b[..m] && forall c | c in b[..m] :: c in b;
      BlanksTrimmedRight(s, b[..m]);
    }
  }

  lemma LastByte(s: bytes)
    requires s != [] && s[|s| - 1] < 0x80
    ensures LastRune(s) == (s[|s| - 1] as int, 1)
  {
    hide RuneStart;
  }

  lemma LowerBlanks(b0: bytes, t: bytes, b1: bytes)
    requires Blanks(b0) && Blanks(b1)
    ensures AsciiLower(b0 + t + b1) == b0 + (AsciiLower(t) + b1)
  {
    assert forall i | 0 <= i < |b0| :: b0[i] in b0;
    assert forall i | 0 <= i < |b1| :: b1[i] in b1;
  }

  /** The type may stand between white space and have capitals. */
  lemma SpacedType(u: Env, t: bytes, params: bytes, b0: bytes, b1: bytes)
    requires Proper(u) && ValidType(t) && (params == [] || params[0] == SEMI) && Blanks(b0) && Blanks(b1)
    ensures Parse(u, b0 + t + b1 + params) == ParseLoop(u, AsciiLower(t), params, map[], map[])
  {
    var (text, low) := (b0 + t + b1, AsciiLower(t));
    TypeParsed(u, t);
    TypeBytes(t);
    assert forall c | c in text :: c in b0 || c in t || c in b1;
    assert u.lower(text) == AsciiLower(text);
    assert 0x20 < (low + b1)[0] < 0x7f;
    hide Proper, ValidType, TrimLeft, TrimRight, IsMediaType, AsciiLower, ParseLoop, TypeText;
    LowerBlanks(b0, t, b1);
    BlanksTrimmed(b0, low + b1);
    BlanksTrimmedRight(low, b1);
    TypeEnds(text, params);
  }

  /** No byte of a type is a space or a semicolon, or beyond ASCII. */
  lemma TypeBytes(t: bytes)
    requires ValidType(t)
    ensures t != [] && forall c | c in t :: 0x20 < c < 0x7f && c != SEMI
    ensures 0x20 < AsciiLower(t)[0] < 0x7f && 0x20 < AsciiLower(t)[|t| - 1] < 0x7f
  {
    if SLASH in t {
      var i := IndexByte(t, SLASH);
      IndexByteAbsent(t, SLASH);
      assert t == t[..i] + [SLASH] + t[i + 1..];
      assert forall c | c in t :: c in t[..i] || c == SLASH || c in t[i + 1..];
    }
    assert t[0] in t && t[|t| - 1] in t;
  }

  /** In "a/b; c*0=x" the piece makes the parameter c, and with a semicolon behind there is none. */
  lemma PieceLost(u: Env) returns (text: bytes)
    requires Proper(u)
    ensures Parse(u, text) == Parsed([97, 47, 98], map[[99] := [120]])
    ensures Parse(u, text + [SEMI]) == Parsed([97, 47, 98], map[])
  {
    var (t: bytes, key: bytes, value: bytes) := ([97, 47, 98], [99, 42, 48], [120]);
    var param := ParamText(u, key, value);
    text := t + param;
    hide *;
    ShortType(u, t);
    PieceEntered(u, key, value);
    OnePieceStitched(u);
    EndAppended(u, param, map[], map[]);
    LoneResult(u, t, param);
    ParseBehind(u, t, param);
    ParseWithSemicolon(u, t, param);
  }

  lemma ParseWithSemicolon(u: Env, t: bytes, params: bytes)
    requires Clean(t) && u.lower(t) == t && params != [] && params[0] == SEMI
    ensures Parse(u, t + params + [SEMI]) == ParseLoop(u, t, params + [SEMI], map[], map[])
  {
    hide *;
    assert t + params + [SEMI] == t + (params + [SEMI]);
    ParseBehind(u, t, params + [SEMI]);
  }

  lemma ShortType(u: Env, t: bytes)
    requires Proper(u) && t == [97, 47, 98]
    ensures Clean(t) && u.lower(t) == t
  {
    assert t[..1] == [97] && t[2..] == [98];
    IndexByteUnique(t, SLASH, 1);
    assert ValidType(t) && AsciiLower(t) == t;
    hide IsToken, Clean, IndexByte, TypeText;
    TypeParsed(u, t);
  }

  lemma LoneResult(u: Env, mediatype: bytes, v: bytes)
    ensures EndOf(u, v, map[], map[]).AllUsed? ==>
      ParseLoop(u, mediatype, v, map[], map[])
      == var e := EndOf(u, v, map[], map[]); Parsed(mediatype, Rfc2231.Stitch(u.lower, e.params, e.pieces))
    ensures EndOf(u, v + [SEMI], map[], map[]) == Unread([SEMI], map[]) ==>
      ParseLoop(u, mediatype, v + [SEMI], map[], map[]) == Parsed(mediatype, map[])
  {
    LoneSemicolon(u);
    hide EndOf, TrimSpace, Rfc2231.Stitch;
  }

  /** The parameters behind a type that is its own media type. */
  lemma ParseBehind(u: Env, text: bytes, params: bytes)
    requires Clean(text) && u.lower(text) == text && (params == [] || params[0] == SEMI)
    ensures Parse(u, text + params) == ParseLoop(u, text, params, map[], map[])
  {
    TypeEnds(text, params);
    hide ParseLoop, TrimSpace, IsMediaType, IndexByte;
  }

  lemma PieceEntered(u: Env, key: bytes, value: bytes)
    requires Proper(u) && key == [99, 42, 48] && value == [120]
    ensures EndOf(u, ParamText(u, key, value), map[], map[]) == AllUsed(map[], map[[99] := map[key := value]])
    ensures ParamText(u, key, value) != [] && ParamText(u, key, value)[0] == SEMI
  {
    assert LowerName(key) && OneLine(value);
    var v := ParamText(u, key, value);
    assert v + [] == v;
    ParamConsumed(u, key, value, []);
    MoreThanSemicolon(u, key, value, []);
    IndexByteUnique(key, STAR, 1);
    assert key[..1] == [99];
    TrimNothing();
    hide ParamText, ConsumeParam, TrimLeft, TrimSpace;
  }

  lemma OnePieceStitched(u: Env)
    ensures Rfc2231.Stitch(u.lower, map[], map[[99] := map[[99, 42, 48] := [120]]]) == map[[99] := [120]]
  {
    var (key: bytes, name: bytes, value: bytes) := ([99], [99, 42, 48], [120]);
    var m: Params := map[name := value];
    assert Rfc2231.Decimal(0) == [48] && Rfc2231.Decimal(1) == [49];
    assert Rfc2231.Part(key, 0) == name && Rfc2231.Part(key, 1) == [99, 42, 49];
    Rfc2231.MissingUnique(m, key, 1);
    assert Rfc2231.PieceText(u.lower, m, key, 0) == value;
    assert Rfc2231.Joined(u.lower, m, key, 0) == [] && [] + value == value;
    assert Rfc2231.Joined(u.lower, m, key, 1) == value;
    assert |key + [STAR]| == 2 && key + [STAR] !in m;
    assert Rfc2231.Missing(m, key, 0) == 1;
    assert Rfc2231.Stitched(u.lower, m, key) == Some(value);
  }
}
