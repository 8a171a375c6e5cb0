/** mime/encodedword.go: encoded words of RFC 2047 in Q encoding, and decoding a header of them. */
module EncodedWord {
  import opened Bytes
  import Search
  import Split
  import Utf8

  const EQ: byte := 61 // '='
  const QM: byte := 63 // '?'
  const SPACE: byte := 32
  const UNDERSCORE: byte := 95
  const OPEN: bytes := [EQ, QM]
  const CLOSE: bytes := [QM, EQ]
  const MAX_ENCODED_WORD_LEN := 75
  const MAX_CONTENT_LEN := 63 // less "=?UTF-8?q?" and "?="

  predicate NeedsEncoding(s: bytes) {
    exists b | b in s :: (b < SPACE || b > 126) && b != 9
  }

  const UTF_8: bytes := [117, 116, 102, 45, 56]
  const ISO_8859_1: bytes := [105, 115, 111, 45, 56, 56, 53, 57, 45, 49]
  const US_ASCII: bytes := [117, 115, 45, 97, 115, 99, 105, 105]

  /** strings.EqualFold, of a name in lower case */
  predicate EqualFold(name: bytes, charset: bytes) {
    |charset| == |name| && forall i | 0 <= i < |name| :: LowerByte(charset[i]) == name[i]
  }

  /** Any of the letters of the name may be capitals. */
  lemma FoldsCapitals(name: bytes, charset: bytes)
    requires |charset| == |name| && forall i | 0 <= i < |name| ::
      if 97 <= name[i] <= 122 then charset[i] == name[i] || charset[i] == name[i] - 32 else charset[i] == name[i] < 65
    ensures EqualFold(name, charset)
  {
  }

  predicate IsUTF8(charset: bytes) {
    EqualFold(UTF_8, charset)
  }

  // ---- Q encoding ----

  predicate Plain(b: byte) {
    33 <= b <= 126 && b != EQ && b != QM && b != UNDERSCORE
  }

  function QByte(b: byte): (q: bytes)
    ensures |q| == if b == SPACE || Plain(b) then 1 else 3
    ensures QM !in q
  {
    if b == SPACE then [UNDERSCORE]
    else if Plain(b) then [b]
    else [EQ, HexDigit(b / 16), HexDigit(b % 16)]
  }

  /** What writeQString writes. */
  function QText(s: bytes): (q: bytes)
    ensures QM !in q
  {
    if s == [] then [] else QText(s[..|s| - 1]) + QByte(s[|s| - 1])
  }

  lemma {:induction false} QTextConcat(s: bytes, t: bytes)
    ensures QText(s + t) == QText(s) + QText(t)
  {
    if t == [] {
      assert s + t == s;
    } else {
      var front := t[..|t| - 1];
      assert (s + t)[..|s + t| - 1] == s + front;
      QTextConcat(s, front);
    }
  }

  function FromHex(b: byte): (n: int)
    ensures -1 <= n < 16
  {
    if 48 <= b <= 57 then b - 48
    else if 65 <= b <= 70 then b - 65 + 10
    else if 97 <= b <= 102 then b - 97 + 10 // lower case too
    else -1
  }

  predicate Printable(c: byte) {
    SPACE <= c <= 126 || c == 10 || c == 13 || c == 9
  }

  /** The first byte of a Q-encoded text and how many bytes it takes up there, if it is well formed. */
  function QHead(s: bytes): Option<(byte, nat)>
    requires s != []
  {
    var c := s[0];
    if c == UNDERSCORE then Some((SPACE, 1))
    else if c == EQ then
      if |s| < 3 || FromHex(s[1]) < 0 || FromHex(s[2]) < 0 then None
      else Some((FromHex(s[1]) * 16 + FromHex(s[2]), 3))
    else if Printable(c) then Some((c, 1))
    else None
  }

  function Prepend(p: bytes, o: Option<bytes>): Option<bytes> {
    match o
    case None => None
    case Some(t) => Some(p + t)
  }

  lemma PrependConcat(p: bytes, q: bytes, o: Option<bytes>)
    ensures Prepend(p, Prepend(q, o)) == Prepend(p + q, o)
  {
    if o.Some? {
      assert p + (q + o.value) == (p + q) + o.value;
    }
  }

  lemma PrependNothing(p: bytes, o: Option<bytes>)
    ensures Prepend([], o) == o && Prepend(p, Some([])) == Some(p)
  {
    assert p + [] == p;
    if o.Some? {
      assert [] + o.value == o.value;
    }
  }

  function QDecoded(s: bytes): Option<bytes> {
    if s == [] then Some([])
    else match QHead(s)
      case None => None
      case Some((b, n)) => Prepend([b], QDecoded(s[n..]))
  }

  lemma QHeadOfByte(b: byte, rest: bytes)
    ensures QHead(QByte(b) + rest) == Some((b, |QByte(b)|))
  {
    var q := QByte(b) + rest;
    assert q[0] == QByte(b)[0];
    if b != SPACE && !Plain(b) {
      assert q[1] == HexDigit(b / 16) && q[2] == HexDigit(b % 16);
      assert FromHex(HexDigit(b / 16)) == b / 16 && FromHex(HexDigit(b % 16)) == b % 16;
    }
  }

  /** Q decoding undoes Q encoding, whatever the bytes. */
  lemma {:induction false} QDecodesQText(s: bytes)
    ensures QDecoded(QText(s)) == Some(s)
  {
    if s != [] {
      var (b, rest) := (s[0], s[1..]);
      assert s == [b] + rest;
      QTextConcat([b], rest);
      assert [b][..0] == [] && QText([b]) == [] + QByte(b) == QByte(b);
      QHeadOfByte(b, QText(rest));
      assert QText(s)[|QByte(b)|..] == QText(rest);
      QDecodesQText(rest);
    }
  }

  /** qDecode */
  method QDecode(s: bytes) returns (r: Option<bytes>)
    ensures r == QDecoded(s)
  {
    var dec := new byte[|s|];
    var n := 0;
    var i := 0;
    assert s[0..] == s;
    PrependNothing([], QDecoded(s));
    while i < |s|
      invariant 0 <= n <= i <= |s|
      invariant QDecoded(s) == Prepend(dec[..n], QDecoded(s[i..]))
    {
      ghost var (rest, done) := (s[i..], dec[..n]);
      var c := s[i];
      var width := 1;
      if c == UNDERSCORE {
        dec[n] := SPACE;
      } else if c == EQ {
        if i + 2 >= |s| {
          return None;
        }
        var hb, lb := FromHex(s[i + 1]), FromHex(s[i + 2]);
        if hb < 0 || lb < 0 {
          return None;
        }
        dec[n] := hb * 16 + lb;
        width := 3;
      } else if Printable(c) {
        dec[n] := c;
      } else {
        return None;
      }
      assert QHead(rest) == Some((dec[n], width));
      assert rest[width..] == s[i + width..];
      assert dec[..n + 1] == done + [dec[n]];
      PrependConcat(done, [dec[n]], QDecoded(rest[width..]));
      i := i + width;
      n := n + 1;
    }
    PrependNothing(dec[..n], None);
    return Some(dec[..n]);
  }

  /** Digits in lower case are read as those in upper case are. */
  lemma LowerHexRead(b: byte, rest: bytes)
    ensures QDecoded([EQ, LowerByte(HexDigit(b / 16)), LowerByte(HexDigit(b % 16))] + rest)
      == QDecoded([EQ, HexDigit(b / 16), HexDigit(b % 16)] + rest) == Prepend([b], QDecoded(rest))
  {
    var (s, t) := ([EQ, LowerByte(HexDigit(b / 16)), LowerByte(HexDigit(b % 16))] + rest,
                   [EQ, HexDigit(b / 16), HexDigit(b % 16)] + rest);
    assert s[3..] == rest && t[3..] == rest;
    HexRead(b / 16);
    HexRead(b % 16);
    hide FromHex, HexDigit, LowerByte;
  }

  lemma HexRead(n: nat)
    requires n < 16
    ensures FromHex(HexDigit(n)) == FromHex(LowerByte(HexDigit(n))) == n
  {
  }

  // ---- Encoding words ----

  function Opener(charset: bytes): bytes {
    OPEN + charset + [QM, 113, QM] // "=?UTF-8?q?"
  }

  function Word(charset: bytes, chunk: bytes): bytes {
    Opener(charset) + QText(chunk) + CLOSE
  }

  function WordsOf(charset: bytes, chunks: seq<bytes>): (w: seq<bytes>)
    ensures |w| == |chunks|
  {
    seq(|chunks|, i requires 0 <= i < |chunks| => Word(charset, chunks[i]))
  }

  /** The encoded words of the chunks, with a space between two of them. */
  function Header(charset: bytes, chunks: seq<bytes>): bytes {
    Split.Join(WordsOf(charset, chunks), [SPACE])
  }

  /** Only the characters a header may hold: no control characters, and none beyond ASCII. */
  predicate FitsHeader(s: bytes) {
    forall c | c in s :: 0x20 <= c < 0x7f
  }

  lemma QByteFits(b: byte)
    ensures FitsHeader(QByte(b)) && SPACE !in QByte(b)
  {
  }

  lemma {:induction false} QTextFits(s: bytes)
    ensures FitsHeader(QText(s)) && SPACE !in QText(s)
  {
    if s != [] {
      QTextFits(s[..|s| - 1]);
      QByteFits(s[|s| - 1]);
    }
  }

  lemma WordFits(charset: bytes, chunk: bytes)
    requires FitsHeader(charset)
    ensures FitsHeader(Word(charset, chunk)) && (SPACE !in charset ==> SPACE !in Word(charset, chunk))
  {
    QTextFits(chunk);
    hide QText;
  }

  lemma {:induction false} EachFits(pieces: seq<bytes>, sep: bytes)
    requires FitsHeader(sep) && forall p | p in pieces :: FitsHeader(p)
    ensures FitsHeader(Split.Each(pieces, sep))
  {
    if pieces != [] {
      EachFits(pieces[..|pieces| - 1], sep);
      assert pieces[|pieces| - 1] in pieces;
    }
  }

  /** Whatever the text, encoded words can stand in a header. */
  lemma HeaderFits(charset: bytes, chunks: seq<bytes>)
    requires FitsHeader(charset)
    ensures FitsHeader(Header(charset, chunks))
  {
    var words := WordsOf(charset, chunks);
    forall w | w in words ensures FitsHeader(w) {
      var i :| 0 <= i < |words| && words[i] == w;
      WordFits(charset, chunks[i]);
    }
    hide Word;
    if chunks != [] {
      EachFits(words[..|words| - 1], [SPACE]);
      assert words[|words| - 1] in words;
    }
  }

  /** n is the end of some rune of s, or 0. */
  predicate Boundary(s: bytes, n: nat) {
    n == 0 || (0 < Split.Width(s) <= n && Boundary(s[Split.Width(s)..], n - Split.Width(s)))
  }

  lemma {:induction false} NextBoundary(s: bytes, n: nat)
    requires Boundary(s, n) && n < |s|
    ensures Boundary(s, n + Split.Width(s[n..]))
  {
    var w := Split.Width(s);
    if n > 0 {
      assert s[w..][n - w..] == s[n..];
      NextBoundary(s[w..], n - w);
    } else {
      assert s[0..] == s;
      assert Boundary(s[w..], 0);
    }
  }

  ghost predicate AllFit(chunks: seq<bytes>) {
    forall c | c in chunks :: |QText(c)| <= MAX_CONTENT_LEN
  }

  ghost predicate AllEndRunes(s: bytes, chunks: seq<bytes>) {
    forall k | 0 <= k <= |chunks| :: Boundary(s, |Flatten(chunks[..k])|)
  }

  /** The runes of the chunks, each decoded for itself. */
  function RunesOf(chunks: seq<bytes>): seq<int> {
    if chunks == [] then [] else RunesOf(chunks[..|chunks| - 1]) + Utf8.Runes(chunks[|chunks| - 1], true)
  }

  lemma {:induction false} BoundaryRunes(s: bytes, n: nat)
    requires n <= |s| && Boundary(s, n)
    ensures Utf8.Runes(s, true) == Utf8.Runes(s[..n], true) + Utf8.Runes(s[n..], true)
  {
    if n == 0 {
      hide Utf8.DecodeRune;
      assert s[0..] == s && s[..0] == [];
      assert Utf8.Runes([], true) + Utf8.Runes(s, true) == Utf8.Runes(s, true);
    } else {
      var w := Split.Width(s);
      hide Utf8.DecodeRune, Utf8.Runes, Split.Width;
      BoundaryRunes(s[w..], n - w);
      FirstOfPrefix(s, n);
      assert s[w..][..n - w] == s[..n][w..] && s[w..][n - w..] == s[n..];
      var (r, p, q) := (Utf8.DecodeRune(s).0, Utf8.Runes(s[..n][w..], true), Utf8.Runes(s[n..], true));
      assert [r] + (p + q) == ([r] + p) + q;
    }
  }

  lemma FirstOfPrefix(s: bytes, n: nat)
    requires 0 < Split.Width(s) <= n <= |s|
    ensures var (r, w) := (Utf8.DecodeRune(s).0, Split.Width(s));
      Utf8.Runes(s, true) == [r] + Utf8.Runes(s[w..], true) &&
      Utf8.Runes(s[..n], true) == [r] + Utf8.Runes(s[..n][w..], true)
  {
    Utf8.RuneInPrefix(s, n);
    hide Utf8.DecodeRune;
  }

  lemma {:induction false} BoundaryInPrefix(s: bytes, a: nat, b: nat)
    requires a <= b <= |s| && Boundary(s, a) && Boundary(s, b)
    ensures Boundary(s[..b], a)
  {
    if a > 0 {
      var w := Split.Width(s);
      BoundaryInPrefix(s[w..], a - w, b - w);
      Utf8.RuneInPrefix(s, b);
      hide Utf8.DecodeRune;
      assert s[w..][..b - w] == s[..b][w..];
    }
  }

  /** So chunks that end between runes have the runes of the whole. */
  lemma {:induction false} ChunksRunes(chunks: seq<bytes>)
    requires AllEndRunes(Flatten(chunks), chunks)
    ensures RunesOf(chunks) == Utf8.Runes(Flatten(chunks), true)
  {
    if chunks != [] {
      var m := |chunks| - 1;
      var (front, last, s) := (chunks[..m], chunks[m], Flatten(chunks));
      var b := |Flatten(front)|;
      assert s == Flatten(front) + last && Boundary(s, b);
      assert s[..b] == Flatten(front) && s[b..] == last;
      forall k | 0 <= k <= m
        ensures Boundary(Flatten(front), |Flatten(front[..k])|)
      {
        assert front[..k] == chunks[..k] && Boundary(s, |Flatten(chunks[..k])|);
        FlattenPrefix(front, k);
        BoundaryInPrefix(s, |Flatten(front[..k])|, b);
      }
      ChunksRunes(front);
      BoundaryRunes(s, b);
    }
  }

  /** The chunks make up s, rune by rune; each fits an encoded word and ends between two runes. */
  ghost predicate Chunked(charset: bytes, chunks: seq<bytes>, s: bytes) {
    && chunks != [] && Flatten(chunks) == s && RunesOf(chunks) == Utf8.Runes(s, true)
    && (forall c | c in chunks :: |Word(charset, c)| <= MAX_ENCODED_WORD_LEN)
    && AllEndRunes(s, chunks)
  }

  /** text is the words of some division of s: each word of at most 75 bytes, none ending inside a rune. */
  ghost predicate EncodedAs(charset: bytes, s: bytes, text: bytes) {
    exists chunks :: Chunked(charset, chunks, s) && text == Header(charset, chunks)
  }

  lemma EncodedFits(charset: bytes, s: bytes, r: bytes)
    requires FitsHeader(charset) && (EncodedAs(charset, s, r) || r == Header(charset, [s]))
    ensures FitsHeader(r)
  {
    var chunks :| r == Header(charset, chunks);
    HeaderFits(charset, chunks);
    hide Header;
  }

  lemma AllFitAppend(chunks: seq<bytes>, c: bytes)
    requires AllFit(chunks) && |QText(c)| <= MAX_CONTENT_LEN
    ensures AllFit(chunks + [c])
  {
    hide QText;
  }

  lemma AllEndAppend(s: bytes, chunks: seq<bytes>, c: bytes)
    requires AllEndRunes(s, chunks) && Boundary(s, |Flatten(chunks) + c|)
    ensures AllEndRunes(s, chunks + [c])
  {
    FlattenAppend(chunks, c);
    hide Boundary, Flatten;
    var more := chunks + [c];
    forall k | 0 <= k <= |more| ensures Boundary(s, |Flatten(more[..k])|) {
      assert more[..k] == if k <= |chunks| then chunks[..k] else more;
    }
  }

  lemma WordsAppend(charset: bytes, chunks: seq<bytes>, c: bytes)
    ensures var each := Split.Each(WordsOf(charset, chunks), [SPACE]);
      Split.Each(WordsOf(charset, chunks + [c]), [SPACE]) == each + Word(charset, c) + [SPACE] &&
      Header(charset, chunks + [c]) == each + Word(charset, c)
  {
    assert WordsOf(charset, chunks + [c]) == WordsOf(charset, chunks) + [Word(charset, c)];
    hide Word;
    Split.EachAppend(WordsOf(charset, chunks), Word(charset, c), [SPACE]);
  }

  /** A rune of more than one byte has no byte that Q encoding leaves alone. */
  lemma RuneEncodedWidth(s: bytes)
    requires s != []
    ensures var w := Split.Width(s);
      |QText(s[..w])| == if s[0] == SPACE || Plain(s[0]) then 1 else 3 * w
    ensures s[0] == SPACE || Plain(s[0]) ==> Split.Width(s) == 1
    ensures |QText(s[..Split.Width(s)])| <= 12
  {
    var w := Split.Width(s);
    assert w <= 4 && forall i | 0 < i < w :: s[i] >= 0x80;
    assert s[0] == SPACE || Plain(s[0]) ==> w == 1;
    hide Split.Width, QText, QByte;
    if s[0] == SPACE || Plain(s[0]) {
      QTextOne(s[0]);
      assert s[..1] == [s[0]];
    } else {
      QTextOfTriples(s[..w]);
    }
  }

  lemma QTextOne(b: byte)
    ensures QText([b]) == QByte(b) && QText([]) == []
  {
    assert [b][..0] == [] && QText([b]) == [] + QByte(b);
  }

  lemma {:induction false} QTextOfTriples(p: bytes)
    requires forall i | 0 <= i < |p| :: p[i] != SPACE && !Plain(p[i])
    ensures |QText(p)| == 3 * |p|
  {
    if p != [] {
      QTextOfTriples(p[..|p| - 1]);
    }
  }

  /** Where qEncode stands: i bytes of s are in the closed words and the open one, which holds cur. */
  ghost predicate Encoding(charset: bytes, s: bytes, i: nat, buf: bytes, done: seq<bytes>, cur: bytes) {
    && i <= |s| && Boundary(s, i) && Flatten(done) + cur == s[..i]
    && buf == Split.Each(WordsOf(charset, done), [SPACE]) + (Opener(charset) + QText(cur))
    && |QText(cur)| <= MAX_CONTENT_LEN && AllFit(done) && AllEndRunes(s, done)
  }

  lemma EncodingStarts(charset: bytes, s: bytes)
    ensures Encoding(charset, s, 0, Opener(charset), [], []) && QText([]) == []
  {
    assert WordsOf(charset, []) == [] && Split.Each([], [SPACE]) == [];
  }

  /** splitWord keeps it: the open word is closed. */
  lemma EncodingSplit(charset: bytes, s: bytes, i: nat, buf: bytes, done: seq<bytes>, cur: bytes)
    requires Encoding(charset, s, i, buf, done, cur)
    ensures Encoding(charset, s, i, buf + CLOSE + [SPACE] + Opener(charset), done + [cur], [])
  {
    hide Boundary, AllFit, AllEndRunes, Split.Each, WordsOf, Opener, Flatten;
    WordsAppend(charset, done, cur);
    FlattenAppend(done, cur);
    AllFitAppend(done, cur);
    AllEndAppend(s, done, cur);
    CloseAndOpen(Split.Each(WordsOf(charset, done), [SPACE]), Opener(charset), QText(cur), CLOSE, [SPACE]);
    assert s[..i] + [] == s[..i];
    assert Word(charset, cur) == Opener(charset) + QText(cur) + CLOSE && QText([]) == [];
  }

  lemma CloseAndOpen(each: bytes, opener: bytes, text: bytes, close: bytes, space: bytes)
    ensures (each + (opener + text)) + close + space + opener
         == each + (opener + text + close) + space + (opener + [])
    ensures (each + (opener + text)) + close == each + (opener + text + close)
  {
  }

  /** And so does one more rune that fits. */
  lemma EncodingRune(charset: bytes, s: bytes, i: nat, buf: bytes, done: seq<bytes>, cur: bytes, p: bytes)
    requires Encoding(charset, s, i, buf, done, cur)
    requires i + |p| <= |s| && p == s[i..i + |p|] && Boundary(s, i + |p|)
    requires |QText(cur)| + |QText(p)| <= MAX_CONTENT_LEN
    ensures Encoding(charset, s, i + |p|, buf + QText(p), done, cur + p)
  {
    QTextConcat(cur, p);
    hide Boundary, Flatten, QText, Split.Each, WordsOf, AllFit, AllEndRunes, Opener;
    AppendRune(Split.Each(WordsOf(charset, done), [SPACE]), Opener(charset), QText(cur), QText(p));
    AppendBytes(Flatten(done), cur, p, s, i);
  }

  lemma EncodingBoundary(charset: bytes, s: bytes, i: nat, buf: bytes, done: seq<bytes>, cur: bytes)
    requires Encoding(charset, s, i, buf, done, cur) && i < |s|
    ensures Boundary(s, i + Split.Width(s[i..]))
  {
    NextBoundary(s, i);
  }

  lemma AppendRune(each: bytes, opener: bytes, text: bytes, q: bytes)
    ensures (each + (opener + text)) + q == each + (opener + (text + q))
  {
  }

  lemma AppendBytes(done: bytes, cur: bytes, p: bytes, s: bytes, i: nat)
    requires i + |p| <= |s| && done + cur == s[..i] && p == s[i..i + |p|]
    ensures done + (cur + p) == s[..i + |p|]
  {
    assert s[..i + |p|] == s[..i] + p;
  }

  lemma EncodingEnds(charset: bytes, s: bytes, buf: bytes, done: seq<bytes>, cur: bytes)
    requires Encoding(charset, s, |s|, buf, done, cur) && IsUTF8(charset)
    ensures EncodedAs(charset, s, buf + CLOSE)
  {
    var chunks := done + [cur];
    WordsAppend(charset, done, cur);
    FlattenAppend(done, cur);
    AllFitAppend(done, cur);
    hide Boundary, AllEndRunes, Split.Each, Split.Join, WordsOf, Flatten, QText;
    AllEndAppend(s, done, cur);
    assert s[..|s|] == s;
    ChunksRunes(chunks);
    assert forall c :: |Word(charset, c)| == |QText(c)| + 12;
    CloseAndOpen(Split.Each(WordsOf(charset, done), [SPACE]), Opener(charset), QText(cur), CLOSE, [SPACE]);
    assert Chunked(charset, chunks, s) && buf + CLOSE == Header(charset, chunks);
  }

  /** writeQString */
  method WriteQString(buf: bytes, s: bytes) returns (r: bytes)
    ensures r == buf + QText(s)
  {
    r := buf;
    for i := 0 to |s|
      invariant r == buf + QText(s[..i])
    {
      assert s[..i + 1][..i] == s[..i];
      r := r + QByte(s[i]);
    }
    assert s[..|s|] == s;
  }

  /** qEncode, behind the opening of the first word. */
  method QEncode(charset: bytes, s: bytes) returns (buf: bytes)
    requires IsUTF8(charset)
    ensures EncodedAs(charset, s, buf + CLOSE)
  {
    hide *;
    buf := Opener(charset);
    var i, currentLen := 0, 0;
    ghost var (done: seq<bytes>, cur: bytes) := ([], []);
    EncodingStarts(charset, s);
    while i < |s|
      invariant 0 <= i <= |s| && currentLen == |QText(cur)| && Encoding(charset, s, i, buf, done, cur)
    {
      var b := s[i];
      // A word ends between runes,
      // as RFC 2047 section 5 asks.
      var runeLen, encLen;
      EncodedLength(s, i);
      if b == SPACE || Plain(b) {
        runeLen, encLen := 1, 1;
      } else {
        runeLen := Split.Width(s[i..]);
        encLen := 3 * runeLen;
      }
      if currentLen + encLen > MAX_CONTENT_LEN {
        buf, done := SplitWord(charset, s, i, buf, done, cur);
        currentLen := 0;
        cur := [];
      }
      buf, cur := WriteRune(charset, s, i, buf, runeLen, done, cur);
      currentLen := currentLen + encLen;
      i := i + runeLen;
    }
    EncodingEnds(charset, s, buf, done, cur);
  }

  method WriteRune(charset: bytes, s: bytes, i: nat, buf: bytes, w: nat, ghost done: seq<bytes>, ghost cur: bytes)
      returns (r: bytes, ghost cur1: bytes)
    requires Encoding(charset, s, i, buf, done, cur) && i + w <= |s| && i < |s| && w == Split.Width(s[i..])
    requires |QText(cur)| + |QText(s[i..i + w])| <= MAX_CONTENT_LEN
    ensures Encoding(charset, s, i + w, r, done, cur1) && |QText(cur1)| == |QText(cur)| + |QText(s[i..i + w])|
  {
    hide *;
    ghost var p := s[i..i + w];
    EncodingBoundary(charset, s, i, buf, done, cur);
    EncodingRune(charset, s, i, buf, done, cur, p);
    QTextConcat(cur, p);
    cur1 := cur + p;
    r := WriteQString(buf, s[i..i + w]);
  }

  /** splitWord: close the word and open another. */
  method SplitWord(charset: bytes, ghost s: bytes, ghost i: nat, buf: bytes, ghost done: seq<bytes>, ghost cur: bytes)
      returns (r: bytes, ghost done1: seq<bytes>)
    requires Encoding(charset, s, i, buf, done, cur)
    ensures Encoding(charset, s, i, r, done1, [])
  {
    EncodingSplit(charset, s, i, buf, done, cur);
    hide *;
    r := buf + CLOSE + [SPACE] + Opener(charset);
    done1 := done + [cur];
  }

  /** encLen is the length of the rune at i once encoded. */
  lemma EncodedLength(s: bytes, i: nat)
    requires i < |s|
    ensures var w := Split.Width(s[i..]); var plain := s[i] == SPACE || Plain(s[i]);
      0 < w <= |s| - i && (plain ==> w == 1) && |QText(s[i..i + w])| == (if plain then 1 else 3 * w) <= MAX_CONTENT_LEN
    ensures QText([]) == []
  {
    RuneEncodedWidth(s[i..]);
    QTextOne(0);
    assert s[i..][..Split.Width(s[i..])] == s[i..i + Split.Width(s[i..])];
  }

  /** QEncoding.Encode: words of at most 75 bytes each for UTF-8, and just one for another charset. */
  method Encode(charset: bytes, s: bytes) returns (r: bytes)
    ensures !NeedsEncoding(s) ==> r == s
    ensures NeedsEncoding(s) && IsUTF8(charset) ==> EncodedAs(charset, s, r)
    ensures NeedsEncoding(s) && !IsUTF8(charset) ==> r == Header(charset, [s])
    ensures FitsHeader(charset) ==> forall c | c in r :: 0x20 <= c < 0x7f || c == 9
  {
    if forall b | b in s :: SPACE <= b <= 126 || b == 9 {
      return s;
    }
    if IsUTF8(charset) {
      r := QEncode(charset, s);
    } else {
      // other charsets make one word, however long
      r := WriteQString(Opener(charset), s);
      assert WordsOf(charset, [s]) == [Word(charset, s)];
      Split.JoinOne(Word(charset, s), [SPACE]);
    }
    r := r + CLOSE;
    if FitsHeader(charset) {
      EncodedFits(charset, s, r);
    }
  }

  // ---- Decoding a header ----

  /** How a header is decoded beyond Q encoding and the built-in charsets: base64, and CharsetReader. */
  datatype Decoder = Decoder(base64: bytes -> Option<bytes>, charsetReader: (bytes, bytes) -> Option<bytes>)

  function Decode(d: Decoder, encoding: byte, text: bytes): Option<bytes> {
    if encoding == 66 || encoding == 98 then d.base64(text) // 'B', 'b'
    else if encoding == 81 || encoding == 113 then QDecoded(text) // 'Q', 'q'
    else None
  }

  /** The bytes as runes, what is not ASCII as U+FFFD. */
  function OnlyAscii(s: bytes): (runes: seq<int>)
    ensures |runes| == |s|
  {
    seq(|s|, i requires 0 <= i < |s| => if s[i] >= Utf8.RUNE_SELF then Utf8.RUNE_ERROR else s[i])
  }

  /** What a content is in UTF-8, if its charset can be converted. */
  function Converted(d: Decoder, charset: bytes, content: bytes): Option<bytes> {
    if EqualFold(UTF_8, charset) then Some(content)
    else if EqualFold(ISO_8859_1, charset) then Some(Utf8.Encoded(content))
    else if EqualFold(US_ASCII, charset) then Some(Utf8.Encoded(OnlyAscii(content)))
    else d.charsetReader(charset, content)
  }

  /** convert */
  method Convert(d: Decoder, charset: bytes, content: bytes) returns (r: Option<bytes>)
    ensures r == Converted(d, charset, content)
  {
    hide Utf8.EncodeRune, EqualFold;
    var buf: bytes := [];
    if EqualFold(UTF_8, charset) {
      return Some(content);
    } else if EqualFold(ISO_8859_1, charset) {
      for i := 0 to |content|
        invariant buf == Utf8.Encoded(content[..i])
      {
        Utf8.EncodedAppend(content[..i], content[i]);
        assert content[..i + 1] == content[..i] + [content[i]];
        buf := buf + Utf8.EncodeRune(content[i]);
      }
      assert content[..|content|] == content;
      return Some(buf);
    } else if EqualFold(US_ASCII, charset) {
      ghost var runes := OnlyAscii(content);
      for i := 0 to |content|
        invariant buf == Utf8.Encoded(runes[..i])
      {
        Utf8.EncodedAppend(runes[..i], runes[i]);
        assert runes[..i + 1] == runes[..i] + [runes[i]];
        var c := content[i];
        if c >= Utf8.RUNE_SELF {
          buf := buf + Utf8.EncodeRune(Utf8.RUNE_ERROR);
        } else {
          AsciiByte(c);
          buf := buf + [c];
        }
      }
      assert runes[..|content|] == runes;
      return Some(buf);
    }
    return d.charsetReader(charset, content);
  }

  lemma AsciiByte(c: byte)
    requires c < Utf8.RUNE_SELF
    ensures Utf8.EncodeRune(c) == [c]
  {
  }

  /** ISO-8859-1 is converted byte by byte: the runes of the result are the bytes. */
  lemma Latin1Runes(d: Decoder, charset: bytes, content: bytes)
    requires EqualFold(ISO_8859_1, charset)
    ensures var r := Converted(d, charset, content); r.Some? && Utf8.Runes(r.value, true) == content
  {
    assert forall c | c in content :: Utf8.ValidRune(c);
    Utf8.RunesOfEncoded(content, true);
  }

  /** The built-in charsets convert only ASCII to ASCII, and that to itself. */
  lemma ConvertedAscii(d: Decoder, charset: bytes, content: bytes)
    ensures EqualFold(UTF_8, charset) || EqualFold(ISO_8859_1, charset) || EqualFold(US_ASCII, charset) ==>
      Converted(d, charset, content).Some? &&
      (Ascii(Converted(d, charset, content).value) ==> |Converted(d, charset, content).value| == |content|)
  {
    Utf8.EncodedAscii(content);
    Utf8.EncodedAscii(OnlyAscii(content));
    hide Utf8.Encoded, OnlyAscii, Ascii;
  }

  /** !hasNonWhitespace */
  predicate IsWhitespace(s: bytes) {
    forall b | b in s :: b == SPACE || b == 9 || b == 10 || b == 13
  }

  datatype Found =
    | NoWord
    | BadWord(start: nat)
    | GoodWord(start: nat, charset: bytes, content: bytes, end: nat)

  /** The next encoded word of a header. */
  function NextWord(d: Decoder, header: bytes): (f: Found)
    ensures f.BadWord? ==> f.start + 2 <= |header|
    ensures f.GoodWord? ==> f.start < f.end <= |header|
  {
    var start := Search.Find(header, OPEN);
    if start == -1 then NoWord
    else
      var cur := start + 2;
      var i := Search.Find(header[cur..], [QM]);
      if i == -1 then NoWord
      else
        var at := cur + i + 1;
        if |header| < at + 4 || header[at + 1] != QM then NoWord
        else
          var j := Search.Find(header[at + 2..], CLOSE);
          if j == -1 then NoWord
          else
            match Decode(d, header[at], header[at + 2..at + 2 + j])
            case None => BadWord(start)
            case Some(content) => GoodWord(start, header[cur..cur + i], content, at + 2 + j + 2)
  }

  /** What the loop of DecodeHeader makes of a header; None if a charset cannot be converted. */
  function Decoded(d: Decoder, header: bytes, betweenWords: bool): Option<bytes>
    decreases |header|
  {
    match NextWord(d, header)
    case NoWord => Some(header)
    case BadWord(start) => Prepend(header[..start + 2], Decoded(d, header[start + 2..], false))
    case GoodWord(start, charset, content, end) =>
      var skip := start == 0 || (betweenWords && IsWhitespace(header[..start]));
      match Converted(d, charset, content)
      case None => None
      case Some(c) => Prepend((if skip then [] else header[..start]) + c, Decoded(d, header[end..], true))
  }

  /** What DecodeHeader returns. */
  function HeaderDecoded(d: Decoder, header: bytes): Option<bytes> {
    var i := Search.Find(header, OPEN);
    if i == -1 then Some(header) else Prepend(header[..i], Decoded(d, header[i..], false))
  }

  /** The pieces of an encoded word with more text behind it. */
  lemma WordParts(pre: bytes, charset: bytes, text: bytes, rest: bytes, h: bytes)
    requires h == pre + (OPEN + charset + [QM, 113, QM] + text + CLOSE + rest)
    ensures var cur := |pre| + 2; var at := cur + |charset| + 1; var mid := [113, QM] + (text + CLOSE + rest);
      && |h| >= at + 4 && h == pre + OPEN + (charset + [QM] + mid)
      && h[cur..] == charset + [QM] + mid && h[cur..cur + |charset|] == charset
      && h[at] == 113 && h[at + 1] == QM
      && h[at + 2..] == text + CLOSE + rest && h[at + 2..at + 2 + |text|] == text
  {
  }

  /** An encoded word behind a text without "=" is found and read back. */
  lemma NextWordFound(d: Decoder, pre: bytes, charset: bytes, chunk: bytes, rest: bytes)
    requires QM !in charset && EQ !in pre
    ensures var h := pre + (Word(charset, chunk) + rest);
      NextWord(d, h) == GoodWord(|pre|, charset, chunk, |pre + Word(charset, chunk)|)
  {
    hide QText, QDecoded, Word, Opener, NextWord, Prepend, Search.Find, Search.FindFrom;
    var text := QText(chunk);
    var h := pre + (Word(charset, chunk) + rest);
    var tail := text + CLOSE + rest;
    WordIs(charset, chunk);
    WordParts(pre, charset, text, rest, h);
    QDecodesQText(chunk);
    Search.FindAfter(pre, OPEN, charset + [QM] + ([113, QM] + tail));
    Search.FindAfter(charset, [QM], [113, QM] + tail);
    Search.FindAfter(text, CLOSE, rest);
    NextWordAt(d, h, |pre|, charset, text, chunk);
  }

  lemma NextWordAt(d: Decoder, h: bytes, start: nat, charset: bytes, text: bytes, content: bytes)
    requires Search.Find(h, OPEN) == start && |h| >= start + 2 + |charset| + 5
    requires Search.Find(h[start + 2..], [QM]) == |charset| && h[start + 2..start + 2 + |charset|] == charset
    requires var at := start + 3 + |charset|;
      h[at] == 113 && h[at + 1] == QM && Search.Find(h[at + 2..], CLOSE) == |text| &&
      at + 4 + |text| <= |h| && h[at + 2..at + 2 + |text|] == text
    requires QDecoded(text) == Some(content)
    ensures NextWord(d, h) == GoodWord(start, charset, content, start + |charset| + 7 + |text|)
  {
    hide QDecoded, Search.Find;
  }

  lemma WordIs(charset: bytes, chunk: bytes)
    ensures Word(charset, chunk) == OPEN + charset + [QM, 113, QM] + QText(chunk) + CLOSE
    ensures |Word(charset, chunk)| == |charset| + 7 + |QText(chunk)|
  {
  }

  lemma CharsetHasNoMark(charset: bytes)
    requires IsUTF8(charset)
    ensures QM !in charset
  {
    assert forall i | 0 <= i < |charset| :: LowerByte(charset[i]) == UTF_8[i] && UTF_8[i] != QM;
  }

  lemma {:induction false} FlattenFront(c: bytes, chunks: seq<bytes>)
    ensures Flatten([c] + chunks) == c + Flatten(chunks)
    ensures Flatten([]) == []
  {
    if chunks == [] {
      assert [c] + chunks == [c] && [c][..0] == [];
    } else {
      var (front, last) := (chunks[..|chunks| - 1], chunks[|chunks| - 1]);
      assert ([c] + chunks)[..|chunks|] == [c] + front;
      FlattenFront(c, front);
    }
  }

  lemma HeaderFront(charset: bytes, chunk: bytes, more: seq<bytes>)
    ensures Header(charset, [chunk] + more)
         == Word(charset, chunk) + if more == [] then [] else [SPACE] + Header(charset, more)
  {
    var w := Word(charset, chunk);
    assert WordsOf(charset, [chunk] + more) == [w] + WordsOf(charset, more);
    if more == [] {
      assert [w] + WordsOf(charset, more) == [w];
      Split.JoinOne(w, [SPACE]);
    } else {
      Split.EachFront(w, WordsOf(charset, more), [SPACE]);
    }
  }

  /** Decoding the words of any chunks gives the chunks back, without the spaces between them. */
  lemma {:induction false} DecodedWords(d: Decoder, pre: bytes, charset: bytes, chunks: seq<bytes>)
    requires IsUTF8(charset) && chunks != [] && (pre == [] || pre == [SPACE])
    ensures Decoded(d, pre + Header(charset, chunks), pre != []) == Some(Flatten(chunks))
    decreases |chunks|
  {
    var (c, more) := (chunks[0], chunks[1..]);
    assert chunks == [c] + more;
    HeaderFront(charset, c, more);
    FlattenFront(c, more);
    var rest := if more == [] then [] else [SPACE] + Header(charset, more);
    if more == [] {
      NothingDecoded(d);
    } else {
      DecodedWords(d, [SPACE], charset, more);
    }
    hide Header, Flatten, Decoded;
    DecodedOne(d, pre, charset, c, rest, Flatten(more));
  }

  lemma DecodedOne(d: Decoder, pre: bytes, charset: bytes, c: bytes, rest: bytes, text: bytes)
    requires IsUTF8(charset) && (pre == [] || pre == [SPACE]) && Decoded(d, rest, true) == Some(text)
    ensures Decoded(d, pre + (Word(charset, c) + rest), pre != []) == Some(c + text)
  {
    CharsetHasNoMark(charset);
    NextWordFound(d, pre, charset, c, rest);
    assert Converted(d, charset, c) == Some(c) && IsWhitespace(pre);
    hide *;
    DecodedStep(d, pre, Word(charset, c), charset, c, rest, text);
  }

  /** The turn of the loop for a word w at the front that holds c. */
  lemma DecodedStep(d: Decoder, pre: bytes, w: bytes, charset: bytes, c: bytes, rest: bytes, text: bytes)
    requires NextWord(d, pre + (w + rest)) == GoodWord(|pre|, charset, c, |pre + w|)
    requires IsWhitespace(pre) && Converted(d, charset, c) == Some(c) && Decoded(d, rest, true) == Some(text)
    ensures Decoded(d, pre + (w + rest), pre != []) == Some(c + text)
  {
    hide *;
    FrontAndRest(pre, w, rest);
    SpaceSkipped(d, pre + (w + rest), pre, charset, c, |pre + w|);
    PrependOne(c, text);
  }

  lemma FrontAndRest(pre: bytes, w: bytes, rest: bytes)
    ensures var h := pre + (w + rest); h[..|pre|] == pre && h[|pre + w|..] == rest
  {
  }

  lemma SpaceSkipped(d: Decoder, h: bytes, pre: bytes, charset: bytes, c: bytes, end: nat)
    requires NextWord(d, h) == GoodWord(|pre|, charset, c, end) && end <= |h| && h[..|pre|] == pre
    requires IsWhitespace(pre) && Converted(d, charset, c) == Some(c)
    ensures Decoded(d, h, pre != []) == Prepend([] + c, Decoded(d, h[end..], true))
  {
    hide NextWord, Converted, IsWhitespace;
  }

  lemma PrependOne(c: bytes, text: bytes)
    ensures Prepend([] + c, Some(text)) == Some(c + text)
  {
    assert [] + c == c;
  }

  /** The turn of the loop for a word behind other text. */
  lemma WordTurn(d: Decoder, h: bytes, between: bool, start: nat, charset: bytes, content: bytes, end: nat, c: bytes)
    requires NextWord(d, h) == GoodWord(start, charset, content, end) && Converted(d, charset, content) == Some(c)
    ensures start < end <= |h|
    ensures Decoded(d, h, between) ==
      Prepend((if start == 0 || (between && IsWhitespace(h[..start])) then [] else h[..start]) + c,
              Decoded(d, h[end..], true))
  {
    hide NextWord, Converted, IsWhitespace;
  }

  lemma NoWordDecoded(d: Decoder, s: bytes, between: bool)
    requires EQ !in s
    ensures Decoded(d, s, between) == Some(s)
  {
    forall k | 0 <= k < |s|
      ensures !Search.MatchAt(s, OPEN, k)
    {
      assert s[k] in s;
      Search.FirstByteDiffers(s, OPEN, k);
    }
    Search.FindIsLeast(s, OPEN);
  }

  predicate Blank(s: bytes) {
    forall k | 0 <= k < |s| :: s[k] == 32 || s[k] == 9 || s[k] == 10 || s[k] == 13
  }

  /** What stands before, between and behind encoded words is kept, except for a text between two words that is
      made of spaces, tabs, "\r" and "\n" only. */
  lemma TextAroundWords(d: Decoder, charset: bytes, pre: bytes, a: bytes, mid: bytes, b: bytes, post: bytes)
    requires IsUTF8(charset) && EQ !in pre && EQ !in mid && EQ !in post
    ensures HeaderDecoded(d, pre + (Word(charset, a) + (mid + (Word(charset, b) + post))))
      == Some(pre + (a + ((if Blank(mid) then [] else mid) + (b + post))))
  {
    var second := mid + (Word(charset, b) + post);
    CharsetHasNoMark(charset);
    assert Converted(d, charset, a) == Some(a) && Converted(d, charset, b) == Some(b);
    BlankIsWhitespace(mid);
    WordBegins(charset, a);
    hide *;
    BehindText(d, charset, mid, b, post);
    BehindText(d, charset, [], a, second);
    NoWordDecoded(d, post, true);
    WordTurn(d, second, true, |mid|, charset, b, |mid + Word(charset, b)|, b);
    WordTurn(d, Word(charset, a) + second, false, 0, charset, a, |Word(charset, a)|, a);
    FirstWordAt(d, pre, Word(charset, a) + second);
    PrependAll(pre, a, if Blank(mid) then [] else mid, b, post);
    if mid == [] {
      assert Blank(mid);
    }
  }

  lemma BlankIsWhitespace(s: bytes)
    ensures IsWhitespace(s) <==> Blank(s)
  {
    assert IsWhitespace(s) ==> forall k | 0 <= k < |s| :: s[k] in s;
  }

  lemma WordBegins(charset: bytes, chunk: bytes)
    ensures OPEN <= Word(charset, chunk)
  {
    WordIs(charset, chunk);
  }

  lemma BehindText(d: Decoder, charset: bytes, pre: bytes, chunk: bytes, rest: bytes)
    requires QM !in charset && EQ !in pre
    ensures var (w, h) := (Word(charset, chunk), pre + (Word(charset, chunk) + rest));
      NextWord(d, h) == GoodWord(|pre|, charset, chunk, |pre + w|) && h[..|pre|] == pre && h[|pre + w|..] == rest &&
      (pre == [] ==> h == w + rest && |pre + w| == |w|)
  {
    NextWordFound(d, pre, charset, chunk, rest);
    hide NextWord, Word;
    FrontAndRest(pre, Word(charset, chunk), rest);
  }

  lemma FirstWordAt(d: Decoder, pre: bytes, h: bytes)
    requires EQ !in pre && OPEN <= h
    ensures HeaderDecoded(d, pre + h) == Prepend(pre, Decoded(d, h, false))
  {
    hide Decoded, Prepend;
    assert h == OPEN + h[2..] && pre + h == pre + OPEN + h[2..];
    Search.FindAfter(pre, OPEN, h[2..]);
    assert (pre + h)[..|pre|] == pre && (pre + h)[|pre|..] == h;
  }

  lemma PrependAll(pre: bytes, a: bytes, mid: bytes, b: bytes, post: bytes)
    ensures Prepend(pre, Prepend([] + a, Prepend(mid + b, Some(post)))) == Some(pre + (a + (mid + (b + post))))
  {
    assert [] + a == a && (mid + b) + post == mid + (b + post);
  }

  lemma NothingDecoded(d: Decoder)
    ensures Decoded(d, [], true) == Some([]) && Flatten([]) == []
  {
  }

  /** So DecodeHeader undoes every division of a text into encoded words. */
  lemma DecodeHeaderOfWords(d: Decoder, charset: bytes, chunks: seq<bytes>)
    requires IsUTF8(charset) && chunks != []
    ensures HeaderDecoded(d, Header(charset, chunks)) == Some(Flatten(chunks))
  {
    var h := Header(charset, chunks);
    DecodedWords(d, [], charset, chunks);
    HeaderFront(charset, chunks[0], chunks[1..]);
    assert chunks == [chunks[0]] + chunks[1..];
    assert h[0..2] == OPEN;
    Search.LeastBefore(h, OPEN, 0, 0);
    assert [] + h == h && h[0..] == h;
    PrependNothing([], Some(Flatten(chunks)));
  }

  /** DecodeHeader */
  method DecodeHeader(d: Decoder, header0: bytes) returns (r: Option<bytes>)
    ensures r == HeaderDecoded(d, header0)
  {
    var header := header0;
    var i := Search.Find(header, OPEN);
    assert HeaderDecoded(d, header) == if i == -1 then Some(header)
      else Prepend(header[..i], Decoded(d, header[i..], false));
    hide *;
    if i == -1 {
      return Some(header);
    }
    var buf := header[..i];
    header := header[i..];
    var betweenWords := false;
    while true
      invariant HeaderDecoded(d, header0) == Prepend(buf, Decoded(d, header, betweenWords))
      decreases |header|
    {
      DecodedTurn(d, buf, header, betweenWords);
      match NextWord(d, header)
      case NoWord =>
        return Some(if |header| > 0 then buf + header else buf);
      case BadWord(start) =>
        betweenWords := false;
        buf := buf + header[..start + 2];
        header := header[start + 2..];
      case GoodWord(start, charset, content, end) =>
        var converted := Convert(d, charset, content);
        if converted.None? {
          return None;
        }
        // The text in front of the word counts, unless it is only the
        // space between this word and the one before.
        if start > 0 && (!betweenWords || !IsWhitespace(header[..start])) {
          buf := buf + header[..start];
        }
        buf := buf + converted.value;
        header := header[end..];
        betweenWords := true;
    }
  }

  /** One turn of the loop, behind what is already written. */
  lemma DecodedTurn(d: Decoder, buf: bytes, header: bytes, between: bool)
    ensures Prepend(buf, Decoded(d, header, between)) ==
      match NextWord(d, header)
      case NoWord => Some(if |header| > 0 then buf + header else buf)
      case BadWord(start) => Prepend(buf + header[..start + 2], Decoded(d, header[start + 2..], false))
      case GoodWord(start, charset, content, end) =>
        match Converted(d, charset, content)
        case None => None
        case Some(c) =>
          if start > 0 && (!between || !IsWhitespace(header[..start])) then
            Prepend(buf + header[..start] + c, Decoded(d, header[end..], true))
          else Prepend(buf + c, Decoded(d, header[end..], true))
  {
    PrependWords(buf, header, [], None);
    hide NextWord, Converted, IsWhitespace, Prepend;
    match NextWord(d, header)
    case NoWord =>
    case BadWord(start) => PrependConcat(buf, header[..start + 2], Decoded(d, header[start + 2..], false));
    case GoodWord(start, charset, content, end) =>
      if Converted(d, charset, content).Some? {
        PrependWords(buf, header[..start], Converted(d, charset, content).value, Decoded(d, header[end..], true));
      }
  }

  lemma PrependWords(buf: bytes, p: bytes, c: bytes, o: Option<bytes>)
    ensures Prepend(buf, Prepend(p + c, o)) == Prepend(buf + p + c, o)
    ensures Prepend(buf, Prepend([] + c, o)) == Prepend(buf + c, o)
    ensures Prepend(buf, Some(p)) == Some(if |p| > 0 then buf + p else buf) && Prepend(buf, None) == None
  {
    PrependConcat(buf, p + c, o);
    PrependConcat(buf, c, o);
    assert buf + (p + c) == buf + p + c && [] + c == c && buf + [] == buf;
  }

  // ---- Texts that come back as they are ----

  /** Some encoded word is found and decoded on the way through a header. */
  predicate HasWord(d: Decoder, header: bytes)
    decreases |header|
  {
    match NextWord(d, header)
    case NoWord => false
    case BadWord(start) => HasWord(d, header[start + 2..])
    case GoodWord(_, _, _, _) => true
  }

  predicate WordAhead(d: Decoder, header: bytes) {
    var i := Search.Find(header, OPEN);
    i >= 0 && HasWord(d, header[i..])
  }

  /** Every word that is decoded to ASCII is longer than that. */
  ghost predicate WordsShrink(d: Decoder) {
    forall encoding: byte, charset: bytes, text: bytes ::
      Decode(d, encoding, text).Some? ==>
        Shrinks(|charset| + |text| + 7, Converted(d, charset, Decode(d, encoding, text).value))
  }

  predicate Shrinks(n: nat, o: Option<bytes>) {
    o.Some? && Ascii(o.value) ==> |o.value| < n
  }

  lemma {:induction false} QDecodedShorter(s: bytes)
    ensures QDecoded(s).Some? ==> |QDecoded(s).value| <= |s|
    decreases |s|
  {
    if s != [] && QHead(s).Some? {
      QDecodedShorter(s[QHead(s).value.1..]);
    }
  }

  /** That is so if neither base64 nor CharsetReader, where it gives ASCII, lengthens what it is given. */
  lemma WordsShrinkIf(d: Decoder)
    requires forall t: bytes :: d.base64(t).Some? ==> |d.base64(t).value| <= |t|
    requires forall c: bytes, t: bytes :: Shrinks(|t| + 1, d.charsetReader(c, t))
    ensures WordsShrink(d)
  {
    hide EqualFold, QDecoded, Utf8.Encoded, OnlyAscii, Ascii;
    forall encoding: byte, charset: bytes, text: bytes | Decode(d, encoding, text).Some?
      ensures Shrinks(|charset| + |text| + 7, Converted(d, charset, Decode(d, encoding, text).value))
    {
      QDecodedShorter(text);
      ConvertedAscii(d, charset, Decode(d, encoding, text).value);
    }
  }

  /** A header without a word is decoded to itself, and one with a word, if to ASCII, to something shorter. */
  lemma {:induction false} DecodedLength(d: Decoder, header: bytes, between: bool)
    ensures !HasWord(d, header) ==> Decoded(d, header, between) == Some(header)
    ensures WordsShrink(d) ==>
      Shrinks(|header| + if HasWord(d, header) then 0 else 1, Decoded(d, header, between))
    decreases |header|
  {
    hide NextWord, Converted, IsWhitespace, WordsShrink, Prepend, Ascii, Shrinks;
    match NextWord(d, header)
    case NoWord =>
      ItsLength(header);
    case BadWord(start) =>
      DecodedLength(d, header[start + 2..], false);
      PrependLength(header[..start + 2], header, start + 2, Decoded(d, header[start + 2..], false));
    case GoodWord(start, charset, content, end) =>
      DecodedLength(d, header[end..], true);
      if WordsShrink(d) && Converted(d, charset, content).Some? {
        WordShrinks(d, header);
        GoodWordLength(header, start, end, Converted(d, charset, content).value, Decoded(d, header[end..], true));
      }
      NothingShrinks(|header|);
  }

  lemma ItsLength(header: bytes)
    ensures Shrinks(|header| + 1, Some(header))
  {
  }

  lemma NothingShrinks(n: nat)
    ensures Shrinks(n, None)
  {
  }

  lemma PrependLength(p: bytes, header: bytes, k: nat, o: Option<bytes>)
    requires k <= |header| && p == header[..k]
    ensures o == Some(header[k..]) ==> Prepend(p, o) == Some(header)
    ensures Shrinks(|header| - k, o) ==> Shrinks(|header|, Prepend(p, o))
    ensures Shrinks(|header| - k + 1, o) ==> Shrinks(|header| + 1, Prepend(p, o))
  {
    if o.Some? {
      AsciiParts(p, o.value);
      assert p + header[k..] == header;
    }
  }

  lemma GoodWordLength(header: bytes, start: nat, end: nat, c: bytes, o: Option<bytes>)
    requires start < end <= |header| && Shrinks(end - start, Some(c))
    requires Shrinks(|header| - end + 1, o) || Shrinks(|header| - end, o)
    ensures Shrinks(|header|, Prepend(header[..start] + c, o)) && Shrinks(|header|, Prepend([] + c, o))
  {
    AsciiParts(header[..start], c);
    AsciiParts([], c);
    if o.Some? {
      AsciiParts(header[..start] + c, o.value);
      AsciiParts([] + c, o.value);
    }
    hide Ascii;
  }

  lemma WordShrinks(d: Decoder, header: bytes)
    requires WordsShrink(d)
    ensures match NextWord(d, header)
      case GoodWord(start, charset, content, end) => Shrinks(end - start, Converted(d, charset, content))
      case _ => true
  {
    hide Converted, QDecoded, Shrinks;
  }

  /** So a header comes back if no word is decoded in it, and one in ASCII only then. */
  lemma ComesBack(d: Decoder, header: bytes)
    ensures !WordAhead(d, header) ==> HeaderDecoded(d, header) == Some(header)
    ensures WordsShrink(d) && Ascii(header) ==>
      (HeaderDecoded(d, header) == Some(header) <==> !WordAhead(d, header))
  {
    hide Decoded, HasWord, WordsShrink, Ascii, Shrinks, Prepend, Search.Find;
    var i := Search.Find(header, OPEN);
    NotShorter(header);
    if i >= 0 {
      DecodedLength(d, header[i..], false);
      PrependLength(header[..i], header, i, Decoded(d, header[i..], false));
    }
  }

  lemma NotShorter(header: bytes)
    ensures Ascii(header) ==> !Shrinks(|header|, Some(header))
  {
  }

  lemma PlainIsAscii(s: bytes)
    requires !NeedsEncoding(s)
    ensures Ascii(s)
  {
  }

  /** The round trip: what Encode makes of a text in UTF-8 that needs encoding, DecodeHeader undoes. */
  method EncodeThenDecode(d: Decoder, charset: bytes, s: bytes) returns (r: Option<bytes>)
    requires IsUTF8(charset)
    ensures NeedsEncoding(s) ==> r == Some(s)
    ensures !NeedsEncoding(s) && !WordAhead(d, s) ==> r == Some(s)
    ensures !NeedsEncoding(s) && WordsShrink(d) ==> (r == Some(s) <==> !WordAhead(d, s))
  {
    hide HeaderDecoded, WordAhead, WordsShrink, NeedsEncoding, Ascii;
    ComesBack(d, s);
    if !NeedsEncoding(s) {
      PlainIsAscii(s);
    }
    var e := Encode(charset, s);
    if NeedsEncoding(s) {
      ghost var chunks :| Chunked(charset, chunks, s) && e == Header(charset, chunks);
      DecodeHeaderOfWords(d, charset, chunks);
    }
    r := DecodeHeader(d, e);
  }

  /** Without that: what CharsetReader gives may be anything, the header with its word too. */
  lemma WordRestored() returns (d: Decoder, s: bytes)
    ensures Ascii(s) && WordAhead(d, s) && HeaderDecoded(d, s) == Some(s)
  {
    assert Plain(121);
    hide *;
    var charset: bytes, content: bytes := [120], [121];
    s := Word(charset, content);
    var t := s;
    d := Decoder(_ => None, (_, _) => Some(t));
    OtherCharset(d, content);
    WordOfOne(charset, 121);
    OneMarkless(charset);
    NextWordFound(d, [], charset, content, []);
    AsciiWord();
    WordDecodedWhole(d, s, charset, content);
  }

  lemma OtherCharset(d: Decoder, content: bytes)
    ensures Converted(d, [120], content) == d.charsetReader([120], content)
  {
  }

  lemma OneMarkless(charset: bytes)
    requires charset == [120]
    ensures QM !in charset
  {
  }

  lemma AsciiWord()
    ensures Ascii(Word([120], [121])) && OPEN <= Word([120], [121])
  {
    WordOfOne([120], 121);
  }

  lemma WordOfOne(charset: bytes, b: byte)
    requires Plain(b)
    ensures Word(charset, [b]) == OPEN + charset + [QM, 113, QM] + [b] + CLOSE
    ensures [] + (Word(charset, [b]) + []) == Word(charset, [b]) == [] + Word(charset, [b])
  {
    QTextOne(b);
  }

  lemma WordDecodedWhole(d: Decoder, s: bytes, charset: bytes, content: bytes)
    requires OPEN <= s && NextWord(d, s) == GoodWord(0, charset, content, |s|)
    requires Converted(d, charset, content) == Some(s)
    ensures WordAhead(d, s) && HeaderDecoded(d, s) == Some(s)
  {
    hide NextWord, Converted;
    assert s[0..2] == OPEN;
    Search.LeastBefore(s, OPEN, 0, 0);
    assert s[0..] == s && s[|s|..] == [] && [] + s == s && s + [] == s;
    NothingDecoded(d);
  }

  /** A text that needs no encoding is not protected: "=?utf-8?q?x?=" is decoded to "x". */
  lemma UnencodedWordIsDecoded(d: Decoder) returns (s: bytes)
    ensures !NeedsEncoding(s) && HeaderDecoded(d, s) != Some(s)
  {
    var charset := UTF_8;
    DecodeHeaderOfWords(d, charset, [[120]]);
    s := Header(charset, [[120]]);
    HeaderOfOne(charset, 120);
    FlattenFront([120], []);
    hide *;
    assert [[120]] + [] == [[120]] && [120] + Flatten([]) == [120];
    PlainWord(charset, 120, s);
  }

  lemma HeaderOfOne(charset: bytes, b: byte)
    requires Plain(b)
    ensures Header(charset, [[b]]) == OPEN + charset + [QM, 113, QM] + [b] + CLOSE
  {
    QTextOne(b);
    HeaderFront(charset, [b], []);
    assert [[b]] + [] == [[b]];
  }

  lemma PlainWord(charset: bytes, b: byte, s: bytes)
    requires SPACE <= b <= 126 && s == OPEN + charset + [QM, 113, QM] + [b] + CLOSE
    requires forall c | c in charset :: SPACE <= c <= 126
    ensures !NeedsEncoding(s) && |s| > 1
  {
  }
}
