/** html/escape.go: unescaping in place with two cursors, and escaping. */
module Escape {
  import opened Bytes
  import opened Utf8
  import Powers

  const LONGEST_ENTITY_WITHOUT_SEMICOLON := 6

  const AMP: byte := 38
  const SEMI: byte := 59
  const HASH: byte := 35

  /** The entity tables of html/entity.go: names with their trailing ";", if any, to code points. */
  datatype Tables = Tables(entity: map<bytes, int>, entity2: map<bytes, (int, int)>)

  /** No replacement is wider than "&" and the name it replaces. */
  ghost predicate Narrow(t: Tables) {
    && (forall name | name in t.entity :: |EncodeRune(t.entity[name])| <= |name| + 1)
    && (forall name | name in t.entity2 ::
         |EncodeRune(t.entity2[name].0)| + |EncodeRune(t.entity2[name].1)| <= |name| + 1)
  }

  const REPLACEMENT_TABLE: seq<int> :=
    [0x20AC, 0x0081, 0x201A, 0x0192, 0x201E, 0x2026, 0x2020, 0x2021,
     0x02C6, 0x2030, 0x0160, 0x2039, 0x0152, 0x008D, 0x017D, 0x008F,
     0x0090, 0x2018, 0x2019, 0x201C, 0x201D, 0x2022, 0x2013, 0x2014,
     0x02DC, 0x2122, 0x0161, 0x203A, 0x0153, 0x009D, 0x017E, 0x0178]

  // ---- What one reference means ----

  /** x as an int32 */
  function Int32(x: int): (y: int)
    ensures -0x8000_0000 <= y < 0x8000_0000
    ensures -0x8000_0000 <= x < 0x8000_0000 ==> y == x
  {
    (x + 0x8000_0000) % 0x1_0000_0000 - 0x8000_0000
  }

  /** The value of a digit, or -1. */
  function Digit(c: byte, hex: bool): (d: int)
    ensures -1 <= d < 16
  {
    if 48 <= c <= 57 then c as int - 48
    else if hex && 97 <= c <= 102 then c as int - 97 + 10
    else if hex && 65 <= c <= 70 then c as int - 65 + 10
    else -1
  }

  predicate Alnum(c: byte) {
    97 <= c <= 122 || 65 <= c <= 90 || 48 <= c <= 57
  }

  /** The end of the longest run of digits from i. */
  function DigitsEnd(s: bytes, i: nat, hex: bool): (j: nat)
    requires i <= |s|
    ensures i <= j <= |s|
    ensures forall k | i <= k < j :: Digit(s[k], hex) >= 0
    ensures j < |s| ==> Digit(s[j], hex) < 0
    decreases |s| - i
  {
    if i < |s| && Digit(s[i], hex) >= 0 then DigitsEnd(s, i + 1, hex) else i
  }

  /** The number the digits s[i..j] write, modulo 2^32 as an int32. */
  function Number(s: bytes, i: nat, j: nat, hex: bool): int
    requires i <= j <= |s|
    decreases j
  {
    if i == j then 0
    else Int32((if hex then 16 else 10) * Number(s, i, j - 1, hex) + Digit(s[j - 1], hex))
  }

  /** The end of the longest run of letters and digits from i. */
  function NameEnd(s: bytes, i: nat): (j: nat)
    requires i <= |s|
    ensures i <= j <= |s|
    ensures forall k | i <= k < j :: Alnum(s[k])
    ensures j < |s| ==> !Alnum(s[j])
    decreases |s| - i
  {
    if i < |s| && Alnum(s[i]) then NameEnd(s, i + 1) else i
  }

  /** One more when a ";" follows. */
  function WithSemi(s: bytes, j: nat): (k: nat)
    requires j <= |s|
    ensures j <= k <= |s|
  {
    if j < |s| && s[j] == SEMI then j + 1 else j
  }

  /** The code point a numeric reference stands for, after the substitutions. */
  function CodePoint(x: int): int {
    if 0x80 <= x <= 0x9F then REPLACEMENT_TABLE[x - 0x80]
    else if x == 0 || 0xD800 <= x <= 0xDFFF || x > 0x10FFFF then RUNE_ERROR
    else x
  }

  function Lookup(m: map<bytes, int>, name: bytes): int {
    if name in m then m[name] else 0
  }

  function Lookup2(m: map<bytes, (int, int)>, name: bytes): (int, int) {
    if name in m then m[name] else (0, 0)
  }

  /** The longest proper prefix of name, of at most j and at least two bytes, that is an entity; 0 if none. */
  function LongestPrefix(t: Tables, name: bytes, j: int): (k: nat)
    requires j < |name|
    ensures k == 0 || (2 <= k <= j && Lookup(t.entity, name[..k]) != 0)
    ensures forall i | (if k == 0 then 1 else k) < i <= j :: Lookup(t.entity, name[..i]) == 0
    decreases j + 1
  {
    if j <= 1 then 0
    else if Lookup(t.entity, name[..j]) != 0 then j
    else LongestPrefix(t, name, j - 1)
  }

  /** What follows a "&" in s: the bytes that replace it, and how many bytes it takes up. */
  datatype Ref = Ref(out: bytes, n: nat)

  function NumericRef(s: bytes): (ref: Ref)
    requires |s| > 1 && s[0] == AMP && s[1] == HASH
    ensures 1 <= ref.n <= |s| && |ref.out| <= ref.n
  {
    if |s| <= 3 then Ref([AMP], 1)
    else
      var hex := s[2] == 120 || s[2] == 88; // 'x' or 'X'
      var i := if hex then 3 else 2;
      var j := DigitsEnd(s, i, hex);
      var end := WithSemi(s, j);
      if end <= 3 then Ref([AMP], 1) // too few bytes were read
      else Ref(EncodeRune(CodePoint(Number(s, i, j, hex))), end)
  }

  function NamedRef(t: Tables, s: bytes): (ref: Ref)
    requires |s| > 1 && s[0] == AMP
    ensures 1 <= ref.n <= |s|
  {
    var i := WithSemi(s, NameEnd(s, 1));
    NameRef(t, s, i, s[1..i])
  }

  function NameRef(t: Tables, s: bytes, i: nat, name: bytes): (ref: Ref)
    requires i <= |s| && i == |name| + 1
    ensures 1 <= ref.n <= i
  {
    if |name| == 0 then Ref(s[..i], i)
    else if Lookup(t.entity, name) != 0 then Ref(EncodeRune(Lookup(t.entity, name)), i)
    else if Lookup2(t.entity2, name).0 != 0 then
      Ref(EncodeRune(Lookup2(t.entity2, name).0) + EncodeRune(Lookup2(t.entity2, name).1), i)
    else
      var k := LongestPrefix(t, name, Min(|name| - 1, LONGEST_ENTITY_WITHOUT_SEMICOLON));
      if k != 0 then Ref(EncodeRune(Lookup(t.entity, name[..k])), k + 1)
      else Ref(s[..i], i)
  }

  function Min(a: int, b: int): int {
    if a <= b then a else b
  }

  function Reference(t: Tables, s: bytes): (ref: Ref)
    requires s != [] && s[0] == AMP
    ensures 1 <= ref.n <= |s|
  {
    if |s| <= 1 then Ref([AMP], 1)
    else if s[1] == HASH then NumericRef(s)
    else NamedRef(t, s)
  }

  lemma ReferenceShrinks(t: Tables, s: bytes)
    requires Narrow(t) && s != [] && s[0] == AMP
    ensures |Reference(t, s).out| <= Reference(t, s).n
  {
  }

  /** Where the digits of a numeric reference start, and how it is written. */
  predicate IsHex(s: bytes) {
    |s| > 2 && (s[2] == 120 || s[2] == 88)
  }

  function Digits(s: bytes): nat
    requires |s| > 1
  {
    var first := if IsHex(s) then 3 else 2;
    DigitsEnd(s, first, IsHex(s)) - first
  }

  predicate HasSemi(s: bytes)
    requires |s| > 1
  {
    var end := (if IsHex(s) then 3 else 2) + Digits(s);
    end < |s| && s[end] == SEMI
  }

  /** A numeric reference ought to be one exactly if it has a digit. The code counts bytes instead, and
      is wrong about one decimal digit without ";", and about no hexadecimal digit with one. */
  lemma ReferenceIffDigit(s: bytes)
    requires |s| > 1 && s[0] == AMP && s[1] == HASH
    ensures (NumericRef(s).n > 1 <==> Digits(s) > 0) <==>
      !(!IsHex(s) && Digits(s) == 1 && !HasSemi(s)) && !(IsHex(s) && Digits(s) == 0 && HasSemi(s))
    ensures NumericRef(s).n == 1 ==> NumericRef(s) == Ref([AMP], 1)
  {
    hide EncodeRune, CodePoint, Number;
  }

  /** "&#1a" stays as it is, and "&#x;" becomes U+FFFD. */
  lemma DigitsMiscounted()
    ensures NumericRef([AMP, HASH, 49, 97]) == Ref([AMP], 1)
    ensures NumericRef([AMP, HASH, 120, SEMI]) == Ref(EncodeRune(RUNE_ERROR), 4)
  {
    var (s: bytes, t: bytes) := ([AMP, HASH, 49, 97], [AMP, HASH, 120, SEMI]);
    assert DigitsEnd(s, 3, false) == 3 && DigitsEnd(s, 2, false) == 3;
    assert DigitsEnd(t, 3, true) == 3 && Number(t, 3, 3, true) == 0;
  }

  /** The left-to-right rewriting of a text into a new one. */
  function Unescape(t: Tables, s: bytes): bytes {
    if s == [] then []
    else if s[0] != AMP then [s[0]] + Unescape(t, s[1..])
    else
      var ref := Reference(t, s);
      ref.out + Unescape(t, s[ref.n..])
  }

  // ---- References by the numbers they write ----

  lemma Int32Shifted(x: int, m: int)
    ensures Int32(x + m * 0x1_0000_0000) == Int32(x)
  {
    var y := x + 0x8000_0000;
    Powers.DivisionLaw(y, 0x1_0000_0000);
    var (q, r) := (y / 0x1_0000_0000, y % 0x1_0000_0000);
    assert y + m * 0x1_0000_0000 == (q + m) * 0x1_0000_0000 + r;
    Powers.DivisionUnique(y + m * 0x1_0000_0000, 0x1_0000_0000, q + m, r);
  }

  /** Wrapping early does not change the sum. */
  lemma Int32Early(q: int, base: int, d: int)
    ensures Int32(base * Int32(q) + d) == Int32(base * q + d)
  {
    var y := q + 0x8000_0000;
    var k := y / 0x1_0000_0000;
    assert q == Int32(q) + k * 0x1_0000_0000;
    Distributed(base, Int32(q), k);
    hide Int32;
    Int32Shifted(base * Int32(q) + d, base * k);
  }

  lemma Distributed(base: int, x: int, k: int)
    ensures base * (x + k * 0x1_0000_0000) == base * x + (base * k) * 0x1_0000_0000
  {
  }

  lemma DigitIs(c: byte, d: int, hex: bool)
    requires IsDigit(c, d) && (hex || d < 10)
    ensures Digit(c, hex) == d
  {
  }

  /** The digits that write v are read as v, as an int32. */
  lemma {:induction false} NumberWritten(s: bytes, i: nat, j: nat, hex: bool, v: nat)
    requires i <= j <= |s| && Writes(s[i..j], if hex then 16 else 10, v)
    ensures Number(s, i, j, hex) == Int32(v) && forall k | i <= k < j :: Digit(s[k], hex) >= 0
    decreases j
  {
    hide Int32, Digit, IsDigit;
    if i < j {
      var base := if hex then 16 else 10;
      var ds := s[i..j];
      assert ds[..|ds| - 1] == s[i..j - 1] && ds[|ds| - 1] == s[j - 1];
      NumberWritten(s, i, j - 1, hex, v / base);
      DigitIs(s[j - 1], v % base, hex);
      Int32Early(v / base, base, v % base);
      assert base * (v / base) + v % base == v;
    } else {
      ZeroIsZero();
    }
  }

  lemma ZeroIsZero()
    ensures Int32(0) == 0
  {
  }

  lemma {:induction false} DigitsStop(s: bytes, i: nat, j: nat, hex: bool)
    requires i <= j < |s| && s[j] == SEMI && forall k | i <= k < j :: Digit(s[k], hex) >= 0
    ensures DigitsEnd(s, i, hex) == j
    decreases j - i
  {
    if i < j {
      DigitsStop(s, i + 1, j, hex);
    }
  }

  function Prefix(hex: bool, x: byte): bytes {
    [AMP, HASH] + if hex then [x] else []
  }

  /** A numeric reference, with "x" or "X" and digits in either case, or decimal, is replaced by the rune of its
      number; zero and what is no rune by U+FFFD. */
  lemma NumericReference(t: Tables, hex: bool, x: byte, digits: bytes, v: nat, rest: bytes)
    requires digits != [] && Writes(digits, if hex then 16 else 10, v) && (x == 120 || x == 88)
    ensures var s := Prefix(hex, x) + digits + [SEMI] + rest;
      && (v > 0 && ValidRune(v) && !(0x80 <= v <= 0x9F) ==> Unescape(t, s) == EncodeRune(v) + Unescape(t, rest))
      && (v < 0x8000_0000 && (v == 0 || !ValidRune(v)) ==> Unescape(t, s) == EncodeRune(0xFFFD) + Unescape(t, rest))
  {
    hide EncodeRune, Unescape, Writes;
    var (p, s) := (Prefix(hex, x), Prefix(hex, x) + digits + [SEMI] + rest);
    NumericRefOf(hex, x, digits, v, rest);
    ReferenceAt(t, s, rest);
  }

  lemma NumericRefOf(hex: bool, x: byte, digits: bytes, v: nat, rest: bytes)
    requires digits != [] && Writes(digits, if hex then 16 else 10, v) && (x == 120 || x == 88)
    ensures var s := Prefix(hex, x) + digits + [SEMI] + rest;
      && |s| > 1 && s[0] == AMP && s[1] == HASH && s[NumericRef(s).n..] == rest
      && NumericRef(s).out == EncodeRune(CodePoint(Int32(v)))
  {
    hide NumericRef, EncodeRune, CodePoint, Int32, Writes, Digit, DigitsEnd;
    var (p, s) := (Prefix(hex, x), Prefix(hex, x) + digits + [SEMI] + rest);
    var (i, j) := (|p|, |p + digits|);
    assert s[i..j] == digits && s[j] == SEMI && s[j + 1..] == rest && s[2] == (p + digits)[2];
    NumericRefAt(s, i, j, hex, v);
  }

  lemma NumericRefAt(s: bytes, i: nat, j: nat, hex: bool, v: nat)
    requires i == (if hex then 3 else 2) && i < j < |s| && s[0] == AMP && s[1] == HASH && s[j] == SEMI
    requires (hex ==> s[2] == 120 || s[2] == 88) && Writes(s[i..j], if hex then 16 else 10, v)
    ensures NumericRef(s) == Ref(EncodeRune(CodePoint(Int32(v))), j + 1)
  {
    hide EncodeRune, CodePoint, Int32, Writes, Digit;
    NumberWritten(s, i, j, hex, v);
    DigitsStop(s, i, j, hex);
    if !hex {
      NotX(s[2]);
    }
  }

  lemma NotX(c: byte)
    requires Digit(c, false) >= 0
    ensures c != 120 && c != 88
  {
  }

  lemma ReferenceAt(t: Tables, s: bytes, rest: bytes)
    requires |s| > 1 && s[0] == AMP && s[1] == HASH && s[NumericRef(s).n..] == rest
    ensures Unescape(t, s) == NumericRef(s).out + Unescape(t, rest)
  {
    hide NumericRef;
  }

  // ---- References by name ----

  lemma {:induction false} NameStops(s: bytes, i: nat, j: nat)
    requires i <= j <= |s| && (j == |s| || !Alnum(s[j])) && forall k | i <= k < j :: Alnum(s[k])
    ensures NameEnd(s, i) == j
    decreases j - i
  {
    if i < j {
      NameStops(s, i + 1, j);
    }
  }

  predicate IsName(name: bytes) {
    name != [] && forall c | c in name :: Alnum(c)
  }

  /** The name as it is looked up, with the ";" behind it. */
  function Full(name: bytes, rest: bytes): bytes {
    if rest != [] && rest[0] == SEMI then name + [SEMI] else name
  }

  lemma NameFound(t: Tables, name: bytes, rest: bytes)
    requires IsName(name) && (rest == [] || !Alnum(rest[0]))
    ensures var (s, full) := ([AMP] + name + rest, Full(name, rest));
      && |s| > |full| && s[..|full| + 1] == [AMP] + full && NameRef(t, s, |full| + 1, full) == Reference(t, s)
  {
    var (s, full) := ([AMP] + name + rest, Full(name, rest));
    forall k | 1 <= k <= |name| ensures s[k] == name[k - 1] && name[k - 1] in name {
    }
    assert s[1] in name;
    NameStops(s, 1, |name| + 1);
    assert s[1..|full| + 1] == full && s[..|full| + 1] == [AMP] + full;
    hide NameRef, NameEnd;
  }

  lemma ReferenceTurn(t: Tables, s: bytes, ref: Ref, rest: bytes)
    requires s != [] && s[0] == AMP && ref == Reference(t, s) && s[ref.n..] == rest
    ensures Unescape(t, s) == ref.out + Unescape(t, rest)
  {
    hide Reference;
  }

  /** A name in one of the tables is replaced by its one or two runes. */
  lemma NamedReference(t: Tables, name: bytes, rest: bytes)
    requires IsName(name) && (rest == [] || !Alnum(rest[0]))
    ensures
      var (full, after) := (Full(name, rest), if rest != [] && rest[0] == SEMI then rest[1..] else rest);
      var (x, y) := (Lookup(t.entity, full), Lookup2(t.entity2, full));
      && (x != 0 ==> Unescape(t, [AMP] + name + rest) == EncodeRune(x) + Unescape(t, after))
      && (x == 0 && y.0 != 0 ==>
           Unescape(t, [AMP] + name + rest) == EncodeRune(y.0) + EncodeRune(y.1) + Unescape(t, after))
  {
    hide *;
    var s := [AMP] + name + rest;
    TableRef(t, name, rest);
    BehindName(name, rest);
    var ref := Reference(t, s);
    ReferenceTurn(t, s, ref, s[ref.n..]);
  }

  lemma TableRef(t: Tables, name: bytes, rest: bytes)
    requires IsName(name) && (rest == [] || !Alnum(rest[0]))
    ensures
      var (s, full) := ([AMP] + name + rest, Full(name, rest));
      var (x, y) := (Lookup(t.entity, full), Lookup2(t.entity2, full));
      && s[0] == AMP
      && (x != 0 ==> Reference(t, s) == Ref(EncodeRune(x), |full| + 1))
      && (x == 0 && y.0 != 0 ==> Reference(t, s) == Ref(EncodeRune(y.0) + EncodeRune(y.1), |full| + 1))
  {
    NameFound(t, name, rest);
    hide Reference, EncodeRune, Lookup, Lookup2, LongestPrefix, IsName;
  }

  lemma BehindName(name: bytes, rest: bytes)
    ensures ([AMP] + name + rest)[|Full(name, rest)| + 1..] == if rest != [] && rest[0] == SEMI then rest[1..] else rest
  {
  }

  /** What entity.go promises: names that may be written without ";" have two bytes at least and six at most. */
  ghost predicate ShortBare(t: Tables) {
    forall name | name in t.entity && t.entity[name] != 0 && SEMI !in name ::
      2 <= |name| <= 6
  }

  /** Of any other name the longest beginning that is an entity is replaced, and it is kept if there is none. */
  lemma LongestEntity(t: Tables, name: bytes, rest: bytes, k: nat)
    requires ShortBare(t) && IsName(name) && (rest == [] || !Alnum(rest[0]))
    requires Lookup(t.entity, Full(name, rest)) == 0 && Lookup2(t.entity2, Full(name, rest)).0 == 0
    requires k <= |name| && (k > 0 ==> Lookup(t.entity, name[..k]) != 0)
    requires forall i | k < i <= |name| :: Lookup(t.entity, name[..i]) == 0
    ensures Unescape(t, [AMP] + name + rest)
      == (if k > 0 then EncodeRune(Lookup(t.entity, name[..k])) else [AMP]) + Unescape(t, name[k..] + rest)
  {
    hide *;
    var s := [AMP] + name + rest;
    PrefixRef(t, name, rest, k);
    var ref := Reference(t, s);
    ReferenceTurn(t, s, ref, s[ref.n..]);
    if k > 0 {
      assert s[k + 1..] == name[k..] + rest;
    } else {
      NameKept(t, name, rest);
      KeptBehind(name, rest, |Full(name, rest)|);
      Reassociate([AMP], Full(name, rest), Unescape(t, s[ref.n..]));
    }
  }

  lemma KeptBehind(name: bytes, rest: bytes, n: nat)
    requires n <= |name + rest|
    ensures name[0..] == name && ([AMP] + name + rest)[n + 1..] == (name + rest)[n..]
  {
  }

  lemma Reassociate(a: bytes, b: bytes, c: bytes)
    ensures a + b + c == a + (b + c)
  {
  }

  lemma PrefixRef(t: Tables, name: bytes, rest: bytes, k: nat)
    requires ShortBare(t) && IsName(name) && (rest == [] || !Alnum(rest[0]))
    requires Lookup(t.entity, Full(name, rest)) == 0 && Lookup2(t.entity2, Full(name, rest)).0 == 0
    requires k <= |name| && (k > 0 ==> Lookup(t.entity, name[..k]) != 0)
    requires forall i | k < i <= |name| :: Lookup(t.entity, name[..i]) == 0
    ensures
      var (s, full) := ([AMP] + name + rest, Full(name, rest));
      s[0] == AMP && Reference(t, s) ==
      if k > 0 then Ref(EncodeRune(Lookup(t.entity, name[..k])), k + 1) else Ref([AMP] + full, |full| + 1)
  {
    NameFound(t, name, rest);
    PrefixIs(t, name, rest, k);
    hide Reference, EncodeRune, Lookup, Lookup2, LongestPrefix, IsName, ShortBare;
  }

  lemma PrefixIs(t: Tables, name: bytes, rest: bytes, k: nat)
    requires ShortBare(t) && IsName(name) && k <= |name|
    requires Lookup(t.entity, Full(name, rest)) == 0 && (k > 0 ==> Lookup(t.entity, name[..k]) != 0)
    requires forall i | k < i <= |name| :: Lookup(t.entity, name[..i]) == 0
    ensures var full := Full(name, rest);
      k < |full| && full[..k] == name[..k] && LongestPrefix(t, full, Min(|full| - 1, 6)) == k
  {
    var full := Full(name, rest);
    assert forall i | 0 <= i <= |name| :: full[..i] == name[..i];
    assert name[..|name|] == name;
    if k > 0 {
      var bare := name[..k];
      assert bare in t.entity && forall c | c in bare :: c in name;
    }
    hide Full;
  }

  /** The name is plain text. */
  lemma NameKept(t: Tables, name: bytes, rest: bytes)
    requires IsName(name)
    ensures var (s, n) := (name + rest, |Full(name, rest)|);
      n <= |s| && s[..n] == Full(name, rest) && Unescape(t, s) == s[..n] + Unescape(t, s[n..])
  {
    var (s, full) := (name + rest, Full(name, rest));
    assert s[..|full|] == full && AMP !in full;
    UnescapePlain(t, s, |full|);
    hide Unescape;
  }

  // ---- The code ----

  /** What unescapeEntity leaves: the replacement at dst, everything from src1 on untouched. */
  twostate predicate Replaced(b: array<byte>, dst: nat, src: nat, dst1: nat, src1: nat, ref: Ref)
    reads b
  {
    && dst + |ref.out| == dst1 <= src1 == src + ref.n <= b.Length
    && b[..dst1] == old(b[..dst]) + ref.out
    && b[src1..] == old(b[src1..])
  }

  /** The bytes p for the n bytes from src on. */
  method Put(b: array<byte>, dst: nat, src: nat, p: bytes, n: nat) returns (dst1: nat, src1: nat)
    requires dst <= src && |p| <= n && src + n <= b.Length
    modifies b
    ensures Replaced(b, dst, src, dst1, src1, Ref(p, n))
  {
    dst1, src1 := dst + |p|, src + n;
    forall i | 0 <= i < |p| {
      b[dst + i] := p[i];
    }
  }

  /** copy(b[dst:dst+n], b[src:src+n]), which may overlap. */
  method Copy(b: array<byte>, dst: nat, src: nat, n: nat)
    requires dst <= src && src + n <= b.Length
    modifies b
    ensures Replaced(b, dst, src, dst + n, src + n, Ref(old(b[src..][..n]), n))
  {
    forall m | 0 <= m < n {
      b[dst + m] := b[src + m];
    }
  }

  /** The digits of a numeric reference from i on, and the ";" after them. */
  method ScanDigits(b: array<byte>, src: nat, first: nat, hex: bool) returns (i: nat, x: int)
    requires src + first <= b.Length
    ensures i == WithSemi(b[src..], DigitsEnd(b[src..], first, hex))
    ensures x == Number(b[src..], first, DigitsEnd(b[src..], first, hex), hex)
  {
    hide Digit, Int32;
    ghost var s := b[src..];
    i, x := first, 0;
    while i < b.Length - src
      invariant first <= i <= |s|
      invariant DigitsEnd(s, first, hex) == DigitsEnd(s, i, hex)
      invariant x == Number(s, first, i, hex)
    {
      var c := b[src + i];
      assert c == s[i];
      if Digit(c, hex) < 0 {
        if c == SEMI {
          i := i + 1;
        }
        return;
      }
      i := i + 1;
      x := Int32((if hex then 16 else 10) * x + Digit(c, hex));
    }
  }

  /** unescapeEntity, numeric references. */
  method UnescapeNumeric(b: array<byte>, dst: nat, src: nat) returns (dst1: nat, src1: nat)
    requires dst <= src && src + 1 < b.Length && b[src] == AMP && b[src + 1] == HASH
    modifies b
    ensures Replaced(b, dst, src, dst1, src1, NumericRef(old(b[src..])))
  {
    ghost var s := b[src..];
    hide Replaced;
    if b.Length - src <= 3 {
      dst1, src1 := Put(b, dst, src, [b[src]], 1);
      return;
    }
    var c := b[src + 2];
    assert c == s[2];
    var hex := c == 120 || c == 88; // 'x' or 'X'
    var i, x := ScanDigits(b, src, if hex then 3 else 2, hex);
    if i <= 3 { // too few bytes were read
      dst1, src1 := Put(b, dst, src, [b[src]], 1);
      return;
    }
    ghost var number := x;
    if 0x80 <= x && x <= 0x9F {
      // 0x80 to 0x9f stand for what Windows-1252 has there.
      x := REPLACEMENT_TABLE[x - 0x80];
    } else if x == 0 || (0xD800 <= x && x <= 0xDFFF) || x > 0x10FFFF {
      // no rune
      x := RUNE_ERROR;
    }
    assert x == CodePoint(number);
    dst1, src1 := Put(b, dst, src, EncodeRune(x), i);
  }

  /** The letters and digits after the "&", and the ";" after them. */
  method ScanName(b: array<byte>, src: nat) returns (i: nat)
    requires src < b.Length
    ensures i == WithSemi(b[src..], NameEnd(b[src..], 1))
  {
    ghost var s := b[src..];
    i := 1;
    while i < b.Length - src
      invariant 1 <= i <= |s|
      invariant NameEnd(s, 1) == NameEnd(s, i)
    {
      var c := b[src + i];
      assert c == s[i];
      if !Alnum(c) {
        if c == SEMI {
          i := i + 1;
        }
        return;
      }
      i := i + 1;
    }
  }

  /** The longest prefix of the name that is an entity by itself. */
  method ScanPrefix(t: Tables, entityName: bytes) returns (j: nat)
    requires entityName != []
    ensures j == LongestPrefix(t, entityName, Min(|entityName| - 1, LONGEST_ENTITY_WITHOUT_SEMICOLON))
  {
    var maxLen := |entityName| - 1;
    if maxLen > LONGEST_ENTITY_WITHOUT_SEMICOLON {
      maxLen := LONGEST_ENTITY_WITHOUT_SEMICOLON;
    }
    j := maxLen;
    while j > 1
      invariant j <= maxLen
      invariant LongestPrefix(t, entityName, j) == LongestPrefix(t, entityName, maxLen)
    {
      if Lookup(t.entity, entityName[..j]) != 0 {
        return;
      }
      j := j - 1;
    }
    j := 0;
  }

  /** unescapeEntity, named references. */
  method UnescapeNamed(t: Tables, b: array<byte>, dst: nat, src: nat) returns (dst1: nat, src1: nat)
    requires Narrow(t)
    requires dst <= src && src + 1 < b.Length && b[src] == AMP && b[src + 1] != HASH
    modifies b
    ensures Replaced(b, dst, src, dst1, src1, NamedRef(t, old(b[src..])))
  {
    // the whole run of letters and digits, though only
    // a part of it may be a name
    var i := ScanName(b, src);
    var entityName := b[src + 1..src + i];
    assert entityName == b[src..][1..i];
    ReferenceShrinks(t, b[src..]);
    assert NamedRef(t, b[src..]) == NameRef(t, b[src..], i, entityName);
    hide EncodeRune, Replaced, Narrow, LongestPrefix;
    if |entityName| == 0 {
      // stays as it is
    } else if Lookup(t.entity, entityName) != 0 {
      dst1, src1 := Put(b, dst, src, EncodeRune(Lookup(t.entity, entityName)), i);
      return;
    } else if Lookup2(t.entity2, entityName).0 != 0 {
      var x := Lookup2(t.entity2, entityName);
      dst1, src1 := Put(b, dst, src, EncodeRune(x.0) + EncodeRune(x.1), i);
      return;
    } else {
      var j := ScanPrefix(t, entityName);
      if j > 0 {
        dst1, src1 := Put(b, dst, src, EncodeRune(Lookup(t.entity, entityName[..j])), j + 1);
        return;
      }
    }
    Copy(b, dst, src, i);
    return dst + i, src + i;
  }

  /** unescapeEntity. It is called at a "&", with dst at or below src. */
  method UnescapeEntity(t: Tables, b: array<byte>, dst: nat, src: nat) returns (dst1: nat, src1: nat)
    requires Narrow(t)
    requires dst <= src < b.Length && b[src] == AMP
    modifies b
    ensures Replaced(b, dst, src, dst1, src1, Reference(t, old(b[src..])))
  {
    if b.Length - src <= 1 {
      dst1, src1 := Put(b, dst, src, [b[src]], 1);
      return;
    }
    if b[src + 1] == HASH {
      dst1, src1 := UnescapeNumeric(b, dst, src);
    } else {
      dst1, src1 := UnescapeNamed(t, b, dst, src);
    }
  }

  lemma {:induction false} UnescapePlain(t: Tables, s: bytes, i: nat)
    requires i <= |s| && AMP !in s[..i]
    ensures Unescape(t, s) == s[..i] + Unescape(t, s[i..])
  {
    if i > 0 {
      var tail := s[1..];
      assert s[0] == s[..i][0] != AMP;
      assert Unescape(t, s) == [s[0]] + Unescape(t, tail);
      hide Unescape;
      assert tail[..i - 1] == s[..i][1..] && tail[i - 1..] == s[i..];
      UnescapePlain(t, tail, i - 1);
      assert s[..i] == [s[0]] + tail[..i - 1];
      assert Unescape(t, s) == s[..i] + Unescape(t, s[i..]);
    } else {
      assert s[..0] == [] && s[0..] == s;
    }
  }

  /** What one turn of the loop is worth: plain bytes up to a "&", then its reference. */
  lemma UnescapeTurn(t: Tables, s: bytes, src: nat, i: nat, ref: Ref)
    requires src + i < |s| && s[src + i] == AMP && AMP !in s[src..][..i]
    requires ref == Reference(t, s[src + i..])
    ensures Unescape(t, s[src..]) == s[src..][..i] + ref.out + Unescape(t, s[src + i + ref.n..])
  {
    UnescapePlain(t, s[src..], i);
    var at := s[src + i..];
    assert s[src..][i..] == at;
    hide Reference;
    assert at[ref.n..] == s[src + i + ref.n..];
    assert Unescape(t, at) == ref.out + Unescape(t, s[src + i + ref.n..]);
  }

  /** The loop's invariant: dst does not pass src, the bytes still to be read are those of s, and
      what has been written and what is left make the whole. */
  ghost predicate Rewriting(t: Tables, s: bytes, b: bytes, dst: nat, src: nat) {
    && dst <= src <= |s| == |b| && b[src..] == s[src..]
    && Unescape(t, s) == b[..dst] + Unescape(t, s[src..])
  }

  /** One turn of the loop. */
  method Step(t: Tables, b: array<byte>, dst: nat, src: nat, i: nat, ghost s: bytes) returns (dst1: nat, src1: nat)
    requires Narrow(t) && Rewriting(t, s, b[..], dst, src)
    requires src + i < |s| && s[src + i] == AMP && AMP !in s[src..][..i]
    modifies b
    ensures src < src1 && Rewriting(t, s, b[..], dst1, src1)
  {
    hide Reference, Unescape, Narrow;
    ghost var (was, at) := (b[..], s[src + i..]);
    ghost var ref := Reference(t, at);
    assert b[src..][i..] == b[src + i..] && s[src..][i..] == at && b[src..][..i] == s[src..][..i];
    Copy(b, dst, src, i);
    assert b[src + i..] == at && b[src + i] == at[0];
    assert b[..dst + i] == was[..dst] + s[src..][..i];
    dst1, src1 := UnescapeEntity(t, b, dst + i, src + i);
    assert at[ref.n..] == s[src1..];
    hide Rewriting;
    Rewritten(t, s, was, b[..], dst, src, i, dst1, ref);
  }

  lemma Rewritten(t: Tables, s: bytes, was: bytes, b: bytes, dst: nat, src: nat, i: nat, dst1: nat, ref: Ref)
    requires Rewriting(t, s, was, dst, src)
    requires src + i < |s| && s[src + i] == AMP && AMP !in s[src..][..i] && ref == Reference(t, s[src + i..])
    requires dst1 <= src + i + ref.n && |b| == |s| && b[..dst1] == was[..dst] + s[src..][..i] + ref.out
    requires b[src + i + ref.n..] == s[src + i + ref.n..]
    ensures Rewriting(t, s, b, dst1, src + i + ref.n)
  {
    hide Reference, Unescape;
    UnescapeTurn(t, s, src, i, ref);
  }

  /** The plain bytes after the last "&". */
  method CopyTail(t: Tables, b: array<byte>, dst: nat, src: nat, ghost s: bytes) returns (dst1: nat)
    requires Rewriting(t, s, b[..], dst, src) && AMP !in s[src..]
    modifies b
    ensures dst1 <= b.Length && b[..dst1] == Unescape(t, s)
  {
    ghost var (head, tail) := (b[..dst], s[src..]);
    assert Unescape(t, s) == head + tail by { UnescapeIdentity(t, tail); }
    hide Unescape, Rewriting;
    var n := b.Length - src;
    assert b[src..][..n] == tail;
    Copy(b, dst, src, n);
    return dst + n;
  }

  /** UnescapeString */
  method UnescapeString(t: Tables, s: bytes) returns (r: bytes)
    requires Narrow(t)
    ensures r == Unescape(t, s)
  {
    var i := IndexByte(s, AMP);
    if i < 0 {
      UnescapeIdentity(t, s);
      return s;
    }
    var b := new byte[|s|](k requires 0 <= k < |s| => s[k]);
    assert b[..] == s && Rewriting(t, s, s, 0, 0);
    hide Unescape, Narrow;
    hide Rewriting, IndexByte;
    var dst: int, src: int := Step(t, b, 0, 0, i, s);
    while src < |s|
      invariant 0 <= dst <= src <= |s| == b.Length && Rewriting(t, s, b[..], dst, src)
    {
      i := if s[src] == AMP then 0 else IndexByte(s[src..], AMP);
      if i < 0 {
        dst := CopyTail(t, b, dst, src, s);
        break;
      }
      dst, src := Step(t, b, dst, src, i, s);
    }
    return b[..dst];
  }

  // ---- Escaping ----

  /** What htmlEscaper makes of one byte. */
  function EscapeByte(c: byte): (p: bytes)
  {
    if c == AMP then [AMP, 97, 109, 112, SEMI] // &amp;
    else if c == 39 then [AMP, HASH, 51, 57, SEMI] // &#39;
    else if c == 60 then [AMP, 108, 116, SEMI] // &lt;
    else if c == 62 then [AMP, 103, 116, SEMI] // &gt;
    else if c == 34 then [AMP, HASH, 51, 52, SEMI] // &#34;
    else [c]
  }

  function Escape(s: bytes): bytes {
    if s == [] then [] else EscapeByte(s[0]) + Escape(s[1..])
  }

  /** EscapeString, through a strings.Replacer of single-byte patterns. */
  method EscapeString(s: bytes) returns (r: bytes)
    ensures r == Escape(s)
  {
    r := [];
    var i := 0;
    while i < |s|
      invariant i <= |s| && r + Escape(s[i..]) == Escape(s)
    {
      assert s[i..][1..] == s[i + 1..];
      r := r + EscapeByte(s[i]);
      i := i + 1;
    }
  }

  /** The three entries the round trip rests on: "amp;", "lt;" and "gt;". */
  ghost predicate HasBasics(t: Tables) {
    && Lookup(t.entity, [97, 109, 112, SEMI]) == AMP
    && Lookup(t.entity, [108, 116, SEMI]) == 60
    && Lookup(t.entity, [103, 116, SEMI]) == 62
  }

  /** An escaped byte is read back as itself, whatever follows it. */
  lemma UnescapeEscapedByte(t: Tables, c: byte, rest: bytes)
    requires HasBasics(t)
    ensures Unescape(t, EscapeByte(c) + rest) == [c] + Unescape(t, rest)
  {
    var p := EscapeByte(c);
    var s := p + rest;
    if p[0] == AMP {
      ReferenceBack(t, c, rest);
    }
    hide Reference, HasBasics, EscapeByte;
    assert s[|p|..] == rest && s[0] == p[0];
  }

  lemma ReferenceBack(t: Tables, c: byte, rest: bytes)
    requires HasBasics(t) && EscapeByte(c)[0] == AMP
    ensures Reference(t, EscapeByte(c) + rest) == Ref([c], |EscapeByte(c)|)
  {
    var p := EscapeByte(c);
    if c == 39 || c == 34 {
      hide NumericRef, NamedRef, EncodeRune, HasBasics;
      assert |p| == 5 && p[2..4] == [51, p[3]];
      TwoDigits(p[3], c);
      assert p + rest == Prefix(false, 120) + p[2..4] + [SEMI] + rest;
      NumericRefOf(false, 120, p[2..4], c as int, rest);
      OneByte(c);
    } else {
      hide NumericRef, NamedRef, EncodeRune;
      assert Lookup(t.entity, p[1..]) == c as int;
      NamedBack(t, p, rest, c);
    }
  }

  lemma TwoDigits(d: byte, c: byte)
    requires (d == 57 && c == 39) || (d == 52 && c == 34)
    ensures Writes([51, d], 10, c as int)
  {
    assert Writes([], 10, 0) && Writes([51], 10, 3) by {
      assert [51][..0] == [];
    }
    assert [51, d][..1] == [51];
  }

  lemma OneByte(c: byte)
    requires 0 < c < 0x80
    ensures EncodeRune(CodePoint(Int32(c as int))) == [c] && EncodeRune(c as int) == [c]
  {
  }

  lemma NamedBack(t: Tables, p: bytes, rest: bytes, c: byte)
    requires |p| > 2 && p[0] == AMP && p[|p| - 1] == SEMI && 0 < c < 0x80
    requires Lookup(t.entity, p[1..]) == c as int && forall k | 1 <= k < |p| - 1 :: Alnum(p[k])
    ensures NamedRef(t, p + rest) == Ref([c], |p|)
  {
    hide EncodeRune, Lookup, Lookup2, LongestPrefix;
    NameStops(p + rest, 1, |p| - 1);
    assert (p + rest)[1..|p|] == p[1..];
    OneByte(c);
  }

  /** The promise of both doc comments: unescaping undoes escaping, for every string. */
  lemma {:induction false} UnescapeEscape(t: Tables, s: bytes)
    requires HasBasics(t)
    ensures Unescape(t, Escape(s)) == s
  {
    if s != [] {
      UnescapeEscapedByte(t, s[0], Escape(s[1..]));
      UnescapeEscape(t, s[1..]);
    }
  }

  predicate Special(c: byte) {
    c == AMP || c == 39 || c == 60 || c == 62 || c == 34
  }

  /** Escaped text holds none of the four characters that end text or an attribute value. */
  lemma {:induction false} EscapedIsSafe(s: bytes, c: byte)
    requires c in Escape(s)
    ensures Special(c) ==> c == AMP
  {
    if s != [] && c !in EscapeByte(s[0]) {
      EscapedIsSafe(s[1..], c);
    }
  }

  /** Text without "&" is left as it is: the early return, and the tail the loop copies. */
  lemma UnescapeIdentity(t: Tables, s: bytes)
    requires AMP !in s
    ensures Unescape(t, s) == s
  {
    UnescapePlain(t, s, |s|);
  }
}
