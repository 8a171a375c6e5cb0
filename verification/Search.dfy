/** bytes/bytes.go: Index with its hand-overs, the Rabin-Karp search and its hash, Count, the splits,
    Join and Replace. */
module Search {
  import opened Bytes
  import opened Powers

  // ---- What a search means ----

  predicate MatchAt(s: bytes, sep: bytes, i: int) {
    0 <= i && i + |sep| <= |s| && s[i..i + |sep|] == sep
  }

  /** r is the least offset, not below from, at which sep stands in s, or -1 when there is none. */
  ghost predicate LeastFrom(s: bytes, sep: bytes, from: nat, r: int) {
    && (r == -1 || (from <= r && MatchAt(s, sep, r)))
    && (forall k | from <= k < (if r < 0 then |s| + 1 else r) :: !MatchAt(s, sep, k))
  }

  /** The offset of the first sep in s, or -1. */
  function Find(s: bytes, sep: bytes): (r: int)
    ensures r == -1 || 0 <= r <= |s| - |sep|
  {
    FindFrom(s, sep, 0)
  }

  lemma FindIsLeast(s: bytes, sep: bytes)
    ensures LeastFrom(s, sep, 0, Find(s, sep))
  {
    FindFromIsLeast(s, sep, 0);
  }

  lemma {:induction false} FindFromIsLeast(s: bytes, sep: bytes, i: nat)
    requires i <= |s|
    ensures LeastFrom(s, sep, i, FindFrom(s, sep, i))
    decreases |s| - i
  {
    if !MatchAt(s, sep, i) && i < |s| {
      FindFromIsLeast(s, sep, i + 1);
    }
  }

  function FindFrom(s: bytes, sep: bytes, i: nat): (r: int)
    requires i <= |s|
    ensures r == -1 || 0 <= r <= |s| - |sep|
    decreases |s| - i
  {
    if MatchAt(s, sep, i) then i
    else if i == |s| then -1
    else FindFrom(s, sep, i + 1)
  }

  lemma LeastUnique(s: bytes, sep: bytes, from: nat, p: int, q: int)
    requires LeastFrom(s, sep, from, p) && LeastFrom(s, sep, from, q)
    ensures p == q
  {
  }

  /** No match starts before from, so the least from there on is the least of all. */
  lemma LeastBefore(s: bytes, sep: bytes, from: nat, r: int)
    requires LeastFrom(s, sep, from, r)
    requires forall k | 0 <= k < from :: !MatchAt(s, sep, k)
    ensures r == Find(s, sep)
  {
    FindIsLeast(s, sep);
    LeastUnique(s, sep, 0, r, Find(s, sep));
  }

  /** A search of the tail finds what a search of the whole finds from there on. */
  lemma LeastInTail(s: bytes, sep: bytes, from: nat, r: int)
    requires from <= |s| && LeastFrom(s[from..], sep, 0, r)
    ensures LeastFrom(s, sep, from, if r < 0 then -1 else r + from)
  {
    forall k | 0 <= k <= |s| - from
      ensures MatchAt(s, sep, k + from) == MatchAt(s[from..], sep, k)
    {
      if k + from + |sep| <= |s| {
        assert s[from..][k..k + |sep|] == s[k + from..k + from + |sep|];
      }
    }
    forall k | from <= k < (if r < 0 then |s| + 1 else r + from)
      ensures !MatchAt(s, sep, k)
    {
      assert MatchAt(s, sep, k - from + from) == MatchAt(s[from..], sep, k - from);
    }
  }

  // ---- The hash ----

  const PRIME_RK := 16777619
  const M := 0x1_0000_0000

  /** x as a uint32 */
  function U32(x: int): (y: nat)
    ensures y < M
    ensures 0 <= x < M ==> y == x
  {
    x % M
  }

  function Power(b: int, n: nat): int {
    if n == 0 then 1 else b * Power(b, n - 1)
  }

  /** The bytes of s as the digits of a number in base PRIME_RK, most significant first. */
  function Poly(s: bytes): int {
    if s == [] then 0 else Poly(s[..|s| - 1]) * PRIME_RK + s[|s| - 1]
  }

  lemma U32Of(x: int, y: int, k: int)
    requires x == y + k * M
    ensures U32(x) == U32(y)
  {
    DivisionLaw(y, M);
    DivisionUnique(x, M, y / M + k, y % M);
  }

  /** Numbers that wrap to the same do so after a product and a sum. */
  lemma Congruent(x: int, y: int, u: int, z: int)
    requires U32(x) == U32(y)
    ensures U32(x * u + z) == U32(y * u + z)
  {
    DivisionLaw(x, M);
    DivisionLaw(y, M);
    var q := x / M - y / M;
    assert x * u == y * u + (q * u) * M by {
      assert x == y + q * M;
      MulDistribute(x, y, u);
      MulAssoc(q, M, u);
    }
    U32Of(x * u + z, y * u + z, q * u);
  }

  lemma {:induction false} PowerOfSquare(b: int, k: nat)
    ensures Power(b * b, k) == Power(b, 2 * k)
  {
    if k > 0 {
      PowerOfSquare(b, k - 1);
      MulAssoc(b, b, Power(b, 2 * k - 2));
    }
  }

  lemma {:induction false} PowerWraps(x: int, k: nat)
    ensures U32(Power(U32(x), k)) == U32(Power(x, k))
  {
    if k > 0 {
      PowerWraps(x, k - 1);
      hide U32;
      WrapFactors(U32(x), x, Power(U32(x), k - 1), Power(x, k - 1));
    }
  }

  lemma WrapFactors(x: int, y: int, p: int, q: int)
    requires U32(x) == U32(y) && U32(p) == U32(q)
    ensures U32(x * p) == U32(y * q)
  {
    hide U32;
    Congruent(x, y, p, 0);
    Congruent(p, q, y, 0);
  }

  lemma {:induction false} PolyFront(a: byte, t: bytes)
    ensures Poly([a] + t) == a * Power(PRIME_RK, |t|) + Poly(t)
  {
    if t == [] {
      assert [a] + t == [a];
    } else {
      var (u, c) := (t[..|t| - 1], t[|t| - 1]);
      assert ([a] + t)[..|t|] == [a] + u;
      PolyFront(a, u);
      MulAssoc(a, Power(PRIME_RK, |u|), PRIME_RK);
    }
  }

  lemma DropDigit(low: int, w: int, a: int)
    ensures low * PRIME_RK == (a * w + low) * PRIME_RK - PRIME_RK * w * a
  {
  }

  /** Moving the window of width n one byte on. */
  lemma Roll(s: bytes, i: nat, n: nat)
    requires 0 < n <= i < |s|
    ensures Poly(s[i + 1 - n..i + 1])
         == Poly(s[i - n..i]) * PRIME_RK + s[i] - Power(PRIME_RK, n) * s[i - n]
  {
    var t := s[i + 1 - n..i];
    assert s[i - n..i] == [s[i - n]] + t;
    assert s[i + 1 - n..i + 1][..n - 1] == t;
    PolyFront(s[i - n], t);
    DropDigit(Poly(t), Power(PRIME_RK, n - 1), s[i - n]);
  }

  /** hashStr: the wrapped hash of sep, and PRIME_RK to the power len(sep), wrapped. */
  method HashStr(sep: bytes) returns (hash: nat, pow: nat)
    ensures hash == U32(Poly(sep)) && pow == U32(Power(PRIME_RK, |sep|))
  {
    hash := HashOf(sep, |sep|);
    assert sep[..|sep|] == sep;
    var sq := PRIME_RK;
    pow := 1;
    var i := |sep|;
    while i > 0
      invariant i >= 0 && U32(pow) == pow
      invariant U32(pow * Power(sq, i)) == U32(Power(PRIME_RK, |sep|))
    {
      PowTurn(pow, sq, i);
      if i % 2 != 0 {
        pow := U32(pow * sq);
      }
      sq := U32(sq * sq);
      i := i / 2;
    }
  }

  lemma PowTurn(pow: nat, sq: int, i: nat)
    requires i > 0
    ensures U32((if i % 2 != 0 then U32(pow * sq) else pow) * Power(U32(sq * sq), i / 2))
         == U32(pow * Power(sq, i))
  {
    hide U32;
    var h := i / 2;
    var product := if i % 2 != 0 then pow * sq else pow;
    var (wide, narrow) := (Power(sq * sq, h), Power(U32(sq * sq), h));
    PowerWraps(sq * sq, h);
    PowerOfSquare(sq, h);
    assert Power(sq, i) == if i % 2 != 0 then sq * wide else wide;
    hide Power;
    MulAssoc(pow, sq, wide);
    assert product * wide == pow * Power(sq, i);
    WrapFactors(if i % 2 != 0 then U32(product) else product, product, narrow, wide);
  }

  /** The hash of the first n bytes. */
  method HashOf(s: bytes, n: nat) returns (h: nat)
    requires n <= |s|
    ensures h == U32(Poly(s[..n]))
  {
    h := 0;
    for i := 0 to n
      invariant h == U32(Poly(s[..i]))
    {
      assert s[..i + 1][..i] == s[..i];
      Congruent(h, Poly(s[..i]), PRIME_RK, s[i]);
      h := U32(h * PRIME_RK + s[i]);
    }
  }

  lemma RollWraps(h: nat, pow: nat, s: bytes, i: nat, n: nat)
    requires 0 < n <= i < |s|
    requires h == U32(Poly(s[i - n..i])) && pow == U32(Power(PRIME_RK, n))
    ensures U32(U32(U32(h * PRIME_RK) + s[i]) - U32(pow * s[i - n])) == U32(Poly(s[i + 1 - n..i + 1]))
  {
    Roll(s, i, n);
    Congruent(h, Poly(s[i - n..i]), PRIME_RK, 0);
    Congruent(pow, Power(PRIME_RK, n), s[i - n], 0);
    hide Poly, Power;
    AddThenSubtract(h * PRIME_RK, Poly(s[i - n..i]) * PRIME_RK, s[i], pow * s[i - n], Power(PRIME_RK, n) * s[i - n]);
  }

  lemma AddThenSubtract(x: int, y: int, c: int, u: int, v: int)
    requires U32(x) == U32(y) && U32(u) == U32(v)
    ensures U32(U32(U32(x) + c) - U32(u)) == U32(y + c - v)
  {
    hide U32;
    Congruent(U32(x), y, 1, c);
    Congruent(U32(U32(x) + c), y + c, 1, 0 - U32(u));
    Congruent(U32(u), v, -1, y + c);
  }

  /** indexRabinKarp */
  method IndexRabinKarp(s: bytes, sep: bytes) returns (r: int)
    requires 0 < |sep| <= |s|
    ensures r == Find(s, sep)
  {
    hide Find, Poly, Power, U32;
    var hashsep, pow := HashStr(sep);
    var n := |sep|;
    var h := HashOf(s, n);
    if h == hashsep && s[..n] == sep {
      LeastBefore(s, sep, 0, 0);
      return 0;
    }
    var i := n;
    while i < |s|
      invariant n <= i <= |s|
      invariant h == U32(Poly(s[i - n..i]))
      invariant forall k | 0 <= k <= i - n :: !MatchAt(s, sep, k)
    {
      RollWraps(h, pow, s, i, n);
      h := U32(h * PRIME_RK);
      h := U32(h + s[i]);
      h := U32(h - U32(pow * s[i - n]));
      i := i + 1;
      if h == hashsep && s[i - n..i] == sep {
        LeastBefore(s, sep, i - n, i - n);
        return i - n;
      }
    }
    LeastBefore(s, sep, 0, -1);
    return -1;
  }

  // ---- Index ----

  /** What internal/bytealg chooses for a machine: see MaxLen, MaxBruteForce and Cutover there. */
  datatype Machine = Machine(maxLen: nat, maxBruteForce: nat, cutover: nat -> int)

  /** The next position in s[..end] that holds c, looked for with IndexByte only where it is needed. */
  method NextByte(s: bytes, end: nat, i: nat, c: byte) returns (j: int)
    requires i < end <= |s|
    ensures j == -1 || (i <= j < end && s[j] == c)
    ensures forall k | i <= k < (if j < 0 then end else j) :: s[k] != c
  {
    j := i;
    var t := s[..end];
    if t[i] != c {
      var o := IndexByte(t[i..], c);
      if o < 0 {
        assert forall k | i <= k < end :: t[i..][k - i] == s[k];
        return -1;
      }
      assert forall k | i <= k < end :: t[i..][k - i] == s[k];
      j := j + o;
    }
  }

  /** Positions that hold another byte than sep's first start no match. */
  lemma FirstByteDiffers(s: bytes, sep: bytes, k: int)
    requires sep != [] && 0 <= k < |s| && s[k] != sep[0]
    ensures !MatchAt(s, sep, k)
  {
    assert k + |sep| <= |s| ==> s[k..k + |sep|][0] == s[k];
  }

  /** The least place of sep after a text without its first byte is behind that text. */
  lemma FindAfter(text: bytes, sep: bytes, rest: bytes)
    requires sep != [] && sep[0] !in text
    ensures Find(text + sep + rest, sep) == |text|
  {
    var s := text + sep + rest;
    forall k | 0 <= k < |text| ensures !MatchAt(s, sep, k) {
      assert s[k] == text[k];
      FirstByteDiffers(s, sep, k);
    }
    assert s[|text|..|text| + |sep|] == sep;
    LeastBefore(s, sep, |text|, |text|);
  }

  /** Index for a short sep: IndexByte, until too many first bytes turn out to be false positives. */
  method IndexShort(m: Machine, s: bytes, sep: bytes) returns (r: int)
    requires 2 <= |sep| < |s| && |sep| <= m.maxLen
    ensures r == Find(s, sep)
  {
    if |s| <= m.maxBruteForce {
      return Find(s, sep); // bytealg.Index
    }
    var n := |sep|;
    var i := 0;
    var end := |s| - n + 1;
    var fails := 0;
    while i < end
      invariant 0 <= i <= end && 0 <= fails
      invariant forall k | 0 <= k < i :: !MatchAt(s, sep, k)
    {
      var j := NextByte(s, end, i, sep[0]);
      forall k | i <= k < (if j < 0 then end else j) ensures !MatchAt(s, sep, k) {
        FirstByteDiffers(s, sep, k);
      }
      if j < 0 {
        LeastBefore(s, sep, end, -1);
        return -1;
      }
      i := j;
      if s[i..i + n] == sep {
        LeastBefore(s, sep, i, i);
        return i;
      }
      fails := fails + 1;
      i := i + 1;
      if fails > m.cutover(i) {
        r := Find(s[i..], sep); // bytealg.Index
        FindIsLeast(s[i..], sep);
        LeastInTail(s, sep, i, r);
        r := if r >= 0 then r + i else -1;
        LeastBefore(s, sep, i, r);
        return;
      }
    }
    LeastBefore(s, sep, end, -1);
    return -1;
  }

  /** Index for a long sep: IndexByte, handing over to Rabin-Karp in the middle of the scan. */
  method IndexLong(s: bytes, sep: bytes) returns (r: int)
    requires 2 <= |sep| < |s|
    ensures r == Find(s, sep)
  {
    var n := |sep|;
    var i := 0;
    var fails := 0;
    var end := |s| - n + 1;
    while i < end
      invariant 0 <= i <= end && 0 <= fails
      invariant forall k | 0 <= k < i :: !MatchAt(s, sep, k)
    {
      var j := NextByte(s, end, i, sep[0]);
      forall k | i <= k < (if j < 0 then end else j) ensures !MatchAt(s, sep, k) {
        FirstByteDiffers(s, sep, k);
      }
      if j < 0 {
        LeastBefore(s, sep, end, -1);
        return -1;
      }
      i := j;
      if s[i..i + n] == sep {
        LeastBefore(s, sep, i, i);
        return i;
      }
      i := i + 1;
      fails := fails + 1;
      if fails >= 4 + i / 16 && i < end {
        // Too many false candidates: the rest
        // is left to Rabin-Karp.
        j := IndexRabinKarp(s[i..], sep);
        FindIsLeast(s[i..], sep);
        LeastInTail(s, sep, i, j);
        r := if j < 0 then -1 else i + j;
        LeastBefore(s, sep, i, r);
        return;
      }
    }
    LeastBefore(s, sep, end, -1);
    return -1;
  }

  /** Index: the least offset of sep in s, or -1, whatever the machine prefers. */
  method Index(m: Machine, s: bytes, sep: bytes) returns (r: int)
    ensures r == Find(s, sep)
  {
    var n := |sep|;
    if n == 0 {
      LeastBefore(s, sep, 0, 0);
      return 0;
    } else if n == 1 {
      r := IndexByte(s, sep[0]);
      assert forall k | 0 <= k < |s| :: s[k..k + 1] == [s[k]];
      assert sep == [sep[0]];
      LeastBefore(s, sep, 0, r);
    } else if n == |s| {
      assert s[0..n] == s;
      r := if sep == s then 0 else -1;
      LeastBefore(s, sep, 0, r);
    } else if n > |s| {
      LeastBefore(s, sep, 0, -1);
      return -1;
    } else if n <= m.maxLen {
      r := IndexShort(m, s, sep);
    } else {
      r := IndexLong(s, sep);
    }
  }
}
