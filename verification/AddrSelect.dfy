/** net/addrselect.go: the order RFC 6724 section 6 puts destination addresses in. */
module AddrSelect {
  import opened Bytes

  /** An address: 4 or 16 bytes if it is a proper one. */
  type IP = bytes

  const V4_IN_V6_PREFIX: bytes := [0, 0, 0, 0, 0, 0, 0, 0, 0, 0, 0xff, 0xff]
  const IPV6_LOOPBACK: IP := [0, 0, 0, 0, 0, 0, 0, 0, 0, 0, 0, 0, 0, 0, 0, 1]

  function To4(ip: IP): (r: Option<IP>)
    ensures r.Some? ==> |r.value| == 4
  {
    if |ip| == 4 then Some(ip)
    else if |ip| == 16 && ip[..12] == V4_IN_V6_PREFIX then Some(ip[12..])
    else None
  }

  /** The four bytes of an IPv4 address however it is written, any other address as it is. */
  function Short(ip: IP): IP {
    if To4(ip).Some? then To4(ip).value else ip
  }

  predicate IsLoopback(ip: IP) {
    if To4(ip).Some? then To4(ip).value[0] == 127 else ip == IPV6_LOOPBACK
  }

  predicate IsMulticast(ip: IP) {
    if To4(ip).Some? then To4(ip).value[0] / 0x10 == 0xe else |ip| == 16 && ip[0] == 0xff
  }

  predicate IsLinkLocalUnicast(ip: IP) {
    if To4(ip).Some? then To4(ip).value[0] == 169 && To4(ip).value[1] == 254
    else |ip| == 16 && ip[0] == 0xfe && ip[1] / 0x40 == 2
  }

  // ---- Bits ----

  function Shr(x: nat, n: nat): nat {
    if n == 0 then x else Shr(x, n - 1) / 2
  }

  /** Bit k of s, the most significant bit of s[0] being bit 0. */
  function Bit(s: bytes, k: nat): nat
    requires k < 8 * |s|
  {
    Shr(s[k / 8], 7 - k % 8) % 2
  }

  predicate SameBits(a: bytes, b: bytes, n: nat)
    requires n <= 8 * |a| && n <= 8 * |b|
  {
    forall k | 0 <= k < n :: Bit(a, k) == Bit(b, k)
  }

  lemma {:induction false} ShrAgree(x: nat, y: nat, m: nat, n: nat)
    requires m <= n && Shr(x, m) == Shr(y, m)
    ensures Shr(x, n) == Shr(y, n)
  {
    if m < n {
      ShrAgree(x, y, m, n - 1);
    }
  }

  /** Two bytes that agree once n bits are shifted out, but not before, agree on the 8-n highest bits only. */
  lemma BitsOfBytes(x: byte, y: byte, n: nat)
    requires 0 < n <= 8 && Shr(x, n) == Shr(y, n) && Shr(x, n - 1) != Shr(y, n - 1)
    ensures forall m | n <= m < 8 :: Shr(x, m) == Shr(y, m)
    ensures Shr(x, n - 1) % 2 != Shr(y, n - 1) % 2
  {
    forall m | n <= m < 8 ensures Shr(x, m) == Shr(y, m) {
      ShrAgree(x, y, n, m);
    }
  }

  lemma ShrGone(x: byte)
    ensures Shr(x, 8) == 0
  {
    assert Shr(x, 1) < 128;
    assert Shr(x, 2) < 64;
    assert Shr(x, 3) < 32;
    assert Shr(x, 4) < 16;
    assert Shr(x, 5) < 8;
    assert Shr(x, 6) < 4;
    assert Shr(x, 7) < 2;
  }

  // ---- The common prefix ----

  /** The number of leading bits two addresses have in common, of at most the first n. */
  function CommonBits(a: bytes, b: bytes, n: nat): (c: nat)
    requires n <= 8 * |a| && n <= 8 * |b|
    ensures c <= n && SameBits(a, b, c) && (c < n ==> Bit(a, c) != Bit(b, c))
  {
    if n == 0 then 0
    else
      var c := CommonBits(a, b, n - 1);
      if c == n - 1 && Bit(a, c) == Bit(b, c) then n else c
  }

  lemma CommonBitsUnique(a: bytes, b: bytes, n: nat, c: nat)
    requires n <= 8 * |a| && n <= 8 * |b| && c <= n
    requires SameBits(a, b, c) && (c < n ==> Bit(a, c) != Bit(b, c))
    ensures c == CommonBits(a, b, n)
  {
  }

  /** How long the prefix is that two addresses are compared on: all of IPv4, half of IPv6. */
  function PrefixBits(a: IP): nat {
    8 * if |Short(a)| > 8 then 8 else |Short(a)|
  }

  /** What commonPrefixLen promises. */
  function CommonPrefix(a: IP, b: IP): (c: nat)
    ensures c <= 64
  {
    if |Short(a)| != |Short(b)| then 0 else CommonBits(Short(a), Short(b), PrefixBits(a))
  }

  /** commonPrefixLen */
  method CommonPrefixLen(a0: IP, b0: IP) returns (cpl: nat)
    ensures cpl == CommonPrefix(a0, b0)
  {
    var a, b := Short(a0), Short(b0);
    cpl := 0;
    if |a| != |b| {
      return 0;
    }
    // in 16 bytes the upper half counts
    var len := if |a| > 8 then 8 else |a|;
    for i := 0 to len
      invariant cpl == 8 * i && SameBits(a, b, cpl)
    {
      if a[i] != b[i] {
        var bits := DifferingByte(a[i], b[i]);
        SameByBytes(a, b, i, bits);
        CommonBitsUnique(a, b, 8 * len, cpl + bits);
        return cpl + bits;
      }
      forall k | cpl <= k < cpl + 8 ensures Bit(a, k) == Bit(b, k) {
        assert k / 8 == i;
      }
      cpl := cpl + 8;
    }
    CommonBitsUnique(a, b, 8 * len, cpl);
  }

  /** The inner loop: shift both bytes until they are the same. */
  method DifferingByte(x: byte, y: byte) returns (bits: int)
    requires x != y
    ensures 0 <= bits < 8 && Shr(x, 8 - bits) == Shr(y, 8 - bits) && Shr(x, 7 - bits) != Shr(y, 7 - bits)
  {
    bits := 8;
    var (ab: nat, bb: nat) := (x, y);
    while ab != bb
      invariant 0 <= bits <= 8 && ab == Shr(x, 8 - bits) && bb == Shr(y, 8 - bits)
      invariant bits < 8 ==> Shr(x, 7 - bits) != Shr(y, 7 - bits)
      invariant bits == 8 ==> ab != bb
      decreases bits
    {
      ShrGone(x);
      ShrGone(y);
      ab, bb := ab / 2, bb / 2;
      bits := bits - 1;
    }
  }

  lemma SameByBytes(a: bytes, b: bytes, i: nat, bits: nat)
    requires i < |a| == |b| && bits < 8 && SameBits(a, b, 8 * i)
    requires Shr(a[i], 8 - bits) == Shr(b[i], 8 - bits) && Shr(a[i], 7 - bits) != Shr(b[i], 7 - bits)
    ensures SameBits(a, b, 8 * i + bits) && Bit(a, 8 * i + bits) != Bit(b, 8 * i + bits)
  {
    BitsOfBytes(a[i], b[i], 8 - bits);
    assert (8 * i + bits) / 8 == i && (8 * i + bits) % 8 == bits;
    forall k | 8 * i <= k < 8 * i + bits ensures Bit(a, k) == Bit(b, k) {
      assert k / 8 == i && k % 8 == k - 8 * i;
    }
  }

  // ---- The policy table ----

  /** An entry of the policy table: a prefix with the size of its mask. */
  datatype Entry = Entry(prefix: IP, size: nat, precedence: byte, lbl: byte)

  function Zeros(n: nat): (s: bytes)
    ensures |s| == n
  {
    seq(n, _ => 0)
  }

  /** RFC 6724 section 2.1. */
  const POLICY: seq<Entry> :=
    [ Entry(IPV6_LOOPBACK, 128, 50, 0)
    , Entry(Zeros(16), 0, 40, 1)
    , Entry(V4_IN_V6_PREFIX + Zeros(4), 96, 35, 4)
    , Entry([0x20, 0x02] + Zeros(14), 16, 30, 2) // 6to4
    , Entry([0x20, 0x01] + Zeros(14), 32, 5, 5) // Teredo
    , Entry([0xfc] + Zeros(15), 7, 3, 13)
    , Entry(Zeros(16), 96, 1, 3)
    , Entry([0xfe, 0xc0] + Zeros(14), 10, 1, 11)
    , Entry([0x3f, 0xfe] + Zeros(14), 16, 1, 12)
    ]

  /** IPNet.Contains, of an entry whose prefix and mask have 16 bytes. */
  predicate Contains(e: Entry, ip: IP) {
    var (nn, x) := (Short(e.prefix), Short(ip));
    var size := if To4(e.prefix).Some? then e.size - 96 else e.size;
    |x| == |nn| && 0 <= size <= 8 * |nn| && SameBits(nn, x, size)
  }

  /** Classify: the first entry that contains ip, or the zero entry. */
  function Classify(t: seq<Entry>, ip: IP): Entry {
    if t == [] then Entry([], 0, 0, 0)
    else if Contains(t[0], ip) then t[0]
    else Classify(t[1..], ip)
  }

  /** What sort.Sort leaves: the entries of the table, longest masks first. */
  ghost predicate SortedTable(t: seq<Entry>) {
    && multiset(t) == multiset(POLICY)
    && SizesFall(t)
  }

  predicate SizesFall(t: seq<Entry>) {
    forall i, j | 0 <= i < j < |t| :: t[i].size >= t[j].size
  }

  /** e is the entry of the table with the longest prefix that contains ip. */
  ghost predicate LongestMatch(e: Entry, ip: IP) {
    && e in POLICY && Contains(e, ip)
    && (forall f | f in POLICY && Contains(f, ip) :: f.size < e.size || f == e)
  }

  lemma {:induction false} ClassifyFirst(t: seq<Entry>, ip: IP) returns (i: nat)
    ensures i <= |t| && (forall j | 0 <= j < i :: !Contains(t[j], ip))
    ensures if i < |t| then Contains(t[i], ip) && Classify(t, ip) == t[i] else Classify(t, ip) == Entry([], 0, 0, 0)
  {
    hide Contains;
    if t == [] || Contains(t[0], ip) {
      return 0;
    }
    i := ClassifyFirst(t[1..], ip);
    i := i + 1;
  }

  lemma NotV4(ip: IP)
    requires |ip| == 16 && ip[10] == 0
    ensures To4(ip).None?
  {
    assert ip[..12][10] == 0;
  }

  const V4_ENTRY := POLICY[2]

  lemma PrefixFamily(e: Entry)
    requires e in POLICY
    ensures |e.prefix| == 16 && e.precedence > 0
    ensures e.precedence == 35 <==> To4(e.prefix).Some?
    ensures e == V4_ENTRY <==> To4(e.prefix).Some?
  {
    if e == V4_ENTRY {
      assert e.prefix[..12] == V4_IN_V6_PREFIX;
    } else {
      NotV4(e.prefix);
    }
  }

  /** The one entry for IPv4 addresses contains no others, and the others contain none of them. */
  lemma FamilyOfEntry(e: Entry, ip: IP)
    requires e in POLICY && Contains(e, ip)
    ensures e.precedence == 35 <==> To4(ip).Some?
    ensures e.precedence > 0
  {
    PrefixFamily(e);
    hide SameBits, Bit;
  }

  /** A proper address is contained in some entry. */
  lemma ProperIsContained(ip: IP)
    requires |ip| == 4 || |ip| == 16
    ensures exists e :: e in POLICY && Contains(e, ip)
  {
    var e := if To4(ip).Some? then V4_ENTRY else POLICY[1];
    PrefixFamily(e);
    assert e in POLICY && Contains(e, ip);
  }

  /** 2002::/16 and 3ffe::/16 differ in their fourth bit. */
  lemma FourthBit(ip: IP)
    ensures Contains(POLICY[3], ip) ==> |Short(ip)| == 16 && Bit(Short(ip), 3) == 0
    ensures Contains(POLICY[8], ip) ==> |Short(ip)| == 16 && Bit(Short(ip), 3) == 1
  {
    var (x, y) := (POLICY[3].prefix, POLICY[8].prefix);
    NotV4(x);
    NotV4(y);
    assert Shr(0x20, 2) == 8 && Shr(0x3f, 2) == 15;
    assert Bit(x, 3) == 0 && Bit(y, 3) == 1;
  }

  /** No two entries with masks of one size contain the same address. */
  lemma SameSizeDisjoint(e: Entry, f: Entry, ip: IP)
    requires e in POLICY && f in POLICY && e.size == f.size && e != f
    ensures !(Contains(e, ip) && Contains(f, ip))
  {
    hide Contains, To4, Short, Bit;
    SameSizePairs(e, f);
    if Contains(e, ip) && Contains(f, ip) {
      FamilyOfEntry(e, ip);
      FamilyOfEntry(f, ip);
      FourthBit(ip);
    }
  }

  /** Entries of one size: that for IPv4 and another, or 2002::/16 and 3ffe::/16. */
  lemma SameSizePairs(e: Entry, f: Entry)
    requires e in POLICY && f in POLICY && e.size == f.size && e != f
    ensures
      || (e.precedence == 35) != (f.precedence == 35)
      || (e == POLICY[3] && f == POLICY[8]) || (e == POLICY[8] && f == POLICY[3])
  {
  }

  lemma MembersOfSorted(t: seq<Entry>)
    requires SortedTable(t)
    ensures forall e :: e in t <==> e in POLICY
  {
    forall e ensures e in t <==> e in POLICY {
      assert e in multiset(t) <==> e in multiset(POLICY);
    }
  }

  function Insert(e: Entry, t: seq<Entry>): seq<Entry> {
    if t == [] || e.size >= t[0].size then [e] + t else [t[0]] + Insert(e, t[1..])
  }

  lemma {:induction false} InsertSorts(e: Entry, t: seq<Entry>)
    requires SizesFall(t)
    ensures var r := Insert(e, t);
      multiset(r) == multiset(t) + multiset{e} && SizesFall(r) && r != [] && (r[0] == e || (t != [] && r[0] == t[0]))
  {
    if t != [] && e.size < t[0].size {
      var (first, more) := (t[0], t[1..]);
      assert t == [first] + more;
      FallCons(first, more);
      InsertSorts(e, more);
      var r := Insert(e, more);
      assert Insert(e, t) == [first] + r;
      hide Insert, SizesFall;
      FallCons(first, r);
    } else {
      FallCons(e, t);
    }
  }

  lemma FallCons(e: Entry, t: seq<Entry>)
    ensures SizesFall([e] + t) <==> SizesFall(t) && (t != [] ==> e.size >= t[0].size)
  {
    var all := [e] + t;
    assert all[0] == e && forall i | 0 <= i < |t| :: t[i] == all[i + 1];
    if SizesFall(all) {
      assert t != [] ==> all[0].size >= all[1].size;
    }
  }

  /** Some order of the table is sorted, so what follows is about something. */
  lemma {:induction false} SortingExists(table: seq<Entry>) returns (t: seq<Entry>)
    ensures multiset(t) == multiset(table) && SizesFall(t)
  {
    if table == [] {
      return [];
    }
    t := SortingExists(table[1..]);
    InsertSorts(table[0], t);
    assert table == [table[0]] + table[1..];
    t := Insert(table[0], t);
  }

  /** However an unstable sort arranges entries of one size, Classify finds the longest match if there
      is one, and only then an entry of the table. */
  lemma ClassifyIsLongestMatch(t: seq<Entry>, ip: IP)
    requires SortedTable(t)
    ensures var e := Classify(t, ip);
      if e.precedence > 0 then LongestMatch(e, ip) else forall f | f in POLICY :: !Contains(f, ip)
  {
    var i := ClassifyFirst(t, ip);
    MembersOfSorted(t);
    if i < |t| {
      FamilyOfEntry(t[i], ip);
      forall f | f in POLICY && Contains(f, ip) ensures f.size < t[i].size || f == t[i] {
        hide Contains;
        var j :| 0 <= j < |t| && t[j] == f;
        if f != t[i] && f.size == t[i].size {
          SameSizeDisjoint(t[i], f, ip);
        }
      }
    }
    hide Contains, Classify, SortedTable;
  }

  /** So the order the sort leaves does not matter. */
  lemma ClassifyAnyOrder(t: seq<Entry>, u: seq<Entry>, ip: IP)
    requires SortedTable(t) && SortedTable(u)
    ensures Classify(t, ip) == Classify(u, ip)
  {
    ClassifyIsLongestMatch(t, ip);
    ClassifyIsLongestMatch(u, ip);
    ClassifyNone(t, ip);
    ClassifyNone(u, ip);
    hide Contains, Classify, SortedTable;
  }

  lemma ClassifyNone(t: seq<Entry>, ip: IP)
    requires SortedTable(t)
    ensures Classify(t, ip).precedence == 0 ==> Classify(t, ip) == Entry([], 0, 0, 0)
  {
    var i := ClassifyFirst(t, ip);
    MembersOfSorted(t);
    if i < |t| {
      PrefixFamily(t[i]);
    }
  }

  // ---- The table by the bytes of an address ----

  function ByteBit(x: byte, k: nat): nat
    requires k < 8
  {
    Shr(x, 7 - k) % 2
  }

  predicate TopAgree(x: byte, y: byte, r: nat)
    requires r <= 8
  {
    forall k | 0 <= k < r :: ByteBit(x, k) == ByteBit(y, k)
  }

  /** Two bytes have their r highest bits in common if the others are all that shifting takes away. */
  lemma {:induction false} TopOfByte(x: byte, y: byte, r: nat)
    requires r <= 8
    ensures TopAgree(x, y, r) <==> Shr(x, 8 - r) == Shr(y, 8 - r)
  {
    if r == 0 {
      ShrGone(x);
      ShrGone(y);
    } else {
      TopOfByte(x, y, r - 1);
      TopOneMore(x, y, r);
      LastBit(x, r);
      LastBit(y, r);
      hide *;
      Halves(Shr(x, 8 - r), Shr(y, 8 - r));
    }
  }

  lemma TopOneMore(x: byte, y: byte, r: nat)
    requires 0 < r <= 8
    ensures TopAgree(x, y, r) <==> TopAgree(x, y, r - 1) && ByteBit(x, r - 1) == ByteBit(y, r - 1)
  {
    hide ByteBit;
  }

  lemma LastBit(x: byte, r: nat)
    requires 0 < r <= 8
    ensures ByteBit(x, r - 1) == Shr(x, 8 - r) % 2 && Shr(x, 9 - r) == Shr(x, 8 - r) / 2
  {
  }

  lemma Halves(x: nat, y: nat)
    ensures x == y <==> x / 2 == y / 2 && x % 2 == y % 2
  {
  }

  /** Two texts have their first m bytes in common, and the r highest bits of the next. */
  predicate SameStart(a: bytes, b: bytes, m: nat, r: nat)
    requires r < 8 && 8 * m + r <= 8 * |a| && 8 * m + r <= 8 * |b|
  {
    a[..m] == b[..m] && (r > 0 ==> Shr(a[m], 8 - r) == Shr(b[m], 8 - r))
  }

  lemma SameBitsAreBytes(a: bytes, b: bytes, m: nat, r: nat)
    requires r < 8 && 8 * m + r <= 8 * |a| && 8 * m + r <= 8 * |b|
    ensures SameBits(a, b, 8 * m + r) <==> SameStart(a, b, m, r)
  {
    if SameBits(a, b, 8 * m + r) {
      BytesOfBits(a, b, m, r);
    }
    if SameStart(a, b, m, r) {
      BitsOfBytesBack(a, b, m, r);
    }
    hide SameBits, SameStart;
  }

  lemma BytesOfBits(a: bytes, b: bytes, m: nat, r: nat)
    requires r < 8 && 8 * m + r <= 8 * |a| && 8 * m + r <= 8 * |b| && SameBits(a, b, 8 * m + r)
    ensures SameStart(a, b, m, r)
  {
    hide SameBits, Shr;
    forall j | 0 <= j < m
      ensures a[j] == b[j]
    {
      BitsWithin(a, b, 8 * m + r, j, 8);
      TopOfByte(a[j], b[j], 8);
      NotShifted(a[j]);
      NotShifted(b[j]);
    }
    if r > 0 {
      BitsWithin(a, b, 8 * m + r, m, r);
      TopOfByte(a[m], b[m], r);
    }
    hide TopAgree;
  }

  lemma NotShifted(x: byte)
    ensures Shr(x, 0) == x
  {
  }

  lemma BitsOfBytesBack(a: bytes, b: bytes, m: nat, r: nat)
    requires r < 8 && 8 * m + r <= 8 * |a| && 8 * m + r <= 8 * |b| && SameStart(a, b, m, r)
    ensures SameBits(a, b, 8 * m + r)
  {
    assert forall j | 0 <= j < m :: a[j] == a[..m][j] && b[j] == b[..m][j];
    if r > 0 {
      TopOfByte(a[m], b[m], r);
    }
    hide Shr, ByteBit, TopAgree, SameStart;
    forall k | 0 <= k < 8 * m + r
      ensures Bit(a, k) == Bit(b, k)
    {
      BitIs(a, k);
      BitIs(b, k);
      if k < 8 * m {
        assert a[k / 8] == b[k / 8];
      } else {
        BitAgrees(a[m], b[m], r, k % 8);
      }
    }
  }

  lemma BitIs(s: bytes, k: nat)
    requires k < 8 * |s|
    ensures Bit(s, k) == ByteBit(s[k / 8], k % 8)
  {
  }

  lemma BitAgrees(x: byte, y: byte, r: nat, k: nat)
    requires k < r <= 8 && TopAgree(x, y, r)
    ensures ByteBit(x, k) == ByteBit(y, k)
  {
  }

  lemma BitsWithin(a: bytes, b: bytes, n: nat, j: nat, r: nat)
    requires r <= 8 && 8 * j + r <= n <= 8 * |a| && n <= 8 * |b| && j < |a| && j < |b| && SameBits(a, b, n)
    ensures TopAgree(a[j], b[j], r)
  {
    hide Shr, ByteBit, Bit;
    forall k | 0 <= k < r
      ensures ByteBit(a[j], k) == ByteBit(b[j], k)
    {
      assert Bit(a, 8 * j + k) == Bit(b, 8 * j + k);
      BitIs(a, 8 * j + k);
      BitIs(b, 8 * j + k);
      assert (8 * j + k) / 8 == j && (8 * j + k) % 8 == k;
    }
  }

  /** The precedence and label of an address, told from its bytes. */
  function ByBytes(ip: IP): (int, int)
    requires |ip| == 4 || |ip| == 16
  {
    if To4(ip).Some? then (35, 4) // IPv4
    else if ip == IPV6_LOOPBACK then (50, 0) // ::1
    else if ip[..12] == Zeros(12) then (1, 3) // ::/96
    else if ip[..4] == [0x20, 0x01, 0, 0] then (5, 5) // Teredo
    else if ip[..2] == [0x20, 0x02] then (30, 2) // 6to4
    else if ip[..2] == [0x3f, 0xfe] then (1, 12) // the former 6bone
    else if ip[0] == 0xfe && 0xc0 <= ip[1] then (1, 11) // site-local
    else if ip[0] == 0xfc || ip[0] == 0xfd then (3, 13) // unique local
    else (40, 1)
  }

  /** Which entries contain an address of 16 bytes that is no IPv4 one. */
  lemma ContainsByBytes(ip: IP)
    requires |ip| == 16 && To4(ip).None?
    ensures Contains(POLICY[0], ip) <==> ip == IPV6_LOOPBACK
    ensures Contains(POLICY[1], ip) && !Contains(POLICY[2], ip)
    ensures Contains(POLICY[3], ip) <==> ip[..2] == [0x20, 0x02]
    ensures Contains(POLICY[4], ip) <==> ip[..4] == [0x20, 0x01, 0, 0]
    ensures Contains(POLICY[5], ip) <==> ip[0] == 0xfc || ip[0] == 0xfd
    ensures Contains(POLICY[6], ip) <==> ip[..12] == Zeros(12)
    ensures Contains(POLICY[7], ip) <==> ip[0] == 0xfe && 0xc0 <= ip[1]
    ensures Contains(POLICY[8], ip) <==> ip[..2] == [0x3f, 0xfe]
  {
    hide Contains, To4, SameBits;
    WholeBytes(ip, POLICY[0], 16);
    WholeBytes(ip, POLICY[1], 0);
    WholeBytes(ip, POLICY[3], 2);
    WholeBytes(ip, POLICY[4], 4);
    WholeBytes(ip, POLICY[6], 12);
    WholeBytes(ip, POLICY[8], 2);
    UniqueLocal(ip);
    SiteLocal(ip);
    NotInV4(ip);
    PolicyStarts();
    assert ip[..16] == ip && ip[..0] == [];
  }

  lemma NotInV4(ip: IP)
    requires |ip| == 16 && To4(ip).None?
    ensures !Contains(POLICY[2], ip)
  {
    PrefixFamily(POLICY[2]);
    hide SameBits;
  }

  lemma PolicyStarts()
    ensures POLICY[0].prefix[..16] == IPV6_LOOPBACK && POLICY[1].prefix[..0] == []
    ensures POLICY[3].prefix[..2] == [0x20, 0x02] && POLICY[8].prefix[..2] == [0x3f, 0xfe]
    ensures POLICY[4].prefix[..4] == [0x20, 0x01, 0, 0] && POLICY[6].prefix[..12] == Zeros(12)
  {
  }

  lemma WholeBytes(ip: IP, e: Entry, m: nat)
    requires |ip| == 16 && To4(ip).None? && e in POLICY && e != V4_ENTRY && e.size == 8 * m
    ensures m <= 16 && (Contains(e, ip) <==> ip[..m] == e.prefix[..m])
  {
    PrefixFamily(e);
    SameBitsAreBytes(e.prefix, ip, m, 0);
    hide SameBits;
  }

  lemma UniqueLocal(ip: IP)
    requires |ip| == 16 && To4(ip).None?
    ensures Contains(POLICY[5], ip) <==> ip[0] == 0xfc || ip[0] == 0xfd
  {
    var e := POLICY[5];
    PrefixFamily(e);
    SameBitsAreBytes(e.prefix, ip, 0, 7);
    assert Shr(0xfc, 1) == 126 && Shr(ip[0], 1) == ip[0] / 2;
    hide SameBits;
  }

  lemma SiteLocal(ip: IP)
    requires |ip| == 16 && To4(ip).None?
    ensures Contains(POLICY[7], ip) <==> ip[0] == 0xfe && 0xc0 <= ip[1]
  {
    var e := POLICY[7];
    PrefixFamily(e);
    SameBitsAreBytes(e.prefix, ip, 1, 2);
    TopBits(0xc0);
    TopBits(ip[1]);
    assert e.prefix[..1] == [0xfe] && (ip[..1] == [0xfe] <==> ip[0] == 0xfe);
    hide SameBits;
  }

  lemma TopBits(x: byte)
    ensures Shr(x, 6) == x / 0x40 && Shr(x, 4) == x / 0x10
  {
    assert Shr(x, 1) == x / 2;
    assert Shr(x, 2) == x / 4;
    assert Shr(x, 3) == x / 8;
    assert Shr(x, 4) == x / 0x10;
    assert Shr(x, 5) == x / 0x20;
    assert Shr(x, 6) == x / 0x40;
  }

  /** So this is what the table, in any sorted order, makes of an address. */
  lemma ClassifyByBytes(t: seq<Entry>, ip: IP)
    requires SortedTable(t) && (|ip| == 4 || |ip| == 16)
    ensures var e := Classify(t, ip); (e.precedence as int, e.lbl as int) == ByBytes(ip)
  {
    hide Classify, SortedTable, Contains, To4, ByBytes, LongestMatch;
    ClassifyIsLongestMatch(t, ip);
    MatchExists(t, ip);
    if To4(ip).Some? {
      Ipv4ByBytes(Classify(t, ip), ip);
    } else {
      LongestByBytes(Classify(t, ip), ip);
    }
  }

  lemma MatchExists(t: seq<Entry>, ip: IP)
    requires SortedTable(t) && (|ip| == 4 || |ip| == 16)
    ensures LongestMatch(Classify(t, ip), ip) && (To4(ip).None? ==> |ip| == 16)
  {
    ClassifyIsLongestMatch(t, ip);
    ProperIsContained(ip);
    hide SortedTable, Contains, Classify;
  }

  lemma Ipv4ByBytes(e: Entry, ip: IP)
    requires (|ip| == 4 || |ip| == 16) && To4(ip).Some? && LongestMatch(e, ip)
    ensures (e.precedence as int, e.lbl as int) == ByBytes(ip)
  {
    FamilyOfEntry(e, ip);
    PrefixFamily(e);
    hide Contains, To4;
  }

  lemma LongestByBytes(e: Entry, ip: IP)
    requires |ip| == 16 && To4(ip).None? && LongestMatch(e, ip)
    ensures (e.precedence as int, e.lbl as int) == ByBytes(ip)
  {
    hide Contains, To4;
    ContainsByBytes(ip);
    var k :| 0 <= k < 9 && e == POLICY[k];
    assert POLICY[0] in POLICY && POLICY[1] in POLICY && POLICY[3] in POLICY && POLICY[4] in POLICY;
    assert POLICY[5] in POLICY && POLICY[6] in POLICY && POLICY[7] in POLICY && POLICY[8] in POLICY;
    StartsDiffer(ip);
  }

  /** The ranges of addresses that are told apart by their first bytes. */
  lemma StartsDiffer(ip: IP)
    requires |ip| == 16
    ensures ip[..2] == [ip[0], ip[1]] && ip[..4] == [ip[0], ip[1], ip[2], ip[3]]
    ensures ip[..12] == Zeros(12) ==> ip[0] == 0
    ensures ip == IPV6_LOOPBACK ==> ip[..12] == Zeros(12)
  {
    assert ip[..12] == Zeros(12) ==> ip[..12][0] == 0;
  }

  // ---- The order ----

  const SCOPE_LINK_LOCAL := 2
  const SCOPE_SITE_LOCAL := 5
  const SCOPE_GLOBAL := 0xe

  function ClassifyScope(ip: IP): (s: byte) {
    var ipv6 := |ip| == 16 && To4(ip).None?;
    if IsLoopback(ip) || IsLinkLocalUnicast(ip) then SCOPE_LINK_LOCAL
    else if ipv6 && IsMulticast(ip) then ip[1] % 0x10
    // fec0::/10, RFC 3513 section 2.5.6; RFC 3879 gives it up
    else if ipv6 && ip[0] == 0xfe && ip[1] / 0x40 == 3 then SCOPE_SITE_LOCAL
    else SCOPE_GLOBAL
  }

  datatype Attr = Attr(scope: byte, precedence: byte, lbl: byte)

  /** ipAttrOf, with the table as the init function has sorted it. */
  function AttrOf(t: seq<Entry>, ip: Option<IP>): Attr {
    if ip.None? then Attr(0, 0, 0)
    else
      var e := Classify(t, ip.value);
      Attr(ClassifyScope(ip.value), e.precedence, e.lbl)
  }

  /** A destination with its source address, None if it is unreachable, and their attributes. */
  datatype Dest = Dest(addr: IP, src: Option<IP>, attr: Attr, srcAttr: Attr)

  ghost predicate Attributed(t: seq<Entry>, d: Dest) {
    d.attr == AttrOf(t, Some(d.addr)) && d.srcAttr == AttrOf(t, d.src)
  }

  /** Less, of two destinations: whether a is better than b. */
  predicate Less(a: Dest, b: Dest) {
    // rule 1: reachable before unreachable
    if a.src.None? && b.src.None? then false
    else if b.src.None? then true
    else if a.src.None? then false
    // rule 2: the scope of its source address
    else if a.attr.scope == a.srcAttr.scope && b.attr.scope != b.srcAttr.scope then true
    else if a.attr.scope != a.srcAttr.scope && b.attr.scope == b.srcAttr.scope then false
    // rule 5: the label of its source address
    else if a.srcAttr.lbl == a.attr.lbl && b.srcAttr.lbl != b.attr.lbl then true
    else if a.srcAttr.lbl != a.attr.lbl && b.srcAttr.lbl == b.attr.lbl then false
    // rule 6: the greater precedence
    else if a.attr.precedence > b.attr.precedence then true
    else if a.attr.precedence < b.attr.precedence then false
    // rule 8: the narrower scope
    else if a.attr.scope < b.attr.scope then true
    else if a.attr.scope > b.attr.scope then false
    // rule 9: more leading bits shared with the source address
    else if To4(a.addr).None? && To4(b.addr).None? then
      CommonPrefix(a.src.value, a.addr) > CommonPrefix(b.src.value, b.addr)
    // rule 10: as they were
    else false
  }

  /** Scopes by prefixes: fe80::/10 and fec0::/10, ff00::/8, 169.254/16, 127/8 and 224/4. */
  lemma ScopesByPrefix(ip: IP)
    requires |ip| == 16 && To4(ip).None?
    ensures IsLinkLocalUnicast(ip) <==> SameBits(ip, [0xfe, 0x80] + Zeros(14), 10)
    ensures IsMulticast(ip) <==> SameBits(ip, [0xff] + Zeros(15), 8)
    ensures !IsMulticast(ip) ==>
      ClassifyScope(ip) ==
      if ip == Zeros(15) + [1] || SameBits(ip, [0xfe, 0x80] + Zeros(14), 10) then 2
      else if SameBits(ip, [0xfe, 0xc0] + Zeros(14), 10) then 5
      else 14
  {
    hide SameBits, To4, Shr;
    var (x, y) := ([0xfe, 0x80] + Zeros(14), [0xfe, 0xc0] + Zeros(14));
    SameBitsAreBytes(ip, x, 1, 2);
    SameBitsAreBytes(ip, y, 1, 2);
    SameBitsAreBytes(ip, [0xff] + Zeros(15), 1, 0);
    TopBits(ip[1]);
    TopBits(0x80);
    TopBits(0xc0);
    assert x[..1] == y[..1] == [0xfe] && ([0xff] + Zeros(15))[..1] == [0xff] && ip[..1] == [ip[0]];
  }

  /** A multicast address has four bits of flags and then its scope. */
  lemma MulticastScope(flags: nat, scop: nat, group: IP)
    requires flags < 16 && scop < 16 && |group| == 14
    ensures ClassifyScope([0xff, 16 * flags + scop] + group) == scop
  {
    var ip: IP := [0xff, 16 * flags + scop] + group;
    assert ip[0] == 0xff && IPV6_LOOPBACK[0] == 0;
  }

  lemma ScopesOfIpv4(ip: IP)
    requires To4(ip).Some?
    ensures IsLoopback(ip) <==> SameBits(Short(ip), [127, 0, 0, 0], 8)
    ensures IsLinkLocalUnicast(ip) <==> SameBits(Short(ip), [169, 254, 0, 0], 16)
    ensures IsMulticast(ip) <==> SameBits(Short(ip), [224, 0, 0, 0], 4)
    ensures ClassifyScope(ip) == if IsLoopback(ip) || IsLinkLocalUnicast(ip) then SCOPE_LINK_LOCAL else SCOPE_GLOBAL
  {
    hide SameBits, Shr;
    var x := Short(ip);
    SameBitsAreBytes(x, [127, 0, 0, 0], 1, 0);
    SameBitsAreBytes(x, [169, 254, 0, 0], 2, 0);
    SameBitsAreBytes(x, [224, 0, 0, 0], 0, 4);
    TopBits(x[0]);
    TopBits(224);
    assert x[..1] == [x[0]] && x[..2] == [x[0], x[1]];
    assert [127, 0, 0, 0][..1] == [127] && [169, 254, 0, 0][..2] == [169, 254];
  }

  /** What section 6 of RFC 6724 judges a destination by, rule after rule; of the rules 3, 4 and 7 nothing is known. */
  function Merit(d: Dest): (m: seq<int>)
    ensures |m| == 6
  {
    if d.src.None? then [0, 0, 0, 0, 0, 0]
    else
      [1, // 1: it can be reached
       if d.attr.scope == d.srcAttr.scope then 1 else 0, // 2: its source has its scope
       if d.attr.lbl == d.srcAttr.lbl then 1 else 0, // 5: and its label
       d.attr.precedence, // 6: a high precedence
       0 - d.attr.scope as int, // 8: a small scope
       if To4(d.addr).None? then CommonPrefix(d.src.value, d.addr) else 0] // 9: a long common prefix
  }

  /** x is greater at the first place where they differ. */
  predicate Beats(x: seq<int>, y: seq<int>)
    requires |x| == |y|
  {
    exists i | 0 <= i < |x| :: x[i] > y[i] && x[..i] == y[..i]
  }

  /** Less is that order, and nothing else. */
  lemma LessIsMerit(t: seq<Entry>, a: Dest, b: Dest)
    requires SortedTable(t) && Attributed(t, a) && Attributed(t, b)
    ensures Less(a, b) <==> Beats(Merit(a), Merit(b))
  {
    PrecedenceTellsFamily(t, a.addr);
    PrecedenceTellsFamily(t, b.addr);
    assert FamilyByPrecedence(a) && FamilyByPrecedence(b);
    hide *;
    LessByMerit(a, b);
  }

  lemma LessByMerit(a: Dest, b: Dest)
    requires FamilyByPrecedence(a) && FamilyByPrecedence(b)
    ensures Less(a, b) <==> Beats(Merit(a), Merit(b))
  {
    hide To4, CommonPrefix, Beats;
    BeatsByParts(Merit(a), Merit(b));
  }

  lemma BeatsByParts(x: seq<int>, y: seq<int>)
    requires |x| == |y| == 6
    ensures Beats(x, y) <==>
      x[0] > y[0] || (x[0] == y[0] && (x[1] > y[1] || (x[1] == y[1] && (x[2] > y[2] || (x[2] == y[2] &&
      (x[3] > y[3] || (x[3] == y[3] && (x[4] > y[4] || (x[4] == y[4] && x[5] > y[5])))))))))
  {
    forall i: nat | i < 6
      ensures x[..i] == y[..i] <==> forall j | 0 <= j < i :: x[j] == y[j]
    {
      assert forall j | 0 <= j < i :: x[j] == x[..i][j] && y[j] == y[..i][j];
    }
  }

  /** Of two destinations that can be reached from sources of their own scope and label, an IPv6 address that is
      in no special range comes before an IPv4 address. */
  lemma Ipv6First(t: seq<Entry>, a: Dest, b: Dest)
    requires SortedTable(t) && Attributed(t, a) && Attributed(t, b) && a.src.Some? && b.src.Some?
    requires |a.addr| == 16 && ByBytes(a.addr) == (40, 1) && (|b.addr| == 4 || |b.addr| == 16) && To4(b.addr).Some?
    requires a.attr.scope == a.srcAttr.scope && a.attr.lbl == a.srcAttr.lbl
    requires b.attr.scope == b.srcAttr.scope && b.attr.lbl == b.srcAttr.lbl
    ensures Less(a, b) && !Less(b, a)
  {
    ClassifyByBytes(t, a.addr);
    ClassifyByBytes(t, b.addr);
    hide Classify, CommonPrefix, ClassifyScope, To4;
  }

  /** A precedence of the table belongs to one address family. */
  lemma PrecedenceTellsFamily(t: seq<Entry>, ip: IP)
    requires SortedTable(t)
    ensures AttrOf(t, Some(ip)).precedence == 35 <==> To4(ip).Some?
  {
    ClassifyIsLongestMatch(t, ip);
    var e := Classify(t, ip);
    hide Contains;
    if e.precedence > 0 {
      FamilyOfEntry(e, ip);
    } else if To4(ip).Some? {
      ProperIsContained(ip);
    }
  }

  /** Less is a strict weak order: irreflexive and transitive, and so is being no better. */
  lemma StrictWeakOrder(t: seq<Entry>, a: Dest, b: Dest, c: Dest)
    requires SortedTable(t) && Attributed(t, a) && Attributed(t, b) && Attributed(t, c)
    ensures !Less(a, a)
    ensures Less(a, b) && Less(b, c) ==> Less(a, c)
    ensures !Less(a, b) && !Less(b, c) ==> !Less(a, c)
  {
    PrecedenceTellsFamily(t, a.addr);
    PrecedenceTellsFamily(t, b.addr);
    PrecedenceTellsFamily(t, c.addr);
    assert FamilyByPrecedence(a) && FamilyByPrecedence(b) && FamilyByPrecedence(c);
    hide *;
    LessTransitive(a, b, c);
    NotLessTransitive(a, b, c);
  }

  predicate FamilyByPrecedence(d: Dest) {
    d.attr.precedence == 35 <==> To4(d.addr).Some?
  }

  lemma LessTransitive(a: Dest, b: Dest, c: Dest)
    requires FamilyByPrecedence(a) && FamilyByPrecedence(b) && FamilyByPrecedence(c)
    ensures !Less(a, a)
    ensures Less(a, b) && Less(b, c) ==> Less(a, c)
  {
    hide AttrOf, To4, CommonPrefix, Short;
  }

  lemma NotLessTransitive(a: Dest, b: Dest, c: Dest)
    requires FamilyByPrecedence(a) && FamilyByPrecedence(b) && FamilyByPrecedence(c)
    ensures !Less(a, b) && !Less(b, c) ==> !Less(a, c)
  {
    hide AttrOf, To4, CommonPrefix, Short;
  }

  /** Only the table makes it one: with other precedences, an IPv4 address between two IPv6 addresses
      would be no worse than the better and no better than the worse. */
  lemma OrderNeedsTable() returns (a: Dest, b: Dest, c: Dest)
    ensures a.attr == b.attr == c.attr == a.srcAttr == b.srcAttr == c.srcAttr
    ensures !Less(a, b) && !Less(b, c) && Less(a, c)
  {
    var attr := Attr(SCOPE_GLOBAL, 40, 1);
    var (x, y) := ([0x20] + Zeros(15), [0x30] + Zeros(15));
    a := Dest(x, Some(x), attr, attr);
    b := Dest([1, 2, 3, 4], Some([1, 2, 3, 4]), attr, attr);
    c := Dest(x, Some(y), attr, attr);
    NotV4(x);
    NotV4(y);
    assert Shr(0x20, 2) == 8 && Shr(0x30, 2) == 12;
    assert Bit(x, 3) == 0 && Bit(y, 3) == 1;
    assert CommonPrefix(x, x) == 64 by { CommonBitsUnique(x, x, 64, 64); }
    assert CommonPrefix(y, x) <= 3;
  }

  /** byRFC6724: the addresses, their sources and the attributes, in parallel. */
  class ByRFC6724 {
    ghost const t: seq<Entry>
    const addrs: array<IP>
    const addrAttr: array<Attr>
    const srcs: array<Option<IP>>
    const srcAttr: array<Attr>

    ghost predicate Valid()
      reads this, addrs, addrAttr, srcs, srcAttr
    {
      && addrs.Length == addrAttr.Length == srcs.Length == srcAttr.Length
      && addrAttr != srcAttr
      && (forall i | 0 <= i < addrs.Length :: Attributed(t, At(i)))
    }

    function At(i: nat): Dest
      reads addrs, addrAttr, srcs, srcAttr
      requires i < addrs.Length == addrAttr.Length == srcs.Length == srcAttr.Length
    {
      Dest(addrs[i], srcs[i], addrAttr[i], srcAttr[i])
    }

    /** sortByRFC6724withSrcs, up to the sorting. */
    constructor (t: seq<Entry>, addrs: seq<IP>, srcs: seq<Option<IP>>)
      requires |addrs| == |srcs|
      ensures Valid() && this.t == t && this.addrs[..] == addrs && this.srcs[..] == srcs
      ensures fresh(this.addrs) && fresh(addrAttr) && fresh(this.srcs) && fresh(srcAttr)
    {
      this.t := t;
      this.addrs := new IP[|addrs|](i requires 0 <= i < |addrs| => addrs[i]);
      this.srcs := new Option<IP>[|srcs|](i requires 0 <= i < |srcs| => srcs[i]);
      addrAttr := new Attr[|addrs|](i requires 0 <= i < |addrs| => AttrOf(t, Some(addrs[i])));
      srcAttr := new Attr[|srcs|](i requires 0 <= i < |srcs| => AttrOf(t, srcs[i]));
    }

    method Swap(i: nat, j: nat)
      requires Valid() && i < addrs.Length && j < addrs.Length
      modifies addrs, addrAttr, srcs, srcAttr
      ensures Valid() && At(i) == old(At(j)) && At(j) == old(At(i))
      ensures forall k: nat | k < addrs.Length && k != i && k != j :: At(k) == old(At(k))
    {
      addrs[i], addrs[j] := addrs[j], addrs[i];
      srcs[i], srcs[j] := srcs[j], srcs[i];
      addrAttr[i], addrAttr[j] := addrAttr[j], addrAttr[i];
      srcAttr[i], srcAttr[j] := srcAttr[j], srcAttr[i];
      assert forall k: nat | k < addrs.Length ::
        At(k) == if k == i then old(At(j)) else if k == j then old(At(i)) else old(At(k));
    }
  }
}
