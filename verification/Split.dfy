/** bytes/bytes.go: Count, explode, genSplit, Join and Replace, over Index. */
module Split {
  import opened Bytes
  import Search
  import Utf8

  // ---- What the operations mean ----

  /** The number of bytes of the first rune of s. */
  function Width(s: bytes): (w: nat)
    ensures w <= |s| && (s != [] ==> w > 0)
  {
    Utf8.DecodeRune(s).1
  }

  /** Where s is cut next, or -1: at sep, or with an empty sep before s if it is the beginning of the
      text, and after a rune of it otherwise. */
  function NextCut(s: bytes, sep: bytes, first: bool): (m: int)
    ensures -1 <= m && (m >= 0 ==> m + |sep| <= |s|)
  {
    if sep != [] then Search.Find(s, sep)
    else if first then 0
    else if s == [] then -1
    else Width(s)
  }

  lemma NextCutParts(s: bytes, sep: bytes, first: bool)
    requires NextCut(s, sep, first) >= 0
    ensures var m := NextCut(s, sep, first); s == s[..m] + sep + s[m + |sep|..]
  {
    Search.FindIsLeast(s, sep);
  }

  /** The number of non-overlapping cuts. */
  function Cuts(s: bytes, sep: bytes, first: bool): nat
    decreases |s|, first
  {
    var m := NextCut(s, sep, first);
    if m < 0 then 0 else 1 + Cuts(s[m + |sep|..], sep, false)
  }

  /** What the first k cuts leave. */
  function Cut(s: bytes, sep: bytes, first: bool, k: nat): (pieces: seq<bytes>)
    ensures pieces != []
    decreases k
  {
    var m := NextCut(s, sep, first);
    if k == 0 || m < 0 then [s] else [s[..m]] + Cut(s[m + |sep|..], sep, false, k - 1)
  }

  /** Each piece with sep behind it. */
  function Each(pieces: seq<bytes>, sep: bytes): bytes {
    if pieces == [] then [] else Each(pieces[..|pieces| - 1], sep) + pieces[|pieces| - 1] + sep
  }

  function Join(pieces: seq<bytes>, sep: bytes): bytes {
    if pieces == [] then [] else Each(pieces[..|pieces| - 1], sep) + pieces[|pieces| - 1]
  }

  lemma EachAppend(pieces: seq<bytes>, p: bytes, sep: bytes)
    ensures Each(pieces + [p], sep) == Each(pieces, sep) + p + sep
    ensures Join(pieces + [p], sep) == Each(pieces, sep) + p
  {
    assert (pieces + [p])[..|pieces|] == pieces;
  }

  lemma JoinOne(p: bytes, sep: bytes)
    ensures Join([p], sep) == p
  {
    assert [] + [p] == [p] && [] + p == p;
    EachAppend([], p, sep);
  }

  lemma JoinNone(sep: bytes)
    ensures Join([], sep) == [] && Each([], sep) == []
  {
  }

  lemma {:induction false} EachFront(p: bytes, pieces: seq<bytes>, sep: bytes)
    ensures Each([p] + pieces, sep) == p + sep + Each(pieces, sep)
    ensures pieces != [] ==> Join([p] + pieces, sep) == p + sep + Join(pieces, sep)
  {
    if pieces == [] {
      assert [p] + pieces == [] + [p];
      EachAppend([], p, sep);
    } else {
      var (front, last) := (pieces[..|pieces| - 1], pieces[|pieces| - 1]);
      assert [p] + pieces == ([p] + front) + [last] && pieces == front + [last];
      EachAppend([p] + front, last, sep);
      EachAppend(front, last, sep);
      EachFront(p, front, sep);
      hide Each, Join;
      assert Each([p] + pieces, sep) == p + sep + Each(pieces, sep);
      assert Join([p] + pieces, sep) == p + sep + Join(pieces, sep);
    }
  }

  lemma CutStep(s: bytes, sep: bytes, first: bool, k: nat)
    requires NextCut(s, sep, first) >= 0
    ensures var m := NextCut(s, sep, first); var rest := s[m + |sep|..];
      Cuts(s, sep, first) == 1 + Cuts(rest, sep, false) &&
      (k > 0 ==> Cut(s, sep, first, k) == [s[..m]] + Cut(rest, sep, false, k - 1))
  {
  }

  // ---- The laws ----

  /** Joining the pieces gives the text back, however many cuts were made. */
  lemma {:induction false} JoinCut(s: bytes, sep: bytes, first: bool, k: nat)
    ensures Join(Cut(s, sep, first, k), sep) == s
    decreases k
  {
    hide Each, Join, NextCut;
    var m := NextCut(s, sep, first);
    if k > 0 && m >= 0 {
      var rest := s[m + |sep|..];
      NextCutParts(s, sep, first);
      JoinCut(rest, sep, false, k - 1);
      EachFront(s[..m], Cut(rest, sep, false, k - 1), sep);
    } else {
      JoinOne(s, sep);
    }
  }

  /** There is a piece for every cut made, and one more. */
  lemma {:induction false} CutLength(s: bytes, sep: bytes, first: bool, k: nat)
    ensures |Cut(s, sep, first, k)| == 1 + if k <= Cuts(s, sep, first) then k else Cuts(s, sep, first)
    decreases k
  {
    var m := NextCut(s, sep, first);
    hide NextCut;
    if k > 0 && m >= 0 {
      CutLength(s[m + |sep|..], sep, false, k - 1);
    }
  }

  /** Cuts beyond the last one change nothing. */
  lemma {:induction false} CutEnough(s: bytes, sep: bytes, first: bool, k: nat)
    requires k >= Cuts(s, sep, first)
    ensures Cut(s, sep, first, k) == Cut(s, sep, first, Cuts(s, sep, first))
    decreases k
  {
    var m := NextCut(s, sep, first);
    hide NextCut;
    if k > 0 && m >= 0 {
      CutEnough(s[m + |sep|..], sep, false, k - 1);
    }
  }

  ghost predicate NoneHolds(pieces: seq<bytes>, sep: bytes) {
    forall p | p in pieces :: Search.Find(p, sep) == -1
  }

  lemma NoneHoldsCons(p: bytes, more: seq<bytes>, sep: bytes)
    requires Search.Find(p, sep) == -1 && NoneHolds(more, sep)
    ensures NoneHolds([p] + more, sep)
  {
  }

  /** No piece holds sep, when all the cuts are made. */
  lemma {:induction false} PiecesHoldNoSep(s: bytes, sep: bytes, k: nat)
    requires sep != [] && k >= Cuts(s, sep, false)
    ensures NoneHolds(Cut(s, sep, false, k), sep)
    decreases k
  {
    var m := NextCut(s, sep, false);
    assert m == Search.Find(s, sep);
    hide NextCut, Search.Find, NoneHolds;
    if k > 0 && m >= 0 {
      NoMatchInPrefix(s, sep, m);
      PiecesHoldNoSep(s[m + |sep|..], sep, k - 1);
      NoneHoldsCons(s[..m], Cut(s[m + |sep|..], sep, false, k - 1), sep);
    } else {
      NoneHoldsOne(s, sep);
    }
  }

  lemma NoneHoldsOne(p: bytes, sep: bytes)
    requires Search.Find(p, sep) == -1
    ensures NoneHolds([p], sep)
  {
  }

  lemma FirstIrrelevant(s: bytes, sep: bytes, k: nat)
    requires sep != []
    ensures Cut(s, sep, true, k) == Cut(s, sep, false, k) && Cuts(s, sep, true) == Cuts(s, sep, false)
  {
  }

  lemma NoMatchInPrefix(s: bytes, sep: bytes, m: nat)
    requires sep != [] && m == Search.Find(s, sep)
    ensures Search.Find(s[..m], sep) == -1
  {
    var r := Search.Find(s[..m], sep);
    Search.FindIsLeast(s, sep);
    Search.FindIsLeast(s[..m], sep);
    if r >= 0 {
      assert s[..m][r..r + |sep|] == s[r..r + |sep|];
      assert Search.MatchAt(s[..m], sep, r) && Search.MatchAt(s, sep, r);
    }
  }

  /** Each piece but the last ends at the first sep after it, and the last holds none. */
  predicate CutFromTheLeft(pieces: seq<bytes>, sep: bytes) {
    && pieces != []
    && (forall i | 0 <= i < |pieces| - 1 :: Search.Find(pieces[i] + sep, sep) == |pieces[i]|)
    && Search.Find(pieces[|pieces| - 1], sep) == -1
  }

  lemma LeftCons(p: bytes, more: seq<bytes>, sep: bytes)
    requires more != []
    ensures CutFromTheLeft([p] + more, sep) <==> Search.Find(p + sep, sep) == |p| && CutFromTheLeft(more, sep)
  {
    var all := [p] + more;
    assert forall i | 0 <= i < |more| :: all[i + 1] == more[i];
    assert CutFromTheLeft(all, sep) ==> all[0] == p;
  }

  /** All the cuts of s are made from the left. */
  lemma {:induction false} CutsAreFromTheLeft(s: bytes, sep: bytes)
    requires sep != []
    ensures CutFromTheLeft(Cut(s, sep, false, Cuts(s, sep, false)), sep)
    decreases |s|
  {
    hide *;
    NextIsFind(s, sep);
    if NextCut(s, sep, false) >= 0 {
      CutsShrink(s, sep);
      CutsAreFromTheLeft(s[NextCut(s, sep, false) + |sep|..], sep);
      LeftCut(s, sep, Cuts(s, sep, false));
    } else {
      CutStops(s, sep, false, Cuts(s, sep, false));
      LeftOne(s, sep);
    }
  }

  lemma NextIsFind(s: bytes, sep: bytes)
    requires sep != []
    ensures NextCut(s, sep, false) == Search.Find(s, sep)
  {
  }

  lemma CutsShrink(s: bytes, sep: bytes)
    requires NextCut(s, sep, false) >= 0
    ensures Cuts(s, sep, false) == 1 + Cuts(s[NextCut(s, sep, false) + |sep|..], sep, false)
  {
  }

  lemma LeftCut(s: bytes, sep: bytes, k: nat)
    requires sep != [] && k > 0 && NextCut(s, sep, false) >= 0
    requires CutFromTheLeft(Cut(s[NextCut(s, sep, false) + |sep|..], sep, false, k - 1), sep)
    ensures CutFromTheLeft(Cut(s, sep, false, k), sep)
  {
    assert NextCut(s, sep, false) == Search.Find(s, sep);
    hide *;
    CutStep(s, sep, false, k);
    LeftStep(s, sep, NextCut(s, sep, false), Cut(s[NextCut(s, sep, false) + |sep|..], sep, false, k - 1));
  }

  lemma LeftStep(s: bytes, sep: bytes, m: nat, more: seq<bytes>)
    requires sep != [] && m == Search.Find(s, sep) && CutFromTheLeft(more, sep)
    ensures CutFromTheLeft([s[..m]] + more, sep)
  {
    FirstMatchEnds(s, sep, m);
    LeftCons(s[..m], more, sep);
    hide CutFromTheLeft;
  }

  lemma LeftOne(p: bytes, sep: bytes)
    requires Search.Find(p, sep) == -1
    ensures CutFromTheLeft([p], sep)
  {
  }

  lemma FirstMatchEnds(s: bytes, sep: bytes, m: nat)
    requires sep != [] && m == Search.Find(s, sep)
    ensures Search.Find(s[..m] + sep, sep) == m
  {
    Search.FindIsLeast(s, sep);
    var t := s[..m + |sep|];
    assert t == s[..m] + sep by { assert s[m..m + |sep|] == sep; }
    var r := Search.Find(t, sep);
    Search.FindIsLeast(t, sep);
    assert t[m..m + |sep|] == s[m..m + |sep|];
    assert Search.MatchAt(t, sep, m);
    assert s[r..r + |sep|] == t[r..r + |sep|];
    assert Search.MatchAt(s, sep, r);
  }

  /** And no other pieces of s are: Cut finds the one way to take s apart from the left. */
  lemma {:induction false} CutUnique(pieces: seq<bytes>, s: bytes, sep: bytes)
    requires sep != [] && CutFromTheLeft(pieces, sep) && Join(pieces, sep) == s
    ensures pieces == Cut(s, sep, false, Cuts(s, sep, false))
    decreases |pieces|
  {
    if |pieces| == 1 {
      assert pieces == [pieces[0]];
      JoinOne(pieces[0], sep);
    } else {
      var (p, more) := (pieces[0], pieces[1..]);
      assert pieces == [p] + more;
      EachFront(p, more, sep);
      LeftCons(p, more, sep);
      hide CutFromTheLeft, Join, Each;
      var rest := Join(more, sep);
      assert s == (p + sep) + rest;
      FindInPrefix(p + sep, rest, sep);
      CutOne(p, rest, sep, Cuts(rest, sep, false));
      hide *;
      CutUnique(more, rest, sep);
    }
  }

  lemma CutOne(p: bytes, rest: bytes, sep: bytes, k: nat)
    requires sep != [] && Search.Find(p + sep + rest, sep) == |p|
    ensures Cut(p + sep + rest, sep, false, k + 1) == [p] + Cut(rest, sep, false, k)
    ensures Cuts(p + sep + rest, sep, false) == 1 + Cuts(rest, sep, false)
  {
    var s := p + sep + rest;
    assert NextCut(s, sep, false) == |p|;
    assert s[|p| + |sep|..] == rest && s[..|p|] == p;
  }

  /** A first match that ends within t is still the first when more bytes follow. */
  lemma FindInPrefix(t: bytes, rest: bytes, sep: bytes)
    requires Search.Find(t, sep) >= 0
    ensures Search.Find(t + rest, sep) == Search.Find(t, sep)
  {
    var r := Search.Find(t, sep);
    forall k | 0 <= k <= r ensures Search.MatchAt(t + rest, sep, k) == Search.MatchAt(t, sep, k) {
      assert k + |sep| <= |t| ==> (t + rest)[k..k + |sep|] == t[k..k + |sep|];
    }
    Search.FindIsLeast(t, sep);
    Search.FindIsLeast(t + rest, sep);
    Search.LeastUnique(t + rest, sep, 0, r, Search.Find(t + rest, sep));
  }

  // ---- Count ----

  /** bytealg.Count */
  function CountByte(s: bytes, c: byte): nat {
    if s == [] then 0 else (if s[0] == c then 1 else 0) + CountByte(s[1..], c)
  }

  /** For one byte, cutting as often as possible is counting its occurrences. */
  lemma {:induction false} CutsOfByte(s: bytes, c: byte)
    ensures Cuts(s, [c], false) == CountByte(s, c)
  {
    Search.FindIsLeast(s, [c]);
    if s != [] {
      CutsOfByte(s[1..], c);
      if s[0] == c {
        assert s[0..1] == [c];
        Search.LeastBefore(s, [c], 0, 0);
      } else {
        var r := Search.Find(s[1..], [c]);
        Search.FindIsLeast(s[1..], [c]);
        Search.LeastInTail(s, [c], 1, r);
        Search.FirstByteDiffers(s, [c], 0);
        var m := if r < 0 then -1 else r + 1;
        Search.LeastBefore(s, [c], 1, m);
        if r >= 0 {
          assert s[m + 1..] == s[1..][r + 1..];
        }
      }
    }
  }

  lemma {:induction false} CutsAreRunes(s: bytes)
    ensures Cuts(s, [], false) == |Utf8.Runes(s, true)|
    decreases |s|
  {
    hide Utf8.DecodeRune;
    if s != [] {
      CutsAreRunes(s[Width(s)..]);
    }
  }

  /** Count: the number of cuts; with an empty sep, one more than the number of runes. */
  method Count(mc: Search.Machine, s: bytes, sep: bytes) returns (n: nat)
    ensures n == Cuts(s, sep, true)
    ensures sep == [] ==> n == |Utf8.Runes(s, true)| + 1
  {
    hide Utf8.Runes, Utf8.DecodeRune;
    if |sep| == 0 {
      CutsAreRunes(s);
      assert s[0..] == s;
      return 1 + Cuts(s, sep, false); // utf8.RuneCount(s) + 1
    }
    FirstIrrelevant(s, sep, 0);
    if |sep| == 1 {
      assert sep == [sep[0]];
      CutsOfByte(s, sep[0]);
      return CountByte(s, sep[0]); // bytealg.Count
    }
    n := 0;
    var rest := s;
    while true
      invariant n + Cuts(rest, sep, false) == Cuts(s, sep, false)
      decreases |rest|
    {
      var i := Search.Index(mc, rest, sep);
      if i == -1 {
        return;
      }
      n := n + 1;
      rest := rest[i + |sep|..];
    }
  }

  // ---- Splitting ----

  /** The runes of s, at most n pieces, the last one the unsplit remainder. */
  function Exploded(s: bytes, n: nat): seq<bytes> {
    if s == [] || n == 0 then [] else Cut(s, [], false, Least(n, Cuts(s, [], false)) - 1)
  }

  function Least(a: int, b: int): int {
    if a <= b then a else b
  }

  lemma {:induction false} RuneCutsBounded(s: bytes)
    ensures s == [] <==> Cuts(s, [], false) == 0
    ensures Cuts(s, [], false) <= |s|
    decreases |s|
  {
    if s != [] {
      RuneCutsBounded(s[Width(s)..]);
    }
  }

  lemma RuneCut(s: bytes)
    requires s != []
    ensures var w := Width(s);
      0 < w == NextCut(s, [], false) <= |s| && Cuts(s, [], false) == 1 + Cuts(s[w..], [], false) &&
      (s[w..] == [] <==> Cuts(s, [], false) == 1)
  {
    RuneCutsBounded(s[Width(s)..]);
  }

  lemma ExplodedAtOnce(s: bytes, n: nat)
    requires s != [] && n > 0
    ensures Cuts(s, [], false) > 0 && Exploded(s, n) == Cut(s, [], false, Least(n, Cuts(s, [], false)) - 1)
  {
    RuneCutsBounded(s);
  }

  lemma ExplodeStep(s: bytes, n: nat)
    requires s != [] && n > 0
    ensures Width(s) <= |s|
    ensures Exploded(s, n) == if n == 1 then [s] else [s[..Width(s)]] + Exploded(s[Width(s)..], n - 1)
  {
    hide Width, NextCut, Cuts, Cut, Exploded;
    RuneCut(s);
    ExplodedAtOnce(s, n);
    var (w, k) := (Width(s), Cuts(s, [], false));
    if n == 1 || k == 1 {
      CutStops(s, [], false, 0);
      ExplodedNone(n - 1);
      assert s[..|s|] == s && [s] + [] == [s];
    } else {
      ExplodedAtOnce(s[w..], n - 1);
      CutStep(s, [], false, Least(n, k) - 1);
    }
  }

  lemma ExplodedLength(s: bytes, n: nat)
    ensures |Exploded(s, n)| == Least(n, |Utf8.Runes(s, true)|)
  {
    hide Utf8.Runes;
    CutsAreRunes(s);
    RuneCutsBounded(s);
    if s != [] && n > 0 {
      CutLength(s, [], false, Least(n, Cuts(s, [], false)) - 1);
    }
  }

  /** Each piece is a rune of the text, but for a last one that holds the rest of it. */
  lemma {:induction false} ExplodedRune(s: bytes, n: nat, i: nat)
    requires i < |Exploded(s, n)| && (i + 1 < n || |Utf8.Runes(s, true)| <= n)
    ensures i < |Utf8.Runes(s, true)| && Utf8.Runes(Exploded(s, n)[i], true) == [Utf8.Runes(s, true)[i]]
    decreases |s|
  {
    hide Utf8.Runes, Exploded, Width, Utf8.DecodeRune;
    SomethingExploded(s, n);
    var w := Width(s);
    ExplodedLength(s, n);
    ExplodeStep(s, n);
    RunesStep(s);
    if i == 0 {
      if n == 1 {
        assert s[..|s|] == s;
        AloneIfOne(s);
      }
    } else {
      ExplodedRune(s[w..], n - 1, i - 1);
    }
  }

  lemma SomethingExploded(s: bytes, n: nat)
    requires Exploded(s, n) != []
    ensures s != [] && n > 0
  {
  }

  lemma RunesStep(s: bytes)
    requires s != []
    ensures Utf8.Runes(s, true) == [Utf8.DecodeRune(s).0] + Utf8.Runes(s[Width(s)..], true)
    ensures Utf8.Runes(s[..Width(s)], true) == [Utf8.DecodeRune(s).0]
  {
    Utf8.RuneInPrefix(s, Width(s));
    hide Utf8.DecodeRune;
    assert s[..Width(s)][Width(s)..] == [];
  }

  lemma AloneIfOne(s: bytes)
    requires |Utf8.Runes(s, true)| == 1
    ensures Utf8.Runes(s, true) == [Utf8.Runes(s, true)[0]]
  {
  }

  method SetPiece(a: array<bytes>, i: nat, p: bytes)
    requires i < a.Length
    modifies a
    ensures a[..] == old(a[..])[i := p]
  {
    a[i] := p;
  }

  /** explode */
  method Explode(s: bytes, n: int) returns (pieces: seq<bytes>)
    ensures pieces == Exploded(s, if n <= 0 then |s| else n)
  {
    var max: nat := if n <= 0 then |s| else n;
    var a := new bytes[max];
    var na := 0;
    var rest := s;
    ExplodedNone(max);
    assert Exploding(Exploded(s, max), a[..], 0, rest);
    hide *;
    while |rest| > 0
      invariant 0 <= na <= max && (rest != [] ==> na < max) && (n <= 0 ==> na + |rest| <= max)
      invariant Exploding(Exploded(s, max), a[..], na, rest)
      decreases |rest|
    {
      var size := if na + 1 >= max then |rest| else Width(rest);
      ExplodingStep(Exploded(s, max), a[..], na, rest, size);
      SetPiece(a, na, rest[..size]);
      rest := rest[size..];
      na := na + 1;
    }
    assert a[..na] == Exploded(s, max) by { ExplodingEnd(Exploded(s, max), a[..], na); }
    return a[..na];
  }

  /** Where the loop of explode stands: na pieces in the array, and the rest still to be taken apart. */
  ghost predicate Exploding(whole: seq<bytes>, a: seq<bytes>, na: nat, rest: bytes) {
    na <= |a| && whole == a[..na] + Exploded(rest, |a| - na)
  }

  lemma ExplodingStep(whole: seq<bytes>, a: seq<bytes>, na: nat, rest: bytes, size: nat)
    requires rest != [] && na < |a| && Exploding(whole, a, na, rest)
    requires size == if na + 1 >= |a| then |rest| else Width(rest)
    ensures 0 < size <= |rest| && Exploding(whole, a[na := rest[..size]], na + 1, rest[size..])
  {
    ExplodeStep(rest, |a| - na);
    if na + 1 == |a| {
      ExplodedNone(0);
      assert rest[..size] == rest && rest[size..] == [];
    }
    hide Exploded, Width;
    Regroup(a[..na], rest[..size], Exploded(rest[size..], |a| - na - 1));
    assert a[na := rest[..size]][..na + 1] == a[..na] + [rest[..size]];
  }

  lemma ExplodingEnd(whole: seq<bytes>, a: seq<bytes>, na: nat)
    requires Exploding(whole, a, na, [])
    ensures na <= |a| && a[..na] == whole
  {
    ExplodedNone(|a| - na);
  }

  lemma ExplodedNone(n: nat)
    ensures Exploded([], n) == []
  {
  }

  /** What SplitN promises: at most n pieces (all of them if n < 0), between the sep's of s. */
  function Pieces(s: bytes, sep: bytes, n: int): seq<bytes> {
    if n == 0 then []
    else if sep == [] then Exploded(s, if n < 0 then |s| else n)
    else Cut(s, sep, false, if n < 0 then Cuts(s, sep, false) else n - 1)
  }

  /** All pieces with a tail behind them. */
  function Tailed(pieces: seq<bytes>, tail: bytes): (r: seq<bytes>)
    ensures |r| == |pieces|
  {
    seq(|pieces|, i requires 0 <= i < |pieces| => pieces[i] + tail)
  }

  /** All pieces but the last with a tail behind them. */
  function Keep(pieces: seq<bytes>, tail: bytes): (kept: seq<bytes>) {
    if pieces == [] then []
    else Tailed(pieces[..|pieces| - 1], tail) + [pieces[|pieces| - 1]]
  }

  lemma FindIsNextCut(s: bytes, sep: bytes)
    requires sep != []
    ensures NextCut(s, sep, false) == Search.Find(s, sep)
  {
  }

  lemma KeepNothing(pieces: seq<bytes>)
    ensures Keep(pieces, []) == pieces
  {
    assert forall i | 0 <= i < |pieces| :: pieces[i] + [] == pieces[i];
  }

  /** genSplit */
  method GenSplit(mc: Search.Machine, s: bytes, sep: bytes, sepSave: nat, n: int) returns (pieces: seq<bytes>)
    requires sepSave <= |sep|
    ensures pieces == Keep(Pieces(s, sep, n), sep[..sepSave])
  {
    hide Cut, Cuts, NextCut, Exploded;
    if n == 0 {
      return [];
    }
    if |sep| == 0 {
      pieces := Explode(s, n);
      KeepNothing(pieces);
      return;
    }
    var max: int := n;
    if n < 0 {
      max := Count(mc, s, sep);
      FirstIrrelevant(s, sep, 0);
      max := max + 1;
    }
    pieces := SplitAt(mc, s, sep, sepSave, max);
  }

  /** The loop of genSplit. */
  method SplitAt(mc: Search.Machine, s: bytes, sep: bytes, sepSave: nat, n: nat) returns (pieces: seq<bytes>)
    requires sepSave <= |sep| && sep != [] && n > 0
    ensures pieces == Keep(Cut(s, sep, false, n - 1), sep[..sepSave])
  {
    hide *;
    ghost var whole := Cut(s, sep, false, n - 1);
    var a := new bytes[n];
    var i := 0;
    var rest := s;
    ghost var done: seq<bytes> := [];
    SplittingStarts(whole, s, sep, sepSave, a[..]);
    while i < n - 1
      invariant 0 <= i <= n - 1 && |done| == i && Splitting(whole, sep, sepSave, a[..], rest, done)
    {
      var m := Search.Index(mc, rest, sep);
      FindIsNextCut(rest, sep);
      if m < 0 {
        break;
      }
      done := SplitOne(whole, sep, sepSave, a, i, rest, m, done);
      rest := rest[m + |sep|..];
      i := i + 1;
    }
    SplitLast(whole, sep, sepSave, a[..], rest, done);
    ghost var front := a[..i];
    a[i] := rest;
    pieces := a[..i + 1];
    assert pieces == front + [rest];
  }

  /** a[i] = s[: m+sepSave : m+sepSave] */
  method SplitOne(ghost whole: seq<bytes>, sep: bytes, sepSave: nat, a: array<bytes>, i: nat, rest: bytes, m: nat,
                  ghost done: seq<bytes>) returns (ghost done1: seq<bytes>)
    requires i == |done| < a.Length - 1 && m == NextCut(rest, sep, false)
    requires Splitting(whole, sep, sepSave, a[..], rest, done)
    modifies a
    ensures m + |sep| <= |rest| && |done1| == i + 1
    ensures Splitting(whole, sep, sepSave, a[..], rest[m + |sep|..], done1)
  {
    SplitStep(whole, sep, sepSave, a[..], rest, done);
    hide *;
    SetPiece(a, i, rest[..m + sepSave]);
    done1 := done + [rest[..m]];
  }

  /** Where the loop of genSplit stands: the first pieces, each with the saved part of sep behind it. */
  ghost predicate Splitting(whole: seq<bytes>, sep: bytes, save: nat, a: seq<bytes>, rest: bytes, done: seq<bytes>) {
    && save <= |sep| && |done| < |a|
    && Resumes(whole, done, rest, sep, false, |a| - 1 - |done|)
    && a[..|done|] == Tailed(done, sep[..save])
  }

  lemma SplittingStarts(whole: seq<bytes>, s: bytes, sep: bytes, save: nat, a: seq<bytes>)
    requires save <= |sep| && a != [] && whole == Cut(s, sep, false, |a| - 1)
    ensures Splitting(whole, sep, save, a, s, [])
  {
  }

  lemma SplitStep(whole: seq<bytes>, sep: bytes, save: nat, a: seq<bytes>, rest: bytes, done: seq<bytes>)
    requires Splitting(whole, sep, save, a, rest, done) && |done| < |a| - 1 && NextCut(rest, sep, false) >= 0
    ensures var m := NextCut(rest, sep, false);
      m + |sep| <= |rest| && save <= |sep| &&
      Splitting(whole, sep, save, a[|done| := rest[..m + save]], rest[m + |sep|..], done + [rest[..m]])
  {
    var m := NextCut(rest, sep, false);
    ResumeStep(whole, done, rest, sep, false, |a| - 1 - |done|);
    KeptPiece(rest, sep, m, save);
    TailedAppend(done, rest[..m], sep[..save]);
    hide Resumes, Tailed, NextCut;
    var a1 := a[|done| := rest[..m + save]];
    assert a1[..|done| + 1] == a[..|done|] + [rest[..m + save]];
  }

  lemma SplitLast(whole: seq<bytes>, sep: bytes, save: nat, a: seq<bytes>, rest: bytes, done: seq<bytes>)
    requires Splitting(whole, sep, save, a, rest, done)
    requires |done| == |a| - 1 || NextCut(rest, sep, false) < 0
    ensures save <= |sep| && |done| < |a| && a[..|done|] + [rest] == Keep(whole, sep[..save])
  {
    ResumeEnd(whole, done, rest, sep, false, |a| - 1 - |done|);
    KeepLast(done, rest, sep[..save]);
  }

  lemma KeptPiece(s: bytes, sep: bytes, m: nat, save: nat)
    requires save <= |sep| && m == NextCut(s, sep, false)
    ensures s[..m + save] == s[..m] + sep[..save]
  {
    NextCutParts(s, sep, false);
    assert s[..m + save] == (s[..m] + sep + s[m + |sep|..])[..m + save];
  }

  lemma TailedAppend(pieces: seq<bytes>, p: bytes, tail: bytes)
    ensures Tailed(pieces + [p], tail) == Tailed(pieces, tail) + [p + tail]
  {
  }

  lemma KeepLast(front: seq<bytes>, last: bytes, tail: bytes)
    ensures Keep(front + [last], tail) == Tailed(front, tail) + [last]
  {
  }

  /** Where a loop over the cuts stands: some pieces done, and k cuts of the rest to come. */
  ghost predicate Resumes(whole: seq<bytes>, done: seq<bytes>, rest: bytes, sep: bytes, first: bool, k: nat) {
    whole == done + Cut(rest, sep, first, k)
  }

  lemma ResumeStep(whole: seq<bytes>, done: seq<bytes>, rest: bytes, sep: bytes, first: bool, k: nat)
    requires k > 0 && Resumes(whole, done, rest, sep, first, k)
    requires NextCut(rest, sep, first) >= 0 || |whole| == |done| + k + 1
    ensures var m := NextCut(rest, sep, first);
      m >= 0 && Resumes(whole, done + [rest[..m]], rest[m + |sep|..], sep, false, k - 1) &&
      done + [rest[..m]] <= whole && |done| + 1 < |whole|
  {
    var m := NextCut(rest, sep, first);
    assert m >= 0;
    CutStep(rest, sep, first, k);
    hide NextCut, Cuts;
    Regroup(done, rest[..m], Cut(rest[m + |sep|..], sep, false, k - 1));
    hide Cut;
  }

  lemma Regroup(done: seq<bytes>, p: bytes, more: seq<bytes>)
    ensures done + ([p] + more) == (done + [p]) + more
  {
  }

  lemma ResumeEnd(whole: seq<bytes>, done: seq<bytes>, rest: bytes, sep: bytes, first: bool, k: nat)
    requires Resumes(whole, done, rest, sep, first, k)
    requires k == 0 || NextCut(rest, sep, first) < 0
    ensures whole == done + [rest]
  {
  }

  lemma CutStops(s: bytes, sep: bytes, first: bool, k: nat)
    requires k == 0 || NextCut(s, sep, first) < 0
    ensures Cut(s, sep, first, k) == [s]
  {
  }

  /** Split returns exactly the pieces that join to s and are cut from the left. */
  lemma SplitExactly(pieces: seq<bytes>, s: bytes, sep: bytes)
    requires sep != []
    ensures pieces == Pieces(s, sep, -1) <==> Join(pieces, sep) == s && CutFromTheLeft(pieces, sep)
  {
    CutsAreFromTheLeft(s, sep);
    JoinCut(s, sep, false, Cuts(s, sep, false));
    if Join(pieces, sep) == s && CutFromTheLeft(pieces, sep) {
      CutUnique(pieces, s, sep);
    }
  }

  /** Joining what SplitN returns gives the text back, for every limit but 0. */
  lemma JoinPieces(s: bytes, sep: bytes, n: int)
    requires n != 0
    ensures Join(Pieces(s, sep, n), sep) == s
  {
    if sep == [] {
      RuneCutsBounded(s);
      if s != [] {
        JoinCut(s, sep, false, Least(if n < 0 then |s| else n, Cuts(s, [], false)) - 1);
      }
    } else {
      JoinCut(s, sep, false, if n < 0 then Cuts(s, sep, false) else n - 1);
    }
  }

  /** Keeping sep behind the pieces makes them concatenate to the text: SplitAfter. */
  lemma FlattenKept(pieces: seq<bytes>, sep: bytes)
    ensures Flatten(Keep(pieces, sep)) == Join(pieces, sep)
  {
    if pieces != [] {
      var (front, last) := (pieces[..|pieces| - 1], pieces[|pieces| - 1]);
      FlattenTailed(front, sep);
      FlattenAppend(Tailed(front, sep), last);
    }
  }

  lemma {:induction false} FlattenTailed(pieces: seq<bytes>, sep: bytes)
    ensures Flatten(Tailed(pieces, sep)) == Each(pieces, sep)
  {
    if pieces != [] {
      var (front, last) := (pieces[..|pieces| - 1], pieces[|pieces| - 1]);
      FlattenTailed(front, sep);
      assert Tailed(pieces, sep) == Tailed(front, sep) + [last + sep];
      FlattenAppend(Tailed(front, sep), last + sep);
    }
  }

  // ---- Joining and replacing ----

  function Total(pieces: seq<bytes>): nat {
    if pieces == [] then 0 else Total(pieces[..|pieces| - 1]) + |pieces[|pieces| - 1]|
  }

  lemma {:induction false} EachLength(pieces: seq<bytes>, sep: bytes)
    ensures |Each(pieces, sep)| == |pieces| * |sep| + Total(pieces)
  {
    if pieces != [] {
      EachLength(pieces[..|pieces| - 1], sep);
    }
  }

  lemma JoinLength(pieces: seq<bytes>, sep: bytes)
    requires pieces != []
    ensures |Join(pieces, sep)| == (|pieces| - 1) * |sep| + Total(pieces)
  {
    EachLength(pieces[..|pieces| - 1], sep);
  }

  /** What has been put together so far is a prefix of the whole. */
  lemma {:induction false} EachPrefix(pieces: seq<bytes>, i: nat, sep: bytes)
    requires i < |pieces|
    ensures |Each(pieces[..i], sep)| + |pieces[i]| <= |Join(pieces, sep)|
    ensures i < |pieces| - 1 ==> |Each(pieces[..i], sep)| + |pieces[i]| + |sep| <= |Join(pieces, sep)|
  {
    var front := pieces[..|pieces| - 1];
    if i < |front| {
      EachPrefix(front, i, sep);
      assert pieces[..i] == front[..i];
      assert front == front[..|front| - 1] + [front[|front| - 1]];
      EachAppend(front[..|front| - 1], front[|front| - 1], sep);
    }
  }

  /** copy(t[w:], p) and then copy of q behind it */
  method CopyTwo(t: array<byte>, w: nat, p: bytes, q: bytes) returns (w1: nat)
    requires w + |p| + |q| <= t.Length
    modifies t
    ensures w1 == w + |p| + |q| && t[..w1] == old(t[..w]) + p + q
  {
    w1 := CopyAt(t, w, p);
    w1 := CopyAt(t, w1, q);
  }

  /** Join, into a buffer whose length is computed before and filled exactly. */
  method JoinBytes(s: seq<bytes>, sep: bytes) returns (r: bytes)
    ensures r == Join(s, sep)
  {
    hide *;
    JoinNone(sep);
    if |s| == 0 {
      return [];
    }
    assert s[..1] == [s[0]] && s[..|s|] == s;
    JoinOne(s[0], sep);
    if |s| == 1 {
      return s[0];
    }
    var n := JoinSize(s, sep);
    var b := new byte[n];
    EachPrefix(s, 0, sep);
    var bp := CopyAt(b, 0, s[0]);
    for i := 1 to |s|
      invariant bp == |Join(s[..i], sep)| <= b.Length && b[..bp] == Join(s[..i], sep)
    {
      JoinStep(s, i, sep);
      bp := CopyTwo(b, bp, sep, s[i]);
    }
    return b[..];
  }

  method JoinSize(s: seq<bytes>, sep: bytes) returns (n: nat)
    requires s != []
    ensures n == |Join(s, sep)|
  {
    JoinLength(s, sep);
    hide Join;
    n := |sep| * (|s| - 1);
    for i := 0 to |s|
      invariant n == |sep| * (|s| - 1) + Total(s[..i])
    {
      assert s[..i + 1][..i] == s[..i];
      n := n + |s[i]|;
    }
    assert s[..|s|] == s;
  }

  lemma JoinStep(pieces: seq<bytes>, i: nat, sep: bytes)
    requires 0 < i < |pieces|
    ensures Join(pieces[..i + 1], sep) == Join(pieces[..i], sep) + sep + pieces[i]
    ensures |Join(pieces[..i + 1], sep)| <= |Join(pieces, sep)|
  {
    assert pieces[..i] == pieces[..i - 1] + [pieces[i - 1]];
    EachAppend(pieces[..i - 1], pieces[i - 1], sep);
    assert pieces[..i + 1] == pieces[..i] + [pieces[i]];
    EachAppend(pieces[..i], pieces[i], sep);
    EachPrefix(pieces, i, sep);
  }

  /** How many replacements Replace makes. */
  function Replacements(s: bytes, target: bytes, n: int): nat {
    var m := Cuts(s, target, true);
    if n < 0 || m < n then m else n
  }

  /** Replace, into a buffer whose length is computed before and filled exactly. */
  method Replace(mc: Search.Machine, s: bytes, target: bytes, repl: bytes, n: int) returns (r: bytes)
    ensures r == Join(Cut(s, target, true, Replacements(s, target, n)), repl)
  {
    var m := 0;
    if n != 0 {
      // how many cuts are replaced
      m := Count(mc, s, target);
    }
    if m == 0 {
      // nothing to replace
      JoinOne(s, repl);
      return s;
    }
    r := ApplyCuts(mc, s, target, repl, if n < 0 || m < n then m else n);
  }

  /** Where the loop of Replace stands: what is copied is the first pieces, each with repl behind it. */
  ghost predicate Applied(s: bytes, target: bytes, repl: bytes, pieces: seq<bytes>, t: bytes,
                          w: nat, start: nat, done: seq<bytes>) {
    && start <= |s| && |done| < |pieces| && w <= |t| == |Join(pieces, repl)|
    && Resumes(pieces, done, s[start..], target, |done| == 0, |pieces| - 1 - |done|)
    && t[..w] == Each(done, repl)
  }

  /** The loop of Replace. */
  method ApplyCuts(mc: Search.Machine, s: bytes, target: bytes, repl: bytes, n: nat) returns (r: bytes)
    requires n <= Cuts(s, target, true)
    ensures r == Join(Cut(s, target, true, n), repl)
  {
    ghost var pieces := Cut(s, target, true, n);
    ReplacedLength(s, target, repl, n);
    var t := new byte[|s| + n * (|repl| - |target|)];
    var w := 0;
    var start := 0;
    ghost var done: seq<bytes> := [];
    assert s[0..] == s && Applied(s, target, repl, pieces, t[..], 0, 0, done);
    hide *;
    for i := 0 to n
      invariant 0 <= start && 0 <= w && |done| == i && Applied(s, target, repl, pieces, t[..], w, start, done)
    {
      w, start, done := ApplyOne(mc, s, target, repl, t, w, start, i, pieces, done);
    }
    r := ApplyLast(s, target, repl, t, w, start, pieces, done);
  }

  method ApplyOne(mc: Search.Machine, s: bytes, target: bytes, repl: bytes, t: array<byte>, w: nat, start: nat,
                  i: nat, ghost pieces: seq<bytes>, ghost done: seq<bytes>)
      returns (w1: nat, start1: nat, ghost done1: seq<bytes>)
    requires Applied(s, target, repl, pieces, t[..], w, start, done) && i == |done| < |pieces| - 1
    modifies t
    ensures Applied(s, target, repl, pieces, t[..], w1, start1, done1) && |done1| == i + 1
  {
    hide *;
    ApplyRoom(s, target, repl, pieces, t[..], w, start, done);
    var j := NextStart(mc, s, target, start, i);
    ghost var was := t[..];
    w1 := CopyTwo(t, w, s[start..j], repl);
    start1 := j + |target|;
    done1 := done + [s[start..j]];
    ApplyStep(s, target, repl, pieces, was, w, start, done, t[..]);
  }

  lemma ApplyRoom(s: bytes, target: bytes, repl: bytes, pieces: seq<bytes>, t: bytes, w: nat, start: nat,
      done: seq<bytes>)
    requires Applied(s, target, repl, pieces, t, w, start, done) && |done| < |pieces| - 1
    ensures start <= |s| && w <= |t|
    ensures var m := NextCut(s[start..], target, |done| == 0);
      m >= 0 && start + m + |target| <= |s| && w + m + |repl| <= |t|
  {
    var rest := s[start..];
    var m := NextCut(rest, target, |done| == 0);
    ResumeStep(pieces, done, rest, target, |done| == 0, |pieces| - 1 - |done|);
    EachStep(pieces, done + [rest[..m]], repl);
    assert (done + [rest[..m]])[..|done|] == done;
  }

  lemma ApplyStep(s: bytes, target: bytes, repl: bytes, pieces: seq<bytes>, t: bytes, w: nat, start: nat,
                  done: seq<bytes>, t1: bytes)
    requires Applied(s, target, repl, pieces, t, w, start, done) && |done| < |pieces| - 1
    requires var m := NextCut(s[start..], target, |done| == 0);
      m >= 0 && start + m + |target| <= |s| && w + m + |repl| <= |t| == |t1| &&
      t1[..w + m + |repl|] == t[..w] + s[start..start + m] + repl
    ensures var m := NextCut(s[start..], target, |done| == 0);
      Applied(s, target, repl, pieces, t1, w + m + |repl|, start + m + |target|, done + [s[start..start + m]])
  {
    hide Resumes, Each, Join, NextCut, Cut, Cuts;
    var (rest, m) := (s[start..], NextCut(s[start..], target, |done| == 0));
    var p := s[start..start + m];
    assert t1[..w + m + |repl|] == Each(done + [p], repl) by { EachAppend(done, p, repl); }
    assert Resumes(pieces, done + [p], s[start + m + |target|..], target, false, |pieces| - 2 - |done|) by {
      ResumeStep(pieces, done, rest, target, |done| == 0, |pieces| - 1 - |done|);
      Slices(s, start, start + m, |target|);
    }
    assert |done| + 1 < |pieces|;
  }

  method ApplyLast(s: bytes, target: bytes, repl: bytes, t: array<byte>, w: nat, start: nat,
                   ghost pieces: seq<bytes>, ghost done: seq<bytes>) returns (r: bytes)
    requires Applied(s, target, repl, pieces, t[..], w, start, done) && |done| == |pieces| - 1
    modifies t
    ensures r == Join(pieces, repl)
  {
    ResumeEnd(pieces, done, s[start..], target, |done| == 0, 0);
    EachAppend(done, s[start..], repl);
    hide Each, Resumes, Join, Cut;
    var w1 := CopyAt(t, w, s[start..]);
    assert w1 == t.Length;
    return t[..w1];
  }

  lemma Slices(s: bytes, start: nat, j: nat, n: nat)
    requires start <= j && j + n <= |s|
    ensures s[start..][..j - start] == s[start..j] && s[start..][j - start + n..] == s[j + n..]
  {
  }

  /** Putting one more piece and a separator leaves room for what is still to come. */
  lemma EachStep(pieces: seq<bytes>, done: seq<bytes>, sep: bytes)
    requires 0 < |done| < |pieces| && done <= pieces
    ensures var (front, p) := (done[..|done| - 1], done[|done| - 1]);
      Each(done, sep) == Each(front, sep) + p + sep &&
      |Each(front, sep)| + |p| + |sep| <= |Join(pieces, sep)|
  {
    EachPrefix(pieces, |done| - 1, sep);
    assert done[..|done| - 1] == pieces[..|done| - 1];
  }

  /** Where the i-th old text starts. */
  method NextStart(mc: Search.Machine, s: bytes, target: bytes, start: nat, i: nat) returns (j: int)
    requires start <= |s|
    ensures j == start + NextCut(s[start..], target, i == 0) || NextCut(s[start..], target, i == 0) < 0
  {
    j := start;
    if |target| == 0 {
      if i > 0 {
        j := j + Width(s[start..]);
      }
    } else {
      var o := Search.Index(mc, s[start..], target);
      j := j + o;
    }
  }

  lemma ReplacedLength(s: bytes, target: bytes, repl: bytes, k: nat)
    requires k <= Cuts(s, target, true)
    ensures |Cut(s, target, true, k)| == k + 1
    ensures |s| + k * (|repl| - |target|) == |Join(Cut(s, target, true, k), repl)|
  {
    var pieces := Cut(s, target, true, k);
    CutLength(s, target, true, k);
    JoinCut(s, target, true, k);
    hide Cut, Cuts, Join, Each;
    JoinLength(pieces, target);
    JoinLength(pieces, repl);
  }

  /** For a non-empty old text, replacing is splitting and joining with the new one. */
  lemma ReplaceIsJoinOfPieces(s: bytes, target: bytes, repl: bytes, n: int)
    requires target != []
    ensures Join(Cut(s, target, true, Replacements(s, target, n)), repl)
         == Join(Pieces(s, target, if n < 0 then -1 else n + 1), repl)
  {
    FirstIrrelevant(s, target, Replacements(s, target, n));
    if n > Cuts(s, target, false) {
      CutEnough(s, target, false, n);
    }
    hide Cut, Cuts, Join;
  }
}
