/** fmt/scan.go: readRune, which reads UTF-8 from a plain reader and keeps what a bad rune leaves over. */
module RuneReader {
  import opened Bytes
  import opened Source
  import opened Utf8

  /** utf8.RuneLen */
  function RuneLen(r: int): int {
    if r < 0 then -1
    else if r <= 0x7F then 1
    else if r <= 0x7FF then 2
    else if 0xD800 <= r <= 0xDFFF then -1
    else if r <= 0xFFFF then 3
    else if r <= MAX_RUNE then 4
    else -1
  }

  /** All but the last byte continue a rune, so that each is decoded alone before the next is read. */
  predicate AloneButLast(p: bytes) {
    forall i | 0 <= i < |p| - 1 :: Continuation(p[i])
  }

  /** A bad rune is bad in its first byte only, and what it leaves over is decoded byte by byte. */
  lemma Leftover(p: bytes)
    requires 1 <= |p| <= UTF_MAX
    requires forall m | 1 <= m < |p| :: !FullRune(p[..m])
    requires DecodeRune(p).1 < |p|
    ensures DecodeRune(p).1 == 1 && AloneButLast(p[1..])
  {
    assert !FullRune(p[..|p| - 1]) && p[..|p| - 1][0] == p[0];
    forall i | 0 <= i < |p| - 2 ensures Continuation(p[1..][i]) {
      assert !FullRune(p[..i + 2]) && !FullRune(p[..1]) && p[1..][i] == p[i + 1];
      assert p[..i + 2][0] == p[0] && p[..i + 2][1] == p[1] && p[..i + 2][i + 1] == p[i + 1];
    }
  }

  class ReadRune {
    const reader: ByteSource
    const buf: array<byte>
    var pending: int
    const pendBuf: array<byte>
    var peekRune: int

    ghost predicate Valid()
      reads this, reader, buf, pendBuf
    {
      && reader.Valid()
      && buf.Length == pendBuf.Length == UTF_MAX && buf != pendBuf
      && 0 <= pending < UTF_MAX
      && AloneButLast(pendBuf[..pending])
      && -MAX_RUNE - 1 <= peekRune <= MAX_RUNE
    }

    /** The bytes not yet decoded, in the order of the stream. */
    ghost function Left(): bytes
      reads this, reader, pendBuf
      requires 0 <= pending <= pendBuf.Length
    {
      pendBuf[..pending] + reader.rest
    }

    /** The runes still to come. */
    ghost function Upcoming(): seq<int>
      reads this, reader, pendBuf
      requires 0 <= pending <= pendBuf.Length
    {
      (if peekRune >= 0 then [peekRune] else []) + Runes(Left(), reader.fin == EOF)
    }

    constructor (reader: ByteSource)
      requires reader.Valid()
      ensures Valid() && fresh(buf) && fresh(pendBuf) && this.reader == reader
      ensures Upcoming() == Runes(reader.rest, reader.fin == EOF) && Left() == reader.rest && peekRune == -1
    {
      this.reader := reader;
      buf := new byte[UTF_MAX];
      pendBuf := new byte[UTF_MAX];
      pending := 0;
      peekRune := -1;
      new;
      assert Left() == reader.rest;
    }

    /** readByte: the next byte, first of those left over. */
    method ReadByte() returns (b: byte, err: Option<Error>)
      requires Valid()
      modifies this`pending, reader`rest, pendBuf
      ensures Valid()
      ensures if old(Left()) == [] then err == Some(reader.fin) && Left() == []
        else err == None && old(Left()) == [b] + Left()
      ensures pending == if old(pending) > 0 then old(pending) - 1 else 0
      ensures old(pending) > 1 ==> Continuation(b)
    {
      if pending > 0 {
        b := pendBuf[0];
        ghost var was := pendBuf[..pending];
        forall i | 0 <= i < pendBuf.Length - 1 {
          pendBuf[i] := pendBuf[i + 1];
        }
        pending := pending - 1;
        assert was == [b] + pendBuf[..pending];
        assert forall i | 0 <= i < pending :: pendBuf[i] == was[i + 1];
        return b, None;
      }
      err := reader.ReadFullOne(pendBuf, 0);
      return if err == None then pendBuf[0] else 0, err;
    }

    /** The bytes of buf hold one rune: read on until they do, or the stream ends. */
    method Gather() returns (n: nat, err: Option<Error>)
      requires Valid() && (pending > 0 ==> Announced(buf[0]) == 1)
      modifies this`pending, reader`rest, pendBuf, buf
      ensures Valid() && 1 <= n <= UTF_MAX
      ensures forall m | 1 <= m < n :: !FullRune(buf[..m])
      ensures n > 1 ==> pending == 0
      ensures err.Some? ==> err.value == reader.fin != EOF && Left() == [] && !FullRune(buf[..n])
      ensures err.None? ==> FullRune(buf[..n]) || (reader.fin == EOF && Left() == [])
      ensures buf[..n] + Left() == [old(buf[0])] + old(Left())
      ensures old(pending) > 0 ==> pending == old(pending)
    {
      n := 1;
      assert buf[..1] == [buf[0]];
      err := None;
      while !FullRune(buf[..n])
        invariant Valid() && 1 <= n <= UTF_MAX && (pending > 0 ==> n == 1 && FullRune(buf[..n]))
        invariant old(pending) > 0 ==> pending == old(pending)
        invariant forall m | 1 <= m < n :: !FullRune(buf[..m])
        invariant buf[..n] + Left() == [old(buf[0])] + old(Left())
        decreases UTF_MAX - n
      {
        var b, e := ReadByte();
        if e.Some? {
          if e.value != EOF {
            err := e;
          }
          return;
        }
        ghost var was := buf[..n];
        buf[n] := b;
        n := n + 1;
        assert buf[..n] == was + [b];
        forall m | 1 <= m < n ensures !FullRune(buf[..m]) {
          assert buf[..m] == was[..m];
        }
      }
    }

    method Next() returns (rr: int, size: nat, err: Option<Error>)
      requires Valid() && -MAX_RUNE - 1 <= peekRune < 0
      modifies this, reader`rest, pendBuf, buf
      ensures Valid()
      ensures var s := old(Left()); var whole := reader.fin == EOF;
        match err {
          case None => s != [] && (whole || FullRune(s)) && (rr, size) == DecodeRune(s) && Left() == s[size..]
                       && peekRune == -rr - 1
          case Some(e) => e == reader.fin && Left() == [] && Runes(s, whole) == [] && peekRune == old(peekRune)
        }
    {
      ghost var s := Left();
      var b, e := ReadByte();
      if e.Some? {
        return 0, 0, e;
      }
      buf[0] := b;
      if b < RUNE_SELF { // one byte is the rune
        rr, size, err := b, 1, None;
        // negative: read, but UnreadRune can have it back
        peekRune := -rr - 1;
        return;
      }
      var n, e1 := Gather();
      if e1.Some? {
        assert s == buf[..n];
        return 0, 0, e1;
      }
      rr, size := Decode(n);
      err := None;
      // negative: read, but UnreadRune can have it back
      peekRune := -rr - 1;
    }

    /** Decode what was gathered, and save what it does not use. */
    method Decode(n: nat) returns (rr: int, size: nat)
      requires Valid() && 1 <= n <= UTF_MAX && (n > 1 ==> pending == 0)
      requires forall m | 1 <= m < n :: !FullRune(buf[..m])
      requires FullRune(buf[..n]) || Left() == []
      modifies this`pending, pendBuf
      ensures Valid()
      ensures var s := old(buf[..n] + Left()); (rr, size) == DecodeRune(s) && Left() == s[size..]
    {
      ghost var (p, rest) := (buf[..n], Left());
      rr, size := DecodeRune(buf[..n]).0, DecodeRune(buf[..n]).1;
      if FullRune(buf[..n]) {
        FullRuneDecodes(p, rest);
      } else {
        assert p + rest == p;
      }
      assert forall m | 1 <= m < n :: p[..m] == buf[..m];
      if size < n { // only a bad byte leaves some over
        Leftover(p);
        hide *;
        Save(size, n);
        assert p[size..] == buf[size..n] && (p + rest)[size..] == p[size..] + rest;
      } else {
        hide *;
        assert (p + rest)[size..] == rest;
      }
    }

    /** copy(r.pendBuf[r.pending:], r.buf[size:n]): nothing is pending, so the queue keeps its order. */
    method Save(size: nat, n: nat)
      requires Valid() && pending == 0 && 1 <= size < n <= UTF_MAX && AloneButLast(buf[size..n])
      modifies this`pending, pendBuf
      ensures Valid() && Left() == old(buf[size..n]) + old(Left())
    {
      assert Left() == reader.rest;
      ghost var saved := buf[size..n];
      forall i | 0 <= i < n - size {
        pendBuf[i] := buf[size + i];
      }
      pending := n - size;
      assert forall i | 0 <= i < pending :: pendBuf[i] == saved[i];
      assert pendBuf[..pending] == saved;
    }

    /** ReadRune */
    method Read() returns (rr: int, size: int, err: Option<Error>)
      requires Valid()
      modifies this, reader`rest, pendBuf, buf
      ensures Valid()
      ensures err.None? ==> old(Upcoming()) == [rr] + Upcoming() && peekRune == -rr - 1
      ensures err.None? ==> size == if old(peekRune) >= 0 then RuneLen(rr) else DecodeRune(old(Left())).1
      ensures err.Some? ==> old(Upcoming()) == Upcoming() == [] && Left() == [] && err.value == reader.fin
    {
      if peekRune >= 0 {
        rr := peekRune;
        peekRune := -peekRune - 1;
        size := RuneLen(rr);
        return rr, size, None;
      }
      rr, size, err := Next();
    }

    /** UnreadRune */
    method UnreadRune() returns (ok: bool)
      requires Valid()
      modifies this`peekRune
      ensures Valid() && Left() == old(Left())
      ensures ok == (old(peekRune) < 0)
      ensures Upcoming() == if ok then [-old(peekRune) - 1] + old(Upcoming()) else old(Upcoming())
    {
      if peekRune >= 0 {
        return false;
      }
      // not negative again: still to be read
      peekRune := -peekRune - 1;
      return true;
    }
  }

  /** Reading to the end gives the runes of the whole stream, decoded at once. */
  method ReadAll(r: ReadRune) returns (runes: seq<int>, err: Error)
    requires r.Valid()
    modifies r, r.reader`rest, r.pendBuf, r.buf
    ensures runes == old(r.Upcoming()) && err == r.reader.fin
  {
    runes := [];
    while true
      invariant r.Valid() && runes + r.Upcoming() == old(r.Upcoming())
      decreases |r.Upcoming()|
    {
      var rr, _, e := r.Read();
      if e.Some? {
        return runes, e.value;
      }
      runes := runes + [rr];
    }
  }

  lemma FirstRune(s: bytes, whole: bool)
    requires s != [] && (whole || FullRune(s))
    ensures Runes(s, whole) != [] && Runes(s, whole)[0] == DecodeRune(s).0
  {
  }

  /** A bad byte has size 1 when it is read first, and 3, the length of U+FFFD, when it is read again. */
  method RereadBadByte(r: ReadRune) returns (first: int, again: int)
    requires r.Valid() && r.peekRune < 0 && r.Left() != []
    requires DecodeRune(r.Left()) == (RUNE_ERROR, 1) && (r.reader.fin == EOF || FullRune(r.Left()))
    modifies r, r.reader`rest, r.pendBuf, r.buf
    ensures r.Valid() && first == 1 && again == 3 && old(r.Upcoming()) == [RUNE_ERROR] + r.Upcoming()
  {
    hide Runes, DecodeRune, FullRune;
    ghost var upcoming := r.Upcoming();
    FirstRune(r.Left(), r.reader.fin == EOF);
    assert upcoming == Runes(r.Left(), r.reader.fin == EOF);
    var rune, e;
    rune, first, e := r.Read();
    assert e == None && rune == RUNE_ERROR;
    var ok := r.UnreadRune();
    assert ok && r.Upcoming() == upcoming;
    rune, again, e := r.Read();
  }

  /** On a new reader there is no rune to take back, and yet UnreadRune succeeds: U+0000 comes first. */
  method UnreadBeforeRead(reader: ByteSource) returns (r: ReadRune, ok: bool)
    requires reader.Valid()
    ensures fresh(r) && ok && r.Valid() && r.Upcoming() == [0] + Runes(reader.rest, reader.fin == EOF)
  {
    r := new ReadRune(reader);
    ok := r.UnreadRune();
  }
}
