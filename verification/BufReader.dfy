/** bufio/bufio.go: the buffered Reader. */
module BufReader {
  import opened Bytes
  import opened Source

  const MIN_READ_BUFFER_SIZE := 16
  const MAX_CONSECUTIVE_EMPTY_READS := 100

  /** s ends with c, for the first time. */
  predicate EndsFirst(s: bytes, c: byte) {
    s != [] && s[|s| - 1] == c && c !in s[..|s| - 1]
  }

  /** The first line of a text, without "\n" or "\r\n"; a last line without "\n" is kept whole. */
  function Line(s: bytes): bytes {
    var i := IndexByte(s, NL);
    if i < 0 then s
    else if i > 0 && s[i - 1] == CR then s[..i - 1]
    else s[..i]
  }

  predicate LineEnd(s: bytes) {
    s == [] || s == [NL] || s == [CR, NL]
  }

  /** What follows the first line. */
  function AfterLine(s: bytes): bytes {
    var i := IndexByte(s, NL);
    if i < 0 then [] else s[i + 1..]
  }

  /** The slice through the first c ends with its only c. */
  lemma SliceEndsFirst(s: bytes, c: byte)
    requires IndexByte(s, c) >= 0
    ensures EndsFirst(s[..IndexByte(s, c) + 1], c)
  {
    var i := IndexByte(s, c);
    assert s[..i + 1][..i] == s[..i];
  }

  /** A fragment that cannot end inside a line end extends the line by itself. */
  lemma LineOfFragment(line: bytes, rest: bytes)
    requires NL !in line
    requires line != [] && line[|line| - 1] == CR ==> rest == [] || rest[0] != NL
    ensures Line(line + rest) == line + Line(rest)
    ensures AfterLine(line + rest) == AfterLine(rest)
  {
    hide *;
    IndexBehind(line, rest);
    LineBehind(line, rest);
    AfterBehind(line, rest);
  }

  lemma AfterBehind(line: bytes, rest: bytes)
    requires var i := IndexByte(rest, NL); IndexByte(line + rest, NL) == if i < 0 then -1 else |line| + i
    ensures AfterLine(line + rest) == AfterLine(rest)
  {
    hide IndexByte;
    if IndexByte(rest, NL) >= 0 {
      SliceBehind(line, rest, IndexByte(rest, NL));
    }
  }

  lemma LineBehind(line: bytes, rest: bytes)
    requires line != [] && line[|line| - 1] == CR ==> rest == [] || rest[0] != NL
    requires var i := IndexByte(rest, NL); IndexByte(line + rest, NL) == if i < 0 then -1 else |line| + i
    ensures Line(line + rest) == line + Line(rest)
  {
    var i := IndexByte(rest, NL);
    assert i == 0 ==> rest[0] == NL;
    if i >= 0 {
      SliceBehind(line, rest, i);
      SliceBehind(line, rest, i - 1);
      LastBehind(line, rest, i);
    }
    hide IndexByte;
  }

  lemma LastBehind(line: bytes, rest: bytes, i: nat)
    requires i < |rest|
    ensures var s := line + rest;
      (i > 0 ==> s[|line| + i - 1] == rest[i - 1]) && (i == 0 && line != [] ==> s[|line| - 1] == line[|line| - 1])
  {
  }

  /** Slices of rest seen from a longer text. */
  lemma SliceBehind(line: bytes, rest: bytes, i: int)
    requires -1 <= i < |rest|
    ensures i >= 0 ==> (line + rest)[..|line| + i] == line + rest[..i]
    ensures (line + rest)[|line| + i + 1..] == rest[i + 1..]
  {
  }

  lemma IndexBehind(line: bytes, rest: bytes)
    requires NL !in line
    ensures var i := IndexByte(rest, NL);
      IndexByte(line + rest, NL) == if i < 0 then -1 else |line| + i
  {
    var i := IndexByte(rest, NL);
    if i < 0 {
      IndexByteAbsent(line + rest, NL);
    } else {
      assert forall k | 0 <= k < |line| + i :: (line + rest)[k] != NL;
      IndexByteUnique(line + rest, NL, |line| + i);
    }
  }

  lemma LineOfWhole(line: bytes, rest: bytes)
    requires EndsFirst(line, NL)
    ensures
      var n := |line| - 1;
      && Line(line + rest) == (if n > 0 && line[n - 1] == CR then line[..n - 1] else line[..n])
      && AfterLine(line + rest) == rest
  {
    var s := line + rest;
    assert s[..|line| - 1] == line[..|line| - 1];
    IndexByteUnique(s, NL, |line| - 1);
  }

  /** A line without its end. */
  function StripEnd(line: bytes): (short: bytes)
    ensures |short| <= |line| && LineEnd(line[|short|..]) && line == short + line[|short|..]
    ensures line[|short|..] == [] <==> line == [] || line[|line| - 1] != NL
  {
    if line == [] || line[|line| - 1] != NL then line
    else if |line| > 1 && line[|line| - 2] == CR then line[..|line| - 2]
    else line[..|line| - 1]
  }

  /** A slice up to a line end, or up to the end of the text, holds one line. */
  lemma LineOfSlice(line: bytes, rest: bytes, whole: bool)
    requires line != [] && if whole then EndsFirst(line, NL) else NL !in line
    ensures whole || rest == [] ==>
      StripEnd(line) == Line(line + rest) && rest == AfterLine(line + rest)
    ensures exists end :: LineEnd(end) && line + rest == StripEnd(line) + end + rest && |StripEnd(line) + end| > 0
  {
    var end := line[|StripEnd(line)|..];
    assert LineEnd(end) && line == StripEnd(line) + end;
    if whole {
      LineOfWhole(line, rest);
    } else {
      LineOfLast(line);
      assert rest == [] ==> line + rest == line;
    }
  }

  lemma LineOfLast(line: bytes)
    requires NL !in line
    ensures Line(line) == line && AfterLine(line) == []
  {
    IndexByteAbsent(line, NL);
  }

  /** Taking k buffered bytes off a stream. */
  lemma TakeBuffered(a: bytes, rest: bytes, r: nat, w: nat, k: nat)
    requires r + k <= w <= |a|
    ensures a[r..w] + rest == a[r..r + k] + (a[r + k..w] + rest)
  {
    assert a[r..w] == a[r..r + k] + a[r + k..w];
  }

  /** Reading n bytes behind the buffered ones only moves the border. */
  lemma ChunkAppended(a: bytes, b: bytes, rest: bytes, w: nat, n: nat)
    requires w + n <= |a| == |b| && n <= |rest| && b[..w] == a[..w] && b[w..w + n] == rest[..n]
    ensures b[0..w + n] + rest[n..] == a[0..w] + rest
  {
    assert b[0..w + n] == b[..w] + b[w..w + n];
    assert rest == rest[..n] + rest[n..];
  }

  lemma DropPrefix(s: bytes, gone: bytes, left: bytes)
    requires s == gone + left
    ensures |gone| <= |s| && s[..|gone|] == gone && s[|gone|..] == left
  {
  }

  lemma ConcatAssoc(a: bytes, b: bytes, c: bytes)
    ensures a + (b + c) == (a + b) + c
  {
  }

  class Reader {
    const buf: array<byte>
    const rd: ByteSource
    var r: nat
    var w: nat
    var err: Option<Error>
    var lastByte: int
    ghost var stalled: bool // some fill gave up after too many empty reads

    ghost predicate Valid()
      reads this, buf, rd
    {
      && rd.Valid()
      && buf.Length >= MIN_READ_BUFFER_SIZE
      && r <= w <= buf.Length
      && -1 <= lastByte < 256
      && (err.Some? ==> (err.value == rd.fin && rd.rest == []) || (err.value == ErrNoProgress && stalled))
    }

    /** What is still to be read: the buffered bytes, then the source's. */
    ghost function Stream(): bytes
      reads this, buf, rd
      requires r <= w <= buf.Length
    {
      buf[r..w] + rd.rest
    }

    constructor (rd: ByteSource, size: int)
      requires rd.Valid()
      ensures Valid() && fresh(buf) && this.rd == rd && Stream() == rd.rest && !stalled
      ensures buf.Length == if size < MIN_READ_BUFFER_SIZE then MIN_READ_BUFFER_SIZE else size
    {
      buf := new byte[if size < MIN_READ_BUFFER_SIZE then MIN_READ_BUFFER_SIZE else size];
      this.rd := rd;
      r, w, err, lastByte, stalled := 0, 0, None, -1, false;
    }

    function Buffered(): int
      reads this
    {
      w - r
    }

    /** b.r += k: the next k buffered bytes leave the stream. */
    method Advance(k: nat) returns (ghost taken: bytes)
      requires Valid() && k <= w - r
      modifies this`r
      ensures Valid() && r == old(r) + k
      ensures |taken| == k && taken == buf[old(r)..r]
      ensures old(Stream()) == taken + Stream()
    {
      TakeBuffered(buf[..], rd.rest, r, w, k);
      taken := buf[r..r + k];
      r := r + k;
    }

    /** What is still buffered moves to the front. */
    method Slide()
      requires Valid()
      modifies this`r, this`w, buf
      ensures Valid() && Stream() == old(Stream())
      ensures r == 0 && w == old(w - r)
    {
      if r > 0 {
        forall i | 0 <= i < w - r {
          buf[i] := buf[r + i];
        }
        assert buf[..w - r] == old(buf[r..w]);
        w := w - r;
        r := 0;
      }
    }

    /** b.rd.Read(b.buf[b.w:]), and b.w += n. */
    method ReadChunk() returns (n: nat, e: Option<Error>)
      requires Valid() && r == 0
      modifies this`w, buf, rd`rest
      ensures r <= w <= buf.Length && w == old(w) + n && Stream() == old(Stream())
      ensures e.Some? ==> e.value == rd.fin && rd.rest == []
      ensures n == 0 ==> rd.rest == old(rd.rest)
      ensures old(rd.rest) == [] ==> rd.rest == []
    {
      ghost var a := buf[..];
      n, e := rd.Read(buf, w, buf.Length);
      ChunkAppended(a, buf[..], old(rd.rest), w, n);
      w := w + n;
    }

    /** fill: slide, then read a chunk; the stream is unchanged, and the buffer grew or err is set. */
    method Fill()
      requires Valid() && w - r < buf.Length
      modifies this`r, this`w, this`err, this`stalled, buf, rd`rest
      ensures Valid() && Stream() == old(Stream())
      ensures r == 0 && w >= old(w - r)
      ensures w > old(w - r) || err.Some?
      ensures err == old(err) || err.Some?
      ensures old(stalled) ==> stalled
    {
      Slide();
      // A source that keeps giving nothing is given up.
      var i := MAX_CONSECUTIVE_EMPTY_READS;
      while i > 0
        invariant Valid() && r == 0 && w == old(w - r) && Stream() == old(Stream())
        invariant err == old(err) && stalled == old(stalled)
      {
        var n, e := ReadChunk();
        if e.Some? {
          err := e;
          return;
        }
        if n > 0 {
          return;
        }
        i := i - 1;
      }
      stalled := true;
      err := Some(ErrNoProgress);
    }

    method ReadErr() returns (e: Option<Error>)
      requires Valid()
      modifies this`err
      ensures Valid() && Stream() == old(Stream()) && e == old(err) && err == None
    {
      e := err;
      err := None;
    }

    /** Peek: what the next n bytes are, left where they are; fewer only with an error that says why. */
    method Peek(n: int) returns (p: bytes, e: Option<Error>)
      requires Valid()
      modifies this`r, this`w, this`err, this`stalled, buf, rd`rest
      ensures Valid() && Stream() == old(Stream()) && p <= Stream()
      ensures n < 0 <==> e == Some(ErrNegativeCount)
      ensures e == None ==> |p| == n
      ensures n >= 0 && e.Some? ==> |p| < n
      ensures n > buf.Length ==> e == Some(ErrBufferFull)
      ensures e == Some(rd.fin) ==> p == Stream()
      ensures e.Some? && e.value == ErrBufferFull ==> n > buf.Length
      ensures e == Some(ErrNoProgress) ==> stalled
      ensures old(stalled) ==> stalled
    {
      if n < 0 {
        return [], Some(ErrNegativeCount);
      }
      while w - r < n && w - r < buf.Length && err == None
        invariant Valid() && Stream() == old(Stream()) && (old(stalled) ==> stalled)
        decreases err == None, buf.Length - (w - r)
      {
        Fill();
      }
      if n > buf.Length {
        return buf[r..w], Some(ErrBufferFull);
      }
      var k := n;
      e := None;
      if w - r < n {
        k := w - r;
        e := ReadErr();
        if e == None {
          e := Some(ErrBufferFull);
        }
      }
      p := buf[r..r + k];
    }

    /** Skip what is buffered, after a fill if that is nothing, but no more than remain bytes. */
    method SkipSome(remain: nat) returns (skip: int)
      requires Valid() && remain > 0
      modifies this`r, this`w, this`err, this`stalled, buf, rd`rest
      ensures Valid() && (old(stalled) ==> stalled)
      ensures 0 <= skip <= remain && LeftOf(old(Stream()), skip, Stream())
      ensures remain <= old(Buffered()) ==> skip == remain && rd.rest == old(rd.rest)
      ensures if skip == 0 then err.Some? else r > 0
      ensures skip < remain ==> Stream() == rd.rest
    {
      skip := Buffered();
      if skip == 0 {
        Fill();
        skip := Buffered();
      }
      if skip > remain {
        skip := remain;
      }
      ghost var left := Stream();
      ghost var taken := Advance(skip);
      DropPrefix(left, taken, Stream());
      assert r == w ==> Stream() == rd.rest;
    }

    /** Discard: skip n bytes; fewer only at an error. */
    method Discard(n: int) returns (discarded: nat, e: Option<Error>)
      requires Valid()
      modifies this`r, this`w, this`err, this`stalled, buf, rd`rest
      ensures Valid()
      ensures n < 0 ==> e == Some(ErrNegativeCount) && discarded == 0
      ensures n >= 0 ==> discarded <= n && (e == None <==> discarded == n)
      ensures LeftOf(old(Stream()), discarded, Stream())
      ensures n >= 0 && e == Some(rd.fin) ==> Stream() == []
      ensures e == Some(ErrNoProgress) ==> stalled
      ensures n >= 0 && e.Some? ==> e.value == rd.fin || e.value == ErrNoProgress
      ensures old(stalled) ==> stalled
      ensures 0 <= n <= old(Buffered()) ==> e == None && rd.rest == old(rd.rest)
      ensures n > 0 && e == None ==> r > 0
    {
      hide LeftOf, Stream;
      LeftAtOnce(Stream());
      if n < 0 {
        return 0, Some(ErrNegativeCount);
      }
      if n == 0 {
        return 0, None;
      }
      var remain := n;
      while true
        invariant Valid() && 0 < remain <= n && (old(stalled) ==> stalled)
        invariant LeftOf(old(Stream()), n - remain, Stream())
        invariant n <= old(Buffered()) ==> remain == n && Buffered() == old(Buffered()) && rd.rest == old(rd.rest)
        decreases remain
      {
        ghost var left := Stream();
        var skip := SkipSome(remain);
        LeftTwice(old(Stream()), n - remain, left, skip, Stream());
        remain := remain - skip;
        if remain == 0 {
          return n, None;
        }
        if err.Some? {
          e := ReadErr();
          return n - remain, e;
        }
      }
    }

    /** Read: some of the next bytes, from at most one read of the source. */
    method Read(p: array<byte>) returns (n: nat, e: Option<Error>)
      requires Valid() && p != buf
      modifies this`r, this`w, this`err, this`lastByte, p, buf, rd`rest
      ensures Valid()
      ensures n <= p.Length && n <= |old(Stream())|
      ensures p[..n] == old(Stream())[..n] && Stream() == old(Stream())[n..]
      ensures p.Length > 0 && e == Some(rd.fin) ==> Stream() == []
      ensures e.Some? ==> e.value == rd.fin || stalled
      ensures lastByte == if n > 0 then p[n - 1] as int else old(lastByte)
      ensures p.Length == 0 ==> e == old(err) && err == None && Stream() == old(Stream())
    {
      if p.Length == 0 {
        e := ReadErr();
        return 0, e;
      }
      if r == w {
        assert Stream() == rd.rest;
        if err.Some? {
          e := ReadErr();
          return 0, e;
        }
        if p.Length >= buf.Length {
          n, e := ReadDirect(p);
          return;
        }
        n := ReadOnce();
        if n == 0 {
          e := ReadErr();
          return 0, e;
        }
      }
      n := CopyOut(p);
      e := None;
    }

    /** With an empty buffer and no error pending, one read into the whole buffer. */
    method ReadOnce() returns (n: nat)
      requires Valid() && r == w && err == None
      modifies this`r, this`w, this`err, buf, rd`rest
      ensures Valid() && Stream() == old(Stream())
      ensures err.Some? ==> err.value == rd.fin
      ensures n == w - r && (n == 0 && err.Some? ==> Stream() == [])
    {
      assert Stream() == rd.rest;
      r := 0;
      w := 0;
      n, err := ReadChunk();
    }

    /** With an empty buffer, a read of at least its size bypasses it. */
    method ReadDirect(p: array<byte>) returns (n: nat, e: Option<Error>)
      requires Valid() && p != buf && r == w && p.Length > 0 && err == None
      modifies this`lastByte, p, rd`rest
      ensures Valid() && n <= p.Length && n <= |old(Stream())|
      ensures p[..n] == old(Stream())[..n] && Stream() == old(Stream())[n..]
      ensures e.Some? ==> e.value == rd.fin && Stream() == []
      ensures lastByte == if n > 0 then p[n - 1] as int else old(lastByte)
    {
      assert Stream() == rd.rest;
      n, e := rd.Read(p, 0, p.Length);
      assert Stream() == rd.rest;
      if n > 0 {
        lastByte := p[n - 1];
      }
    }

    /** As much of the buffered bytes as p has room for. */
    method CopyOut(p: array<byte>) returns (n: nat)
      requires Valid() && p != buf && r < w && p.Length > 0
      modifies this`r, this`lastByte, p
      ensures Valid()
      ensures n <= p.Length && n <= |old(Stream())|
      ensures p[..n] == old(Stream())[..n] && Stream() == old(Stream())[n..]
      ensures n > 0 && lastByte == p[n - 1]
    {
      n := if p.Length <= w - r then p.Length else w - r;
      forall i | 0 <= i < n {
        p[i] := buf[r + i];
      }
      assert forall i | 0 <= i < n :: p[i] == buf[r + i];
      assert p[..n] == buf[r..r + n];
      ghost var taken := Advance(n);
      DropPrefix(old(Stream()), taken, Stream());
      lastByte := buf[r - 1];
    }

    method ReadByte() returns (c: byte, e: Option<Error>)
      requires Valid()
      modifies this`r, this`w, this`err, this`lastByte, this`stalled, buf, rd`rest
      ensures Valid()
      ensures e == None ==> old(Stream()) == [c] + Stream() && lastByte == c && r > 0
      ensures e.Some? ==> Stream() == old(Stream())
      ensures e == Some(rd.fin) ==> Stream() == []
      ensures e.Some? ==> e.value == rd.fin || stalled
      ensures old(stalled) ==> stalled
    {
      while r == w
        invariant Valid() && Stream() == old(Stream()) && (old(stalled) ==> stalled)
        decreases err == None, r == w
      {
        if err.Some? {
          e := ReadErr();
          return 0, e;
        }
        Fill();
      }
      c := buf[r];
      ghost var taken := Advance(1);
      assert taken == [c];
      lastByte := c;
      e := None;
    }

    /** Puts lastByte back; after ReadByte that undoes it. */
    method UnreadByte() returns (e: Option<Error>)
      requires Valid()
      modifies this`r, this`w, this`lastByte, buf
      ensures Valid()
      ensures e.Some? <==> old(lastByte) < 0 || (old(r) == 0 && old(w) > 0)
      ensures e.Some? ==> Stream() == old(Stream())
      ensures e == None ==> Stream() == [old(lastByte)] + old(Stream())
    {
      if lastByte < 0 || (r == 0 && w > 0) {
        return Some(ErrInvalidUnreadByte);
      }
      ghost var before := buf[r..w];
      if r > 0 {
        r := r - 1;
      } else {
        w := 1;
      }
      buf[r] := lastByte;
      assert buf[r..w] == [lastByte] + before;
      lastByte := -1;
      e := None;
    }

    /** Take buffered bytes as a line. */
    method TakeLine(n: nat) returns (line: bytes)
      requires Valid() && n <= w - r
      modifies this`r
      ensures Valid() && r == old(r) + n && line == old(buf[r..w])[..n] && old(Stream()) == line + Stream()
    {
      line := buf[r..r + n];
      assert buf[r..w][..n] == line;
      ghost var taken := Advance(n);
    }

    /** The ways a slice can end: with delim, at an error, or with a full buffer. */
    ghost predicate SliceEnds(line: bytes, delim: byte, e: Option<Error>)
      reads this, buf, rd
    {
      && Valid()
      && (e == None ==> EndsFirst(line, delim))
      && (e.Some? ==> delim !in line)
      && (e.Some? && e.value != ErrBufferFull ==>
           (e.value == rd.fin && Stream() == []) || (e.value == ErrNoProgress && stalled))
      && (e == Some(ErrBufferFull) ==> r == w == |line| == buf.Length && line == buf[..])
    }

    /** One search of the buffer: whether the slice ends here. */
    method TrySlice(delim: byte) returns (hit: bool, line: bytes, e: Option<Error>)
      requires Valid()
      modifies this`r, this`err
      ensures hit ==> SliceEnds(line, delim, e) && old(Stream()) == line + Stream() && r >= |line|
      ensures !hit ==>
        Valid() && Stream() == old(Stream()) && r == old(r) && err == old(err) == None && w - r < buf.Length
    {
      hide EndsFirst, IndexByte;
      hit := true;
      // a line end among the buffered bytes
      var i := IndexByte(buf[r..w], delim);
      if i >= 0 {
        SliceEndsFirst(buf[r..w], delim);
        line := TakeLine(i + 1);
        return hit, line, None;
      }
      IndexByteAbsent(buf[r..w], delim);
      // an error that waits
      if err.Some? {
        line := TakeLine(w - r);
        e := ReadErr();
        return;
      }
      // no room left
      if Buffered() >= buf.Length {
        line := TakeLine(w - r);
        e := Some(ErrBufferFull);
        return;
      }
      return false, [], None;
    }

    /** ReadSlice: up to and including delim, or all that is left, or a whole buffer without it. */
    method ReadSlice(delim: byte) returns (line: bytes, e: Option<Error>)
      requires Valid()
      modifies this`r, this`w, this`err, this`lastByte, this`stalled, buf, rd`rest
      ensures SliceEnds(line, delim, e) && old(Stream()) == line + Stream() && r >= |line|
      ensures line != [] ==> lastByte == line[|line| - 1]
      ensures old(stalled) ==> stalled
    {
      hide EndsFirst;
      while true
        invariant Valid() && Stream() == old(Stream())
        invariant old(stalled) ==> stalled
        decreases err == None, buf.Length - (w - r)
      {
        var hit;
        hit, line, e := TrySlice(delim);
        if hit {
          break;
        }
        Fill();
      }
      // remembered for UnreadByte
      if |line| > 0 {
        lastByte := line[|line| - 1];
      }
    }

    /** A byte that was just taken is buffered again. */
    method PutBack(ghost c: byte)
      requires Valid() && r > 0 && buf[r - 1] == c
      modifies this`r
      ensures Valid() && Stream() == [c] + old(Stream())
    {
      ghost var before := buf[r..w];
      r := r - 1;
      assert buf[r..w] == [c] + before;
      ConcatAssoc([c], before, rd.rest);
    }

    /** ReadLine: the next fragment of the current line, without its end. */
    method ReadLine() returns (line: bytes, isPrefix: bool, e: Option<Error>)
      requires Valid()
      modifies this`r, this`w, this`err, this`lastByte, this`stalled, buf, rd`rest
      ensures Valid() && (old(stalled) ==> stalled)
      ensures isPrefix ==> e == None && line != []
      ensures isPrefix ==> old(Stream()) == line + Stream()
      ensures isPrefix ==>
        && Line(old(Stream())) == line + Line(Stream())
        && AfterLine(old(Stream())) == AfterLine(Stream())
        && |Stream()| < |old(Stream())|
      ensures !isPrefix && e == None && !stalled ==>
        old(Stream()) != [] && line == Line(old(Stream())) && Stream() == AfterLine(old(Stream()))
      ensures e.Some? && !stalled ==> e.value == rd.fin && old(Stream()) == []
      // It is a full buffer, less a "\r" at its end; a whole line fits the buffer with its end.
      ensures isPrefix ==>
        if r < w then |line| == buf.Length - 1 else |line| == buf.Length && line[|line| - 1] != CR
      ensures !isPrefix ==> |line| <= buf.Length
      // Stalled or not, nothing is lost but a line end, and a line that is not empty has no error.
      ensures e.Some? ==> line == [] && Stream() == old(Stream())
      ensures e == None && !isPrefix ==>
        exists end :: LineEnd(end) && old(Stream()) == line + end + Stream() && |line + end| > 0
      ensures e == None ==>
        var n := |old(Stream())| - |Stream()|;
        r > 0 && n > 0 &&
        if isPrefix && r < w then lastByte == CR && Stream() != [] && Stream()[0] == CR
        else lastByte == old(Stream())[n - 1]
    {
      hide Line, AfterLine;
      line, e := ReadSlice(NL);
      assert e == None ==> line != [];
      hide EndsFirst;
      if e == Some(ErrBufferFull) {
        line := Fragment(line);
        return line, true, None;
      }
      isPrefix := false;
      if |line| == 0 {
        return;
      }
      LineOfSlice(line, Stream(), e == None);
      e := None;
      line := StripEnd(line);
    }

    /** A full buffer without a line end: a "\r" at its end goes back, for the next call to see what follows. */
    method Fragment(line: bytes) returns (short: bytes)
      requires Valid() && r == w == |line| == buf.Length && line == buf[..] && NL !in line
      modifies this`r
      ensures Valid() && r > 0 && short != [] && line + old(Stream()) == short + Stream()
      ensures if r < w then line == short + [CR] && Stream()[0] == CR
        else short == line && line[|line| - 1] != CR && Stream() == old(Stream())
      ensures Line(line + old(Stream())) == short + Line(Stream())
        && AfterLine(line + old(Stream())) == AfterLine(Stream())
    {
      hide Line, AfterLine;
      short := line;
      if line[|line| - 1] == CR {
        short := line[..|line| - 1];
        assert line == short + [CR];
        ConcatAssoc(short, [CR], Stream());
        PutBack(CR);
      }
      LineOfFragment(short, Stream());
    }

    /** ReadBytes: the stream through the first delim, or all of it with the error. */
    method ReadBytes(delim: byte) returns (result: array<byte>, err: Option<Error>)
      requires Valid()
      modifies this`r, this`w, this`err, this`lastByte, this`stalled, buf, rd`rest
      ensures Valid() && fresh(result) && old(Stream()) == result[..] + Stream()
      ensures err == None ==> EndsFirst(result[..], delim)
      ensures err.Some? ==> delim !in result[..]
      ensures err.Some? ==> (err.value == rd.fin && Stream() == []) || (err.value == ErrNoProgress && stalled)
    {
      // One slice after another, until one ends with delim.
      var frag: bytes := [];
      var full: seq<bytes> := [];
      err := None;
      while true
        invariant Valid() && old(Stream()) == Flatten(full) + Stream()
        invariant delim !in Flatten(full)
        decreases |Stream()|
      {
        var e: Option<Error>;
        frag, e := ReadSlice(delim);
        ConcatAssoc(Flatten(full), frag, Stream());
        if e == None {
          break;
        }
        if e != Some(ErrBufferFull) {
          err := e;
          break;
        }
        // the next slice overwrites this one
        FlattenAppend(full, frag);
        full := full + [frag];
      }
      result := Assemble(full, frag);
    }

    /** One new buffer of the exact size, filled piece by piece. */
    method Assemble(full: seq<bytes>, frag: bytes) returns (result: array<byte>)
      ensures fresh(result) && result[..] == Flatten(full) + frag
    {
      hide Flatten;
      var total := TotalLength(full);
      result := new byte[total + |frag|];
      var n := 0;
      FlattenNone(full);
      for i := 0 to |full|
        invariant n == |Flatten(full[..i])| <= |Flatten(full)| && result.Length == |Flatten(full)| + |frag|
        invariant result[..n] == Flatten(full[..i])
      {
        FlattenOne(full, i);
        n := CopyAt(result, n, full[i]);
      }
      assert full[..|full|] == full;
      n := CopyAt(result, n, frag);
      assert result[..] == result[..n];
    }

    method TotalLength(full: seq<bytes>) returns (n: nat)
      ensures n == |Flatten(full)|
    {
      hide Flatten;
      n := 0;
      FlattenNone(full);
      for i := 0 to |full|
        invariant n == |Flatten(full[..i])|
      {
        FlattenOne(full, i);
        n := n + |full[i]|;
      }
      assert full[..|full|] == full;
    }
  }

  // ---- UnreadByte after something else ----

  /** After Discard, UnreadByte undoes the skipping of the last byte exactly if that byte is lastByte, the
      last one that was read and not skipped. */
  method DiscardThenUnread(b: Reader, n: int) returns (e: Option<Error>, u: Option<Error>)
    requires b.Valid() && n > 0
    modifies b`r, b`w, b`err, b`lastByte, b`stalled, b.buf, b.rd`rest
    ensures b.Valid()
    ensures e == None ==> n <= |old(b.Stream())|
    ensures e == None ==>
      ((u == None && b.Stream() == old(b.Stream())[n - 1..]) <==> old(b.lastByte) == old(b.Stream())[n - 1] as int)
  {
    ghost var whole := b.Stream();
    ghost var last := b.lastByte;
    var k;
    k, e := b.Discard(n);
    ghost var left := b.Stream();
    if e == None {
      Undone(whole, n, left, last);
    }
    hide b.Stream;
    u := b.UnreadByte();
  }

  /** After ReadLine, UnreadByte undoes the taking of the last byte, unless ReadLine has put a "\r" back
      behind another byte, which the length of the fragment tells. */
  method ReadLineThenUnread(b: Reader)
      returns (line: bytes, isPrefix: bool, e: Option<Error>, u: Option<Error>, ghost left: bytes)
    requires b.Valid()
    modifies b`r, b`w, b`err, b`lastByte, b`stalled, b.buf, b.rd`rest
    ensures b.Valid()
    ensures e.Some? ==> left == old(b.Stream())
    ensures isPrefix ==> e == None && old(b.Stream()) == line + left
    ensures e == None && !isPrefix ==>
      exists end :: LineEnd(end) && old(b.Stream()) == line + end + left && |line + end| > 0
    ensures e == None && !isPrefix && !b.stalled ==> left == AfterLine(old(b.Stream()))
    ensures e == None ==>
      var n := |old(b.Stream())| - |left|;
      n > 0 &&
      ((u == None && b.Stream() == old(b.Stream())[n - 1..])
        <==> (isPrefix && |line| < b.buf.Length ==> old(b.Stream())[n - 1] == CR))
  {
    hide Line, AfterLine;
    ghost var whole := b.Stream();
    line, isPrefix, e := b.ReadLine();
    left := b.Stream();
    if e == None {
      ghost var n := |whole| - |left|;
      if !isPrefix {
        ghost var end :| LineEnd(end) && whole == line + end + left && |line + end| > 0;
      }
      assert LeftOf(whole, n, left);
      Undone(whole, n, left, b.lastByte);
    }
    hide b.Stream;
    u := b.UnreadByte();
  }

  /** Putting c back undoes the taking of the last byte exactly if it is that byte. */
  lemma Undone(whole: bytes, n: nat, left: bytes, c: int)
    requires n > 0 && LeftOf(whole, n, left)
    ensures 0 <= c < 256 ==> ([c as byte] + left == whole[n - 1..] <==> c == whole[n - 1] as int)
  {
    assert whole[n - 1..] == [whole[n - 1]] + left;
    if 0 <= c < 256 {
      assert ([c as byte] + left)[0] == c as byte;
    }
  }

  /** An example: "ab" is read up to "a", and "b" is skipped. UnreadByte then puts "a" back instead. */
  method UnreadAfterDiscard() returns (b: Reader, u: Option<Error>)
    ensures fresh(b) && b.Valid() && (!b.stalled ==> u == None && b.Stream() == [97])
  {
    var rd := new ByteSource([97, 98], EOF);
    b := new Reader(rd, 0);
    var c, e := b.ReadByte();
    if e == None {
      assert ([c] + b.Stream())[0] == c && ([c] + b.Stream())[1..] == b.Stream();
    }
    var k, e1 := b.Discard(1);
    u := b.UnreadByte();
  }

  lemma LongFragment(text: bytes, line: bytes, isPrefix: bool, left: bytes)
    requires |text| == 17 && text[15] == CR && text[16] == 98 && forall i | 0 <= i < 15 :: text[i] == 97
    requires if isPrefix then text == line + left else line == Line(text)
    requires isPrefix ==> |line| == 15 || (|line| == 16 && line[15] != CR)
    requires !isPrefix ==> |line| <= 16
    ensures isPrefix && |line| == 15 && left == [CR, 98]
  {
    if isPrefix {
      assert line[..] == text[..|line|] && left == text[|line|..];
    } else {
      IndexByteAbsent(text, NL);
    }
  }

  /** Another: a "\r" is the last byte of a full buffer. ReadLine keeps it for the next call, and UnreadByte
      then puts it where an "a" was. */
  method UnreadAfterLine() returns (b: Reader, u: Option<Error>)
    ensures fresh(b) && b.Valid() && (!b.stalled ==> u == None && b.Stream() == [CR, CR, 98])
  {
    hide Line, AfterLine;
    var text := seq(15, _ => 97 as byte) + [CR, 98];
    var rd := new ByteSource(text, EOF);
    b := new Reader(rd, 0);
    var line, isPrefix, e := b.ReadLine();
    if !b.stalled {
      LongFragment(text, line, isPrefix, b.Stream());
    }
    u := b.UnreadByte();
  }

  // ---- Whole runs ----

  /** The lines of a text, each without its "\n" or "\r\n"; a last line without "\n" is kept whole. */
  function AllLines(s: bytes): seq<bytes>
    decreases |s|
  {
    if s == [] then [] else [Line(s)] + AllLines(AfterLine(s))
  }

  /** They are what the lines of the text were, whether they end in "\n" or "\r\n". */
  lemma {:induction false} AllLinesOfText(ls: seq<TextLine>, tail: bytes)
    requires AreLines(ls) && NL !in tail
    ensures AllLines(TextOf(ls, tail)) == Bodies(ls) + if tail == [] then [] else [tail]
  {
    if ls == [] {
      IndexByteAbsent(tail, NL);
    } else {
      var (l, more) := (ls[0], ls[1..]);
      var (s, rest) := (TextOf(ls, tail), TextOf(more, tail));
      AllLinesOfText(more, tail);
      FirstLineOfText(l, rest);
      hide Line, AfterLine, LineText;
      assert s == LineText(l) + rest && s != [];
    }
  }

  lemma FirstLineOfText(l: TextLine, rest: bytes)
    requires IsBody(l.body)
    ensures var s := LineText(l) + rest; s != [] && Line(s) == l.body && AfterLine(s) == rest
  {
    var (s, n) := (LineText(l) + rest, |LineText(l)| - 1);
    FirstEnd(l, rest);
    hide IndexByte;
    var b := l.body + if l.crlf then [CR] else [];
    assert n == |b| && forall k | 0 <= k < n :: s[k] == b[k];
    assert s[..|l.body|] == l.body;
  }

  /** The lines still to come when the line before them has begun with head, if it has. */
  function LinesBehind(head: Option<bytes>, s: bytes): seq<bytes> {
    match head
    case None => AllLines(s)
    case Some(part) => [part + Line(s)] + AllLines(AfterLine(s))
  }

  /** Reading line by line, with the fragments of a long line put together, gives the lines of the stream. */
  method ReadAllLines(b: Reader) returns (lines: seq<bytes>, err: Error)
    requires b.Valid()
    modifies b`r, b`w, b`err, b`lastByte, b`stalled, b.buf, b.rd`rest
    ensures b.Valid()
    ensures !b.stalled ==> lines == AllLines(old(b.Stream())) && b.Stream() == [] && err == b.rd.fin
  {
    lines := [];
    var head: Option<bytes> := None;
    ghost var whole := b.Stream();
    while true
      invariant b.Valid()
      invariant !b.stalled ==> lines + LinesBehind(head, b.Stream()) == AllLines(whole)
      decreases |b.Stream()|
    {
      ghost var s := b.Stream();
      var line, isPrefix, e := b.ReadLine();
      var part := (if head.Some? then head.value else []) + line;
      if e.Some? {
        if head.Some? {
          lines := lines + [part];
        }
        LinesEnd(head);
        return lines, e.value;
      }
      if !b.stalled {
        LinesStep(lines, head, s, line, isPrefix, b.Stream());
      }
      if isPrefix {
        head := Some(part);
      } else {
        lines := lines + [part];
        head := None;
      }
    }
  }

  lemma LinesEnd(head: Option<bytes>)
    ensures LinesBehind(head, []) == if head.Some? then [head.value + []] else []
  {
    assert Line([]) == [] && AfterLine([]) == [];
  }

  lemma LinesStep(lines: seq<bytes>, head: Option<bytes>, s: bytes, line: bytes, isPrefix: bool, rest: bytes)
    requires if isPrefix then Line(s) == line + Line(rest) && AfterLine(s) == AfterLine(rest)
      else line == Line(s) && rest == AfterLine(s)
    requires s != []
    ensures var part := (if head.Some? then head.value else []) + line;
      lines + LinesBehind(head, s)
      == if isPrefix then lines + LinesBehind(Some(part), rest) else (lines + [part]) + LinesBehind(None, rest)
  {
    hide Line, AfterLine;
    var h := if head.Some? then head.value else [];
    assert [] + Line(s) == Line(s);
    assert h + (line + Line(rest)) == (h + line) + Line(rest);
  }
}
