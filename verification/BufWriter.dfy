/** bufio/bufio.go: the buffered Writer. */
module BufWriter {
  import opened Bytes
  import Utf8

  const DEFAULT_BUF_SIZE := 4096

  datatype Error = ErrShortWrite | Failure(id: nat)

  /** An io.Writer: it may fail at any point, having taken any part of what it was given. */
  class Sink {
    var got: bytes
    ghost var calls: nat

    constructor ()
      ensures got == [] && calls == 0
    {
      got, calls := [], 0;
    }

    /** The error may come with a full count; without one at least a byte is taken. */
    method Write(p: bytes) returns (n: nat, err: Option<Error>)
      modifies this
      ensures n <= |p| && got == old(got) + p[..n] && calls == old(calls) + 1
      ensures err.None? && p != [] ==> n > 0
      ensures err.Some? ==> err.value.Failure?
    {
      n :| 0 <= n <= |p|;
      got := got + p[..n];
      calls := calls + 1;
      err := None;
      if n == 0 {
        err := Some(Failure(0));
      } else if * {
        var id: nat := *;
        err := Some(Failure(id));
      }
    }
  }

  lemma NothingAccepted(before: bytes, p: bytes)
    ensures before == before + p[..0] && p == p[0..]
  {
  }

  /** The next k bytes of p, behind those before. */
  lemma Accepted(before: bytes, p: bytes, nn: nat, rest: bytes, k: nat)
    requires nn <= |p| && rest == p[nn..] && k <= |rest|
    ensures (before + p[..nn]) + rest[..k] == before + p[..nn + k] && rest[k..] == p[nn + k..]
    ensures rest[..|rest|] == rest
  {
    assert p[..nn + k] == p[..nn] + rest[..k];
  }

  lemma HandedOver(got: bytes, was: bytes, k: nat)
    requires k <= |was|
    ensures (got + was[..k]) + was[k..] == got + was
    ensures k == |was| ==> was[..k] == was
  {
    assert was == was[..k] + was[k..];
  }

  class Writer {
    var err: Option<Error>
    const buf: array<byte>
    var n: nat
    var wr: Sink

    ghost predicate Valid()
      reads this
    {
      buf.Length > 0 && n <= buf.Length
    }

    /** Everything accepted: what the sink has got and what is still buffered. */
    ghost function Contents(): bytes
      reads this, buf, wr
      requires n <= buf.Length
    {
      wr.got + buf[..n]
    }

    constructor (wr: Sink, size: int)
      ensures Valid() && fresh(buf) && this.wr == wr
      ensures buf.Length == if size <= 0 then DEFAULT_BUF_SIZE else size
      ensures n == 0 && err == None && Contents() == wr.got
    {
      this.wr := wr;
      buf := new byte[if size <= 0 then DEFAULT_BUF_SIZE else size];
      n, err := 0, None;
    }

    /** Reset: what is still buffered is dropped, and so is the error. */
    method Reset(w: Sink)
      requires Valid()
      modifies this
      ensures Valid() && wr == w && err == None && n == 0 && Contents() == w.got
    {
      err := None;
      n := 0;
      wr := w;
    }

    function Available(): int
      reads this
    {
      buf.Length - n
    }

    /** Once an error is set nothing changes: neither the sink nor the buffer. */
    twostate predicate Stuck()
      reads this, buf, wr
    {
      wr.got == old(wr.got) && wr.calls == old(wr.calls) && n == old(n) && buf[..] == old(buf[..]) && err == old(err)
    }

    /** b.buf[b.n:] takes p, which fits. */
    method Append(p: bytes)
      requires Valid() && n + |p| <= buf.Length
      modifies this`n, buf
      ensures Valid() && Contents() == old(Contents()) + p && n == old(n) + |p|
    {
      ghost var was := buf[..n];
      forall i | 0 <= i < |p| {
        buf[n + i] := p[i];
      }
      n := n + |p|;
      assert buf[..n] == was + p;
    }

    /** What the sink has not taken moves to the front of the buffer. */
    method Slide(k: nat)
      requires Valid() && k <= n
      modifies this`n, buf
      ensures Valid() && buf[..n] == old(buf[..n])[k..]
    {
      if k > 0 && k < n {
        forall i | 0 <= i < n - k {
          buf[i] := buf[k + i];
        }
      }
      n := n - k;
    }

    method Flush() returns (e: Option<Error>)
      requires Valid()
      modifies this`err, this`n, buf, wr
      ensures Valid() && Contents() == old(Contents()) && e == err
      ensures err == None ==> n == 0 && wr.got == old(Contents())
      ensures old(err).Some? ==> Stuck()
      ensures old(n) == 0 ==> Stuck()
    {
      if err.Some? {
        return err;
      }
      if n == 0 {
        return None;
      }
      ghost var was := buf[..n];
      var k: nat;
      k, e := wr.Write(buf[..n]);
      if k < n && e == None {
        e := Some(ErrShortWrite);
      }
      if e.Some? {
        Slide(k);
        HandedOver(old(wr.got), was, k);
        err := e;
        return;
      }
      HandedOver(old(wr.got), was, k);
      n := 0;
      return None;
    }

    /** One turn of Write: a large write with nothing buffered goes straight to the sink. */
    method WriteTurn(rest: bytes) returns (k: nat)
      requires Valid() && err.None? && |rest| > Available()
      modifies this`err, this`n, buf, wr
      ensures Valid() && k <= |rest| && Contents() == old(Contents()) + rest[..k]
      ensures err.None? ==> k > 0 || n < old(n)
    {
      if n == 0 {
        assert Contents() == wr.got;
        k, err := wr.Write(rest);
      } else {
        k := Available();
        Append(rest[..k]);
        var _ := Flush();
      }
    }

    /** Write: nn bytes of p are accepted; if they are not all, an error says why. */
    method Write(p: bytes) returns (nn: nat, e: Option<Error>)
      requires Valid()
      modifies this`err, this`n, buf, wr
      ensures Valid() && e == err
      ensures nn <= |p| && Contents() == old(Contents()) + p[..nn]
      ensures e.None? ==> nn == |p|
      ensures old(err).Some? ==> Stuck() && nn == 0
    {
      hide Contents;
      nn := 0;
      var rest := p;
      NothingAccepted(Contents(), p);
      while |rest| > Available() && err.None?
        invariant Valid() && nn <= |p| && rest == p[nn..]
        invariant Contents() == old(Contents()) + p[..nn]
        invariant old(err).Some? ==> Stuck() && nn == 0
        decreases if err.None? then 1 else 0, |rest|, n
      {
        var k := WriteTurn(rest);
        Accepted(old(Contents()), p, nn, rest, k);
        nn := nn + k;
        rest := rest[k..];
      }
      if err.Some? {
        return nn, err;
      }
      Append(rest);
      Accepted(old(Contents()), p, nn, rest, |rest|);
      nn := nn + |rest|;
      return nn, None;
    }

    method WriteByte(c: byte) returns (e: Option<Error>)
      requires Valid()
      modifies this`err, this`n, buf, wr
      ensures Valid() && e == err
      ensures Contents() == old(Contents()) + if e.None? then [c] else []
      ensures old(err).Some? ==> Stuck()
    {
      if err.Some? {
        return err;
      }
      if Available() <= 0 {
        var f := Flush();
        if f.Some? {
          return err;
        }
      }
      Append([c]);
      return None;
    }

    method WriteString(s: bytes) returns (nn: nat, e: Option<Error>)
      requires Valid()
      modifies this`err, this`n, buf, wr
      ensures Valid() && e == err
      ensures nn <= |s| && Contents() == old(Contents()) + s[..nn]
      ensures e.None? ==> nn == |s|
      ensures old(err).Some? ==> Stuck() && nn == 0
    {
      hide Contents;
      nn := 0;
      var rest := s;
      NothingAccepted(Contents(), s);
      while |rest| > Available() && err.None?
        invariant Valid() && nn <= |s| && rest == s[nn..]
        invariant Contents() == old(Contents()) + s[..nn]
        invariant old(err).Some? ==> Stuck() && nn == 0
        decreases if err.None? then 1 else 0, |rest|, n
      {
        var k: nat := Available();
        Append(rest[..k]);
        Accepted(old(Contents()), s, nn, rest, k);
        nn := nn + k;
        rest := rest[k..];
        var _ := Flush();
      }
      if err.Some? {
        return nn, err;
      }
      Append(rest);
      Accepted(old(Contents()), s, nn, rest, |rest|);
      nn := nn + |rest|;
      return nn, None;
    }

    /** The bytes WriteRune writes: the low byte of anything below 0x80, negative numbers too. */
    static function RuneBytes(r: int): bytes {
      if r < Utf8.RUNE_SELF then [r % 0x100] else Utf8.EncodeRune(r)
    }

    /** That is the rune's encoding for every rune but the negative ones. */
    static lemma RuneBytesEncode(r: int)
      ensures RuneBytes(r) == Utf8.EncodeRune(r) <==> r >= 0
    {
    }

    method WriteRune(r: int) returns (size: nat, e: Option<Error>)
      requires Valid()
      modifies this`err, this`n, buf, wr
      ensures Valid() && e == err
      ensures size <= |RuneBytes(r)| && Contents() == old(Contents()) + RuneBytes(r)[..size]
      ensures e.None? ==> size == |RuneBytes(r)|
      ensures old(err).Some? ==> Stuck() && size == 0
    {
      if r < Utf8.RUNE_SELF {
        e := WriteByte(r % 0x100);
        return if e.Some? then 0 else 1, e;
      }
      if err.Some? {
        return 0, err;
      }
      var a := Available();
      if a < Utf8.UTF_MAX {
        var _ := Flush();
        if err.Some? {
          return 0, err;
        }
        a := Available();
        if a < Utf8.UTF_MAX {
          // a buffer shorter than a rune
          size, e := WriteString(Utf8.EncodeRune(r));
          return;
        }
      }
      Append(Utf8.EncodeRune(r));
      return |Utf8.EncodeRune(r)|, None;
    }
  }

  /** Any run of writes and a last Flush: without an error the sink has got exactly what was written,
      however it was cut up; with one, the sink has got a prefix of it. */
  method WriteAll(w: Writer, pieces: seq<bytes>) returns (e: Option<Error>)
    requires w.Valid() && w.err == None
    modifies w`err, w`n, w.buf, w.wr
    ensures w.Valid()
    ensures e.None? ==> w.wr.got == old(w.Contents()) + Flatten(pieces)
    ensures e.Some? ==> w.wr.got <= old(w.Contents()) + Flatten(pieces)
  {
    for i := 0 to |pieces|
      invariant w.Valid() && w.err == None
      invariant w.Contents() == old(w.Contents()) + Flatten(pieces[..i])
    {
      assert pieces[..i + 1] == pieces[..i] + [pieces[i]];
      FlattenAppend(pieces[..i], pieces[i]);
      FlattenPrefix(pieces, i + 1);
      var nn;
      nn, e := w.Write(pieces[i]);
      if e.Some? {
        assert w.wr.got <= w.Contents() <= old(w.Contents()) + Flatten(pieces[..i + 1]);
        return;
      }
      assert pieces[i][..nn] == pieces[i];
    }
    assert pieces[..|pieces|] == pieces;
    e := w.Flush();
    assert w.wr.got <= w.Contents();
  }
}
