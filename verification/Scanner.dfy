/** bufio/scan.go: the Scanner, for any split function, and ScanLines. */
module Scan {
  import opened Bytes
  import opened Source

  const START_BUF_SIZE := 4096
  const MAX_CONSECUTIVE_EMPTY_READS := 100
  const MAX_INT := 0x7FFF_FFFF_FFFF_FFFF

  /** What a SplitFunc returns. */
  datatype Split = Split(advance: int, token: Option<bytes>, err: Option<Error>)

  type SplitFunc = (bytes, bool) -> Split

  /** A call of Scan returns true, returns false, or panics. */
  datatype Outcome = Token | Stopped | Panicked

  function Shift(k: nat, d: Split): Split {
    d.(advance := d.advance + k)
  }

  /**
   A split function that commits early only to what it would say of the whole
   input: a token found before EOF is the token of every continuation, and bytes
   skipped before EOF are skipped whatever follows.
   */
  ghost predicate Stable(split: SplitFunc) {
    && (forall d, eof {:trigger split(d, eof)} ::
         var x := split(d, eof);
         x.err == None && 0 <= x.advance <= |d| && (x.token.Some? ==> x.advance > 0))
    && (forall d, ext: bytes {:trigger split(d + ext, true), split(d, false)} ::
         var x := split(d, false);
         if x.token.Some? then split(d + ext, true) == x
         else split(d + ext, true) == Shift(x.advance, split((d + ext)[x.advance..], true)))
  }

  lemma StableCall(split: SplitFunc, d: bytes, eof: bool)
    requires Stable(split)
    ensures var x := split(d, eof); x.err == None && 0 <= x.advance <= |d| && (x.token.Some? ==> x.advance > 0)
  {
  }

  /** A split function that skips nothing before a token. */
  ghost predicate NoSkip(split: SplitFunc) {
    forall d :: split(d, false).token == None ==> split(d, false).advance == 0
  }

  lemma NoSkipCall(split: SplitFunc, d: bytes)
    requires NoSkip(split)
    ensures split(d, false).token == None ==> split(d, false).advance == 0
  {
  }

  function NextSize(len: nat, max: int): int {
    var size := if len == 0 then START_BUF_SIZE else len * 2;
    if size > max then max else size
  }

  /** The length at which a buffer of length len stops growing. */
  function Capacity(len: nat, max: int): (c: nat)
    ensures len <= c
    decreases max - len
  {
    if len >= max || len > MAX_INT / 2 then len else Capacity(NextSize(len, max), max)
  }

  /** token is what the split function takes for one at EOF in the bytes from i to j, and the input goes on behind
      it. */
  ghost predicate EarlyToken(split: SplitFunc, whole: bytes, i: nat, j: nat, token: Option<bytes>, rest: bytes) {
    && i <= j <= |whole|
    && var x := split(whole[i..j], true);
      token == x.token && 0 <= x.advance && LeftOf(whole, i + x.advance, rest)
  }

  /** The token that x describes has been taken off the input, all of it from the buffer. */
  predicate TokenTaken(x: Split, token: Option<bytes>, before: bytes, rest: bytes, len: nat) {
    token.Some? && x.token == token && 0 <= x.advance <= len && LeftOf(before, x.advance, rest)
  }

  class Scanner {
    const r: ByteSource
    const split: SplitFunc
    var maxTokenSize: int
    var token: Option<bytes>
    var buf: array<byte>
    var start: nat
    var end: nat
    var err: Option<Error>
    var empties: nat
    var scanCalled: bool
    var done: bool
    ghost var stalled: bool // the reader returned nothing too often

    ghost predicate Valid()
      reads this, r
    {
      r.Valid() && start <= end <= buf.Length
    }

    /** The unprocessed input. */
    ghost function Rest(): bytes
      reads this, buf, r
      requires start <= end <= buf.Length
    {
      buf[start..end] + r.rest
    }

    /** No error but the reader's own, which comes after its last byte. */
    ghost predicate Healthy()
      reads this, r
    {
      err == None || (err == Some(r.fin) && r.rest == [])
    }

    constructor (r: ByteSource, split: SplitFunc, buf: array<byte>, max: int)
      requires r.Valid()
      ensures Valid() && Healthy() && !done && !stalled
      ensures this.r == r && this.split == split && this.buf == buf && maxTokenSize == max && Rest() == r.rest
    {
      this.r, this.split, this.buf, maxTokenSize := r, split, buf, max;
      token, start, end, err, empties, scanCalled, done, stalled := None, 0, 0, None, 0, false, false, false;
    }

    /** Text and Bytes: the most recent token. */
    function Text(): bytes
      reads this
    {
      if token.Some? then token.value else []
    }

    /** setErr: a later error does not replace an earlier one, except for EOF. */
    method SetErr(e: Error)
      modifies this`err
      ensures err == if old(err) == None || old(err) == Some(EOF) then Some(e) else old(err)
    {
      if err == None || err == Some(EOF) {
        err := Some(e);
      }
    }

    /** advance: skip n of the buffered bytes, if there are so many. */
    method Advance(n: int) returns (ok: bool)
      requires Valid()
      modifies this`start, this`err
      ensures Valid()
      ensures ok <==> 0 <= n <= old(end - start)
      ensures ok ==> err == old(err) && start == old(start) + n
      ensures ok ==> LeftOf(old(Rest()), n, Rest()) && |Rest()| == |old(Rest())| - n
      ensures !ok ==> start == old(start) && err.Some?
    {
      if n < 0 {
        SetErr(ErrNegativeAdvance);
        return false;
      }
      if n > end - start {
        SetErr(ErrAdvanceTooFar);
        return false;
      }
      assert (buf[start..end] + r.rest)[n..] == buf[start + n..end] + r.rest;
      start := start + n;
      ok := true;
    }

    /** Shift the data to the front if it leaves much room there, or if there is none behind it. */
    method ShiftData()
      requires Valid()
      modifies this`start, this`end, buf
      ensures Valid() && Rest() == old(Rest()) && buf[start..end] == old(buf[start..end])
      ensures end == buf.Length ==> start == 0 && old(start == 0 && end == buf.Length) && buf[..] == old(buf[..])
    {
      if start > 0 && (end == buf.Length || start > buf.Length / 2) {
        forall i | 0 <= i < end - start {
          buf[i] := buf[start + i];
        }
        assert buf[..end - start] == old(buf[start..end]);
        end := end - start;
        start := 0;
      }
    }

    /** Move the data to a larger buffer. */
    method Enlarge()
      requires Valid() && end == buf.Length && !(buf.Length >= maxTokenSize || buf.Length > MAX_INT / 2)
      modifies this`buf, this`start, this`end
      ensures Valid() && Rest() == old(Rest()) && fresh(buf) && end < buf.Length
      ensures Capacity(buf.Length, maxTokenSize) == old(Capacity(buf.Length, maxTokenSize))
    {
      var newSize := buf.Length * 2;
      if newSize == 0 {
        newSize := START_BUF_SIZE;
      }
      if newSize > maxTokenSize {
        newSize := maxTokenSize;
      }
      assert newSize == NextSize(buf.Length, maxTokenSize);
      var newBuf := new byte[newSize];
      forall i | 0 <= i < end - start {
        newBuf[i] := buf[start + i];
      }
      assert newBuf[..end - start] == buf[start..end];
      buf := newBuf;
      end := end - start;
      start := 0;
    }

    /** Make room behind the data, unless the buffer is full and may not grow. */
    method MakeRoom() returns (ok: bool)
      requires Valid() && err == None
      modifies this`buf, this`start, this`end, this`err, buf
      ensures Valid() && Rest() == old(Rest()) && (buf == old(buf) || fresh(buf))
      ensures ok ==> err == None && end < buf.Length
      ensures !ok ==> err == Some(ErrTooLong) && buf == old(buf) && start == old(start) == 0 && end == buf.Length
      ensures !ok ==>
        buf[..] == old(buf[..]) == old(buf[start..end]) && buf.Length == Capacity(buf.Length, maxTokenSize)
      ensures Capacity(buf.Length, maxTokenSize) == old(Capacity(buf.Length, maxTokenSize))
    {
      ShiftData();
      // The guard also keeps the doubling within an int.
      if end == buf.Length {
        if buf.Length >= maxTokenSize || buf.Length > MAX_INT / 2 {
          SetErr(ErrTooLong);
          return false;
        }
        Enlarge();
      }
      ok := true;
    }

    /** Read some input, or record why there is none. */
    method ReadSome()
      requires Valid() && err == None && end < buf.Length
      modifies this`end, this`err, this`empties, this`stalled, buf, r`rest
      ensures Valid() && Rest() == old(Rest()) && end >= old(end)
      ensures err == None ==> |r.rest| < |old(r.rest)| && stalled == old(stalled)
      ensures err.Some? ==> (Healthy() && stalled == old(stalled)) || (err == Some(ErrNoProgress) && stalled)
    {
      var loop := 0;
      while true
        invariant Valid() && err == None && end == old(end) && stalled == old(stalled)
        invariant Rest() == old(Rest()) && r.rest == old(r.rest)
        decreases MAX_CONSECUTIVE_EMPTY_READS - loop
      {
        ghost var a := buf[..];
        var n, e := r.Read(buf, end, buf.Length);
        ChunkBehind(a, buf[..], old(r.rest), start, end, n);
        end := end + n;
        if e.Some? {
          SetErr(e.value);
          break;
        }
        if n > 0 {
          empties := 0;
          break;
        }
        loop := loop + 1;
        if loop > MAX_CONSECUTIVE_EMPTY_READS {
          stalled := true;
          SetErr(ErrNoProgress);
          break;
        }
      }
    }

    /** Make room and read, unless the buffer may not grow. */
    method ReadMore() returns (ok: bool)
      requires Valid() && err == None
      modifies this`buf, this`start, this`end, this`err, this`empties, this`stalled, buf, r`rest
      ensures Valid() && Rest() == old(Rest()) && (buf == old(buf) || fresh(buf)) && (old(stalled) ==> stalled)
      ensures ok ==> err.Some? || |r.rest| < |old(r.rest)|
      ensures ok && !stalled ==> Healthy()
      ensures stalled && !old(stalled) ==> err == Some(ErrNoProgress)
      ensures !ok ==>
        err == Some(ErrTooLong) && buf == old(buf) && start == old(start) == 0 && end == old(end) == buf.Length
      ensures !ok ==> buf[..] == old(buf[start..end]) && buf.Length == Capacity(buf.Length, maxTokenSize)
      ensures Capacity(buf.Length, maxTokenSize) == old(Capacity(buf.Length, maxTokenSize))
    {
      ok := MakeRoom();
      if ok {
        ReadSome();
      }
    }

    /** What a call of a stable split function with the result d has done. */
    predicate Called(d: Split, start0: nat, err0: Option<Error>, hit: Option<Outcome>)
      reads this
    {
      && err == err0 && !done && 0 <= d.advance && start == start0 + d.advance
      && token == d.token && hit == (if d.token.Some? then Some(Token) else None) && (d.token.Some? ==> d.advance > 0)
    }

    /** One call of the split function on what is buffered. */
    method TrySplit() returns (hit: Option<Outcome>)
      requires Valid() && !done
      modifies this`start, this`err, this`token, this`empties, this`done
      ensures Valid()
      ensures hit == None ==> err == old(err) && !done && token == None
      ensures start >= old(start) && LeftOf(old(Rest()), start - old(start), Rest())
      ensures |Rest()| == |old(Rest())| - (start - old(start))
      ensures Stable(split) ==> Called(split(old(buf[start..end]), old(err).Some?), old(start), old(err), hit)
    {
      hide Stable, LeftOf;
      var d := split(buf[start..end], err.Some?);
      if Stable(split) {
        StableCall(split, buf[start..end], err.Some?);
      }
      if d.err.Some? {
        hit := SplitFailed(d);
      } else {
        hit := TakeToken(d);
      }
    }

    /** The split function has returned an error, or its last token. */
    method SplitFailed(d: Split) returns (hit: Option<Outcome>)
      requires Valid() && !done && d.err.Some?
      modifies this`err, this`token, this`done
      ensures Valid() && hit.Some? && LeftOf(Rest(), 0, Rest())
    {
      if d.err == Some(ErrFinalToken) {
        token := d.token;
        done := true;
        return Some(Token);
      }
      SetErr(d.err.value);
      return Some(Stopped);
    }

    /** Take what the split function says off the input. */
    method TakeToken(d: Split) returns (hit: Option<Outcome>)
      requires Valid() && !done && d.err == None
      modifies this`start, this`err, this`token, this`empties
      ensures Valid() && !done && (hit == None ==> err == old(err) && token == None)
      ensures start >= old(start) && LeftOf(old(Rest()), start - old(start), Rest())
      ensures |Rest()| == |old(Rest())| - (start - old(start))
      ensures 0 <= d.advance <= old(end - start) && (d.token.Some? ==> d.advance > 0) ==>
        Called(d, old(start), old(err), hit)
    {
      hide LeftOf;
      LeftAtOnce(Rest());
      var ok := Advance(d.advance);
      if !ok {
        return Some(Stopped);
      }
      token := d.token;
      if token == None {
        return None;
      }
      var panic := CountEmpties(d.advance);
      return Some(if panic then Panicked else Token);
    }

    /** Tokens that take nothing off the input at its end may come only so often. */
    method CountEmpties(advance: int) returns (panic: bool)
      modifies this`empties
      ensures advance > 0 ==> !panic
    {
      if err == None || advance > 0 {
        empties := 0;
        return false;
      }
      empties := empties + 1;
      return empties > MAX_CONSECUTIVE_EMPTY_READS;
    }

    /** TrySplit, seen from the input Scan was called on, of which skipped bytes have been passed over. */
    method TryToken(ghost whole: bytes, ghost skipped: nat, ghost sure: bool)
        returns (hit: Option<Outcome>, ghost skipped1: nat)
      requires Valid() && !done
      requires sure ==> Stable(split) && Healthy() && Tracks(split, whole, skipped, Rest())
      modifies this`start, this`err, this`token, this`empties, this`done
      ensures Valid()
      ensures hit == None ==> err == old(err) && !done
      ensures start >= old(start) && LeftOf(old(Rest()), start - old(start), Rest())
      ensures |Rest()| == |old(Rest())| - (start - old(start))
      ensures Stable(split) ==> Called(split(old(buf[start..end]), old(err).Some?), old(start), old(err), hit)
      ensures (Stable(split) && NoSkip(split)) || hit.Some? ==> skipped1 == skipped
      ensures sure && hit == None && err == None ==> Tracks(split, whole, skipped1, Rest())
      ensures sure && hit == None && err == None && end > start && old(start) == start ==>
        split(buf[start..end], false) == Split(0, None, None)
      ensures sure && hit == None && err.Some? ==> split(whole, true).token == None && r.rest == []
      ensures sure && hit == Some(Token) ==> Found(whole, skipped, Token)
    {
      hide Stable, Tracks, NoSkip, BufferExhausted;
      ghost var (left, data, ext, eof) := (Rest(), buf[start..end], r.rest, err.Some?);
      ghost var k := split(data, eof).advance;
      if sure {
        HealthySplit(split, whole, skipped, data, eof, ext);
      }
      if NoSkip(split) && !eof {
        NoSkipCall(split, data);
      }
      hit := TrySplit();
      skipped1 := if sure && hit == None && !eof then skipped + k else skipped;
    }

    /** What Scan has found in the input it was called on: its next token, its end, or a token that does not fit. */
    ghost predicate Found(whole: bytes, skipped: nat, res: Outcome)
      reads this, buf, r
    {
      var x := split(whole, true);
      && Valid() && res != Panicked
      && (res == Token ==> Healthy() && TokenTaken(x, token, whole, Rest(), skipped + buf.Length))
      && (res == Stopped ==>
           if Healthy() then err.Some? && x.token == None && Rest() == []
           else BufferExhausted() && Tracks(split, whole, skipped, Rest()))
    }

    /** A full buffer as large as allowed, in which the split function sees no token. */
    ghost predicate BufferExhausted()
      reads this, buf, r
    {
      && err == Some(ErrTooLong) && start == 0 && end == buf.Length
      && buf.Length == Capacity(buf.Length, maxTokenSize)
      && (buf.Length > 0 ==> split(buf[..], false) == Split(0, None, None))
    }

    /**
     Scan. With a stable split function its token is the one the split function
     would find in the whole remaining input, however the reader chops that up and
     however the buffer shifts and grows; it stops only when there is none, or the
     buffer may not grow any more.
     */
    method Scan() returns (res: Outcome, ghost skipped: nat)
      requires Valid()
      modifies this, buf, r`rest
      ensures Valid() && (buf == old(buf) || fresh(buf)) && maxTokenSize == old(maxTokenSize)
      ensures Capacity(buf.Length, maxTokenSize) == old(Capacity(buf.Length, maxTokenSize))
      ensures old(done) ==> res == Stopped && Rest() == old(Rest())
      ensures old(stalled) ==> stalled
      ensures Stable(split) && res == Token ==> |Rest()| < |old(Rest())|
      ensures Stable(split) ==> done == old(done)
      ensures Stable(split) && NoSkip(split) ==> skipped == 0
      ensures Stable(split) && old(Healthy()) && !old(done) && !stalled ==> Found(old(Rest()), skipped, res)
      // After an error of any kind the split function is asked once more about what is buffered.
      ensures Stable(split) && old(err).Some? && !old(done) ==>
        && ChanceTaken(split(old(buf[start..end]), true), old(start), old(end), res)
        && err == old(err) && stalled == old(stalled) && buf == old(buf) && buf[..] == old(buf[..])
          && r.rest == old(r.rest)
      // So it is when the reader gives nothing too often.
      ensures Stable(split) && old(err) == None && !old(done) && stalled && !old(stalled) && res == Token ==>
        err == Some(ErrNoProgress) && exists i, j :: EarlyToken(split, old(Rest()), i, j, token, Rest())
    {
      hide Stable, Tracks, NoSkip, Capacity, LeftOf, Found, ChanceTaken, EarlyToken;
      skipped := 0;
      if done {
        return Stopped, 0;
      }
      scanCalled := true;
      ghost var sure := Stable(split) && Healthy();
      ghost var whole := Rest();
      TracksAll(split, whole);
      LeftAtOnce(whole);
      ghost var passed: nat := 0;
      if err == None {
        var hit;
        hit, skipped, passed := ScanWithoutError(whole, sure);
        if hit.Some? {
          return hit.value, skipped;
        }
      }
      ghost var (left, data, ext) := (Rest(), buf[start..end], r.rest);
      res, skipped := ScanAtError(whole, skipped, sure && !stalled);
      if Stable(split) && res == Token && stalled {
        LeftTwice(whole, passed, left, split(data, true).advance, Rest());
        EarlyTokenAt(split, whole, passed, data, ext, Rest());
      }
    }

    /** Scan with a split function that skips nothing, as long as all is well. */
    method ScanWell() returns (more: bool)
      requires Valid() && !done && Stable(split) && NoSkip(split) && (!stalled ==> Healthy())
      modifies this, buf, r`rest
      ensures Valid() && !done && (buf == old(buf) || fresh(buf))
      ensures Capacity(buf.Length, maxTokenSize) == old(Capacity(buf.Length, maxTokenSize))
      ensures more ==> |Rest()| < |old(Rest())|
      ensures old(stalled) ==> stalled
      ensures !stalled && more ==>
        Healthy() && TokenTaken(split(old(Rest()), true), token, old(Rest()), Rest(), buf.Length)
      ensures !stalled && !more ==>
        if Healthy() then split(old(Rest()), true).token == None && Rest() == []
        else BufferExhausted() && Rest() == old(Rest())
    {
      hide Stable, NoSkip, Capacity, LeftOf;
      var res;
      ghost var k;
      res, k := Scan();
      more := res == Token;
      assert !more && !stalled && !Healthy() ==> Rest() == old(Rest())[0..];
    }

    /** ReadMore, where the split function sees no token in what is buffered. */
    method ReadOrGiveUp(ghost whole: bytes, ghost skipped: nat, ghost sure: bool) returns (ok: bool)
      requires Valid() && err == None
      requires sure ==> Tracks(split, whole, skipped, Rest())
      requires sure && start == 0 && end > start ==> split(buf[start..end], false) == Split(0, None, None)
      modifies this`buf, this`start, this`end, this`err, this`empties, this`stalled, buf, r`rest
      ensures Valid() && Rest() == old(Rest()) && (buf == old(buf) || fresh(buf)) && (old(stalled) ==> stalled)
      ensures ok ==> err.Some? || |r.rest| < |old(r.rest)|
      ensures ok && !stalled ==> Healthy()
      ensures stalled && !old(stalled) ==> err == Some(ErrNoProgress)
      ensures Capacity(buf.Length, maxTokenSize) == old(Capacity(buf.Length, maxTokenSize))
      ensures !ok ==> err == Some(ErrTooLong)
      ensures !ok && sure ==> Found(whole, skipped, Stopped)
    {
      hide Tracks, TokenTaken, Capacity;
      ok := ReadMore();
    }

    /** As long as there is no error: a token of what is buffered, or more data. */
    method ScanWithoutError(ghost whole: bytes, ghost sure: bool)
        returns (hit: Option<Outcome>, ghost skipped: nat, ghost passed: nat)
      requires Valid() && !done && err == None && whole == Rest() && (sure ==> Stable(split))
      modifies this, buf, r`rest
      ensures Valid() && (buf == old(buf) || fresh(buf)) && maxTokenSize == old(maxTokenSize)
      ensures Capacity(buf.Length, maxTokenSize) == old(Capacity(buf.Length, maxTokenSize))
      ensures (old(stalled) ==> stalled) && (stalled && !old(stalled) ==> err == Some(ErrNoProgress))
      ensures |Rest()| <= |whole| && (Stable(split) && NoSkip(split) ==> skipped == 0)
      ensures hit == None ==> err.Some? && !done && LeftOf(whole, passed, Rest())
      ensures hit == None && sure && !stalled ==> Healthy() && Tracks(split, whole, skipped, Rest())
      ensures hit.Some? && Stable(split) ==> !done && hit.value != Panicked && (stalled ==> old(stalled))
      ensures hit == Some(Token) && Stable(split) ==> |Rest()| < |whole|
      ensures hit.Some? && sure && !stalled ==> Found(whole, skipped, hit.value)
    {
      hide Stable, Tracks, NoSkip, Capacity, LeftOf, Found;
      skipped, passed := 0, 0;
      TracksAll(split, whole);
      LeftAtOnce(whole);
      while err == None
        invariant Valid() && !done && (buf == old(buf) || fresh(buf)) && maxTokenSize == old(maxTokenSize)
        invariant Capacity(buf.Length, maxTokenSize) == old(Capacity(buf.Length, maxTokenSize))
        invariant (old(stalled) ==> stalled) && (stalled && !old(stalled) ==> err == Some(ErrNoProgress))
        invariant LeftOf(whole, passed, Rest()) && |Rest()| <= |whole|
        invariant Stable(split) && NoSkip(split) ==> skipped == 0
        invariant sure && !stalled ==> Healthy() && Tracks(split, whole, skipped, Rest())
        decreases err == None, |r.rest|
      {
        if end > start {
          ghost var (start0, left) := (start, Rest());
          hit, skipped := TryToken(whole, skipped, sure && !stalled);
          if hit.Some? {
            return;
          }
          LeftTwice(whole, passed, left, start - start0, Rest());
          passed := passed + (start - start0);
          assert LeftOf(whole, passed, Rest());
        }
        ghost var left := Rest();
        var ok := ReadOrGiveUp(whole, skipped, sure && !stalled);
        assert Rest() == left;
        if !ok {
          return Some(Stopped), skipped, passed;
        }
      }
      hit := None;
    }

    /** The split function has given d for what was buffered, from start0 to end0. */
    predicate ChanceTaken(d: Split, start0: nat, end0: nat, res: Outcome)
      reads this
    {
      && res == (if d.token.Some? then Token else Stopped) && token == d.token && 0 <= d.advance
      && (if res == Token then start == start0 + d.advance && end == end0 else start == end == 0)
    }

    /** With an error set the split function has its last chance with what is buffered. */
    method ScanAtError(ghost whole: bytes, ghost skipped: nat, ghost sure: bool)
        returns (res: Outcome, ghost skipped1: nat)
      requires Valid() && !done && err.Some?
      requires sure ==> Stable(split) && Healthy() && Tracks(split, whole, skipped, Rest())
      modifies this`start, this`end, this`err, this`token, this`empties, this`done
      ensures Valid() && |Rest()| <= |old(Rest())| && skipped1 == skipped
      ensures Stable(split) ==>
        var d := split(old(buf[start..end]), true);
        && ChanceTaken(d, old(start), old(end), res) && err == old(err) && !done
        && (res == Token ==> token == d.token && d.advance >= 0)
        && (res == Token ==> |Rest()| < |old(Rest())| && LeftOf(old(Rest()), d.advance, Rest()))
      ensures sure ==> Found(whole, skipped, res)
    {
      hide Stable, Tracks, NoSkip, LeftOf;
      var hit: Option<Outcome>;
      hit, skipped1 := TryToken(whole, skipped, sure);
      if hit.Some? {
        return hit.value, skipped1;
      }
      skipped1 := skipped;
      // nothing more is scanned
      start := 0;
      end := 0;
      return Stopped, skipped1;
    }
  }

  /** left is what remains of whole after skipped bytes, and decides whole's next token. */
  ghost predicate Tracks(split: SplitFunc, whole: bytes, skipped: nat, left: bytes) {
    && skipped <= |whole| && left == whole[skipped..]
    && split(whole, true) == Shift(skipped, split(left, true))
  }

  lemma EarlyTokenAt(split: SplitFunc, whole: bytes, i: nat, data: bytes, ext: bytes, rest: bytes)
    requires LeftOf(whole, i, data + ext)
    ensures i + |data| <= |whole| && whole[i..i + |data|] == data
    ensures var x := split(data, true);
      0 <= x.advance && LeftOf(whole, i + x.advance, rest) ==> EarlyToken(split, whole, i, i + |data|, x.token, rest)
  {
    assert whole[i..i + |data|] == whole[i..][..|data|] == data;
  }

  lemma TracksAll(split: SplitFunc, whole: bytes)
    ensures Tracks(split, whole, 0, whole)
  {
  }

  lemma TracksOn(split: SplitFunc, whole: bytes, skipped: nat, left: bytes, k: nat)
    requires Tracks(split, whole, skipped, left) && k <= |left|
    requires split(left, true) == Shift(k, split(left[k..], true))
    ensures Tracks(split, whole, skipped + k, left[k..])
  {
    assert whole[skipped..][k..] == whole[skipped + k..];
  }

  lemma TokenAt(split: SplitFunc, whole: bytes, skipped: nat, left: bytes)
    requires Stable(split) && Tracks(split, whole, skipped, left)
    ensures
      var (x, y) := (split(whole, true), split(left, true));
      && x.token == y.token && skipped <= |whole| && 0 <= y.advance <= |left|
        && x.advance == skipped + y.advance <= |whole|
      && whole[x.advance..] == left[y.advance..]
  {
    var k := split(left, true).advance;
    assert whole[skipped..][k..] == whole[skipped + k..];
  }

  /** What a stable split function's answer on the buffered bytes says of the whole input. */
  lemma SplitPrefix(split: SplitFunc, d: bytes, eof: bool, ext: bytes)
    requires Stable(split) && (eof ==> ext == [])
    ensures
      var (x, whole) := (split(d, eof), split(d + ext, true));
      && x.err == None && 0 <= x.advance <= |d| && (x.token.Some? ==> x.advance > 0)
      && (if eof || x.token.Some? then whole == x
          else whole == Shift(x.advance, split((d + ext)[x.advance..], true)))
  {
    assert eof ==> d + ext == d;
    var (whole, early) := (split(d + ext, true), split(d, false));
  }

  /** What the answer on the buffered bytes says of the input Scan was called on, when no error but EOF is set. */
  lemma HealthySplit(split: SplitFunc, whole: bytes, skipped: nat, data: bytes, eof: bool, ext: bytes)
    requires Stable(split) && Tracks(split, whole, skipped, data + ext) && (eof ==> ext == [])
    ensures
      var (d, x) := (split(data, eof), split(whole, true));
      && d.err == None && 0 <= d.advance <= |data|
      && (d.token.Some? || eof ==>
           && x.token == d.token && skipped <= |whole| && x.advance == skipped + d.advance <= |whole|
           && LeftOf(whole, x.advance, (data + ext)[d.advance..]))
      && (d.token == None && !eof ==>
           Tracks(split, whole, skipped + d.advance, (data + ext)[d.advance..]) &&
           (d.advance == 0 ==> d == Split(0, None, None)))
  {
    SplitPrefix(split, data, eof, ext);
    TokenAt(split, whole, skipped, data + ext);
    var d := split(data, eof);
    hide Stable;
    if d.token == None && !eof {
      TracksOn(split, whole, skipped, data + ext, d.advance);
    }
    hide Tracks;
  }

  lemma ChunkBehind(a: bytes, b: bytes, rest: bytes, start: nat, end: nat, n: nat)
    requires start <= end && end + n <= |a| == |b| && n <= |rest|
    requires b[..end] == a[..end] && b[end..end + n] == rest[..n]
    ensures b[start..end + n] + rest[n..] == a[start..end] + rest
  {
    assert b[start..end] == b[..end][start..] == a[..end][start..] == a[start..end];
    assert b[start..end + n] == b[start..end] + b[end..end + n];
    assert rest == rest[..n] + rest[n..];
  }

  // ---- ScanLines ----

  /** dropCR: without a "\r" at the end, if there is one. */
  function DropCR(data: bytes): bytes {
    if |data| > 0 && data[|data| - 1] == CR then data[..|data| - 1] else data
  }

  function ScanLines(data: bytes, atEOF: bool): Split {
    if atEOF && data == [] then Split(0, None, None)
    else
      var i := IndexByte(data, NL);
      if i >= 0 then Split(i + 1, Some(DropCR(data[..i])), None)
      else if atEOF then Split(|data|, Some(DropCR(data)), None) // the last one
      else Split(0, None, None)
  }

  function ScanBytes(data: bytes, atEOF: bool): Split {
    if data == [] then Split(0, None, None) else Split(1, Some(data[..1]), None)
  }

  lemma ScanLinesStable()
    ensures Stable(ScanLines)
  {
    forall d, ext: bytes {:trigger ScanLines(d + ext, true), ScanLines(d, false)}
      ensures
        var x := ScanLines(d, false);
        if x.token.Some? then ScanLines(d + ext, true) == x
        else ScanLines(d + ext, true) == Shift(x.advance, ScanLines((d + ext)[x.advance..], true))
    {
      var i := IndexByte(d, NL);
      if i >= 0 {
        assert (d + ext)[..i] == d[..i];
        assert forall k | 0 <= k < i :: (d + ext)[k] == d[k];
        IndexByteUnique(d + ext, NL, i);
      }
    }
  }

  lemma ScanBytesStable()
    ensures Stable(ScanBytes)
  {
    forall d, ext: bytes {:trigger ScanBytes(d + ext, true), ScanBytes(d, false)}
      ensures
        var x := ScanBytes(d, false);
        if x.token.Some? then ScanBytes(d + ext, true) == x
        else ScanBytes(d + ext, true) == Shift(x.advance, ScanBytes((d + ext)[x.advance..], true))
    {
      if d != [] {
        assert (d + ext)[..1] == d[..1];
      }
    }
  }

  /** The lines of a text: newline and one "\r" before it dropped, an unterminated last line included. */
  function Lines(s: bytes): seq<bytes> {
    if s == [] then []
    else
      var i := IndexByte(s, NL);
      if i < 0 then [DropCR(s)] else [DropCR(s[..i])] + Lines(s[i + 1..])
  }

  /** Each line with its end has at most max bytes; with strictly, a last line without "\n" has fewer. */
  ghost predicate LinesFit(s: bytes, max: nat, strictly: bool)
    decreases |s|
  {
    s == [] ||
    var i := IndexByte(s, NL);
    if i >= 0 then i < max && LinesFit(s[i + 1..], max, strictly) else |s| < max || (|s| == max && !strictly)
  }

  /** The text ends in a line of exactly max bytes without "\n". */
  predicate ExactTail(s: bytes, max: nat) {
    max <= |s| && NL !in s[|s| - max..] && (max == |s| || s[|s| - max - 1] == NL)
  }

  /** Only such a last line makes a difference. */
  lemma {:induction false} FitsButForTail(s: bytes, max: nat)
    requires max > 0
    ensures LinesFit(s, max, true) ==> LinesFit(s, max, false)
    ensures LinesFit(s, max, false) && !ExactTail(s, max) ==> LinesFit(s, max, true)
    decreases |s|
  {
    hide *;
    if s == [] {
      FitsNothing(max);
    } else if NL in s {
      var i := FitsStep(s, max);
      TailBehind(s, max, i);
      FitsButForTail(s[i + 1..], max);
    } else {
      FitsLast(s, max);
      TailAlone(s);
    }
  }

  lemma FitsNothing(max: nat)
    ensures LinesFit([], max, true) && LinesFit([], max, false)
  {
  }

  lemma FitsStep(s: bytes, max: nat) returns (i: nat)
    requires NL in s
    ensures i < |s| && s[i] == NL
    ensures forall strictly :: LinesFit(s, max, strictly) <==> i < max && LinesFit(s[i + 1..], max, strictly)
  {
    IndexByteAbsent(s, NL);
    i := IndexByte(s, NL);
    hide IndexByte;
  }

  lemma FitsLast(s: bytes, max: nat)
    requires s != [] && NL !in s
    ensures LinesFit(s, max, true) <==> |s| < max
    ensures LinesFit(s, max, false) <==> |s| <= max
  {
    IndexByteAbsent(s, NL);
    hide IndexByte;
  }

  lemma TailAlone(s: bytes)
    requires NL !in s
    ensures ExactTail(s, |s|)
  {
    assert s[0..] == s;
  }

  lemma TailBehind(s: bytes, max: nat, i: nat)
    requires max > 0 && i < |s| && s[i] == NL
    ensures ExactTail(s[i + 1..], max) ==> ExactTail(s, max)
  {
    var rest := s[i + 1..];
    if max <= |rest| {
      assert rest[|rest| - max..] == s[|s| - max..];
    }
  }

  /** One token of a text is its first line, and the rest of the text holds the other lines. */
  lemma FirstLine(s: bytes)
    ensures
      var x := ScanLines(s, true);
      && (x.token == None <==> s == [])
      && (x.token.Some? ==> 0 < x.advance <= |s| && Lines(s) == [x.token.value] + Lines(s[x.advance..]))
  {
    if s != [] && IndexByte(s, NL) < 0 {
      assert s[|s|..] == [];
    }
  }

  /** The lines of a text are what its lines were, whether they end in "\n" or "\r\n"; of a last line without
      "\n" a "\r" at the end is dropped too. */
  lemma {:induction false} LinesOfText(ls: seq<TextLine>, tail: bytes, cr: bool)
    requires AreLines(ls) && IsBody(tail)
    ensures Lines(TextOf(ls, tail + if cr then [CR] else []))
      == Bodies(ls) + if tail == [] && !cr then [] else [tail]
  {
    hide Lines, IsBody, LineText, IndexByte;
    var (end, last) := (tail + if cr then [CR] else [], if tail == [] && !cr then [] else [tail]);
    if ls == [] {
      TailBack(tail, cr);
      assert [] + last == last;
    } else {
      var (l, more) := (ls[0], ls[1..]);
      LinesOfText(more, tail, cr);
      LineInFront(l, TextOf(more, end));
      assert [l.body] + (Bodies(more) + last) == ([l.body] + Bodies(more)) + last;
    }
  }

  lemma LineInFront(l: TextLine, rest: bytes)
    requires IsBody(l.body)
    ensures Lines(LineText(l) + rest) == [l.body] + Lines(rest)
  {
    FirstEnd(l, rest);
    var b := l.body + if l.crlf then [CR] else [];
    assert b[..|l.body|] == l.body;
    assert DropCR(b) == l.body && LineText(l) + rest != [];
    hide IndexByte, DropCR, LineText;
  }

  lemma TailBack(tail: bytes, cr: bool)
    requires IsBody(tail)
    ensures Lines(tail + if cr then [CR] else []) == if tail == [] && !cr then [] else [tail]
  {
    var end := tail + if cr then [CR] else [];
    assert NL !in end;
    IndexByteAbsent(end, NL);
    hide IndexByte;
    if cr {
      assert end[|tail|] == CR && end[..|tail|] == tail;
    } else {
      assert end == tail;
    }
  }

  /** Where the documented loop stands: the tokens so far, and the lines still ahead. */
  ghost predicate Reading(s: Scanner, whole: bytes, tokens: seq<bytes>)
    reads s, s.buf, s.r
  {
    && s.Valid() && !s.done && s.split == ScanLines
    && (!s.stalled ==> s.Healthy() && Ahead(whole, tokens, s.Rest(), Capacity(s.buf.Length, s.maxTokenSize)))
  }

  /** What has been read of whole and what is ahead make its lines, and decide alike whether they fit. */
  ghost predicate Ahead(whole: bytes, tokens: seq<bytes>, rest: bytes, max: nat) {
    && tokens + Lines(rest) == Lines(whole)
    && (LinesFit(rest, max, false) ==> LinesFit(whole, max, false))
    && (LinesFit(whole, max, true) ==> LinesFit(rest, max, true))
  }

  /** The documented loop has ended: at the end of the input, having yielded its lines, or at a line that
      does not fit the largest buffer. Which of the two is decided by the lines alone, but for a last line
      that fills the buffer exactly: then it depends on whether EOF comes with its last byte or behind it. */
  ghost predicate Ended(whole: bytes, tokens: seq<bytes>, rest: bytes, max: nat, healthy: bool) {
    && tokens + Lines(rest) == Lines(whole)
    && (healthy ==> tokens == Lines(whole) && LinesFit(whole, max, false))
    && (!healthy ==> max == 0 || !LinesFit(whole, max, true))
    && (max > 0 && !ExactTail(whole, max) ==> (healthy <==> LinesFit(whole, max, false)))
  }

  ghost predicate ReadUp(s: Scanner, whole: bytes, tokens: seq<bytes>)
    reads s, s.buf, s.r
  {
    s.Valid() &&
    (!s.stalled ==> Ended(whole, tokens, s.Rest(), Capacity(s.buf.Length, s.maxTokenSize), s.Healthy()))
  }

  /** The documented loop: for scanner.Scan() { ... scanner.Bytes() ... } */
  method ScanAllLines(s: Scanner) returns (tokens: seq<bytes>)
    requires s.Valid() && s.split == ScanLines && s.Healthy() && !s.done && !s.stalled
    modifies s, s.buf, s.r`rest
    ensures ReadUp(s, old(s.Rest()), tokens)
    ensures Capacity(s.buf.Length, s.maxTokenSize) == old(Capacity(s.buf.Length, s.maxTokenSize))
  {
    tokens := [];
    ghost var whole := s.Rest();
    ghost var max := Capacity(s.buf.Length, s.maxTokenSize);
    assert Ahead(whole, [], whole, max) by { assert [] + Lines(whole) == Lines(whole); }
    hide Lines, LinesFit, Ahead, Capacity;
    while true
      invariant Reading(s, whole, tokens) && Capacity(s.buf.Length, s.maxTokenSize) == max
      invariant s.buf == old(s.buf) || fresh(s.buf)
      decreases |s.Rest()|
    {
      var more;
      more, tokens := ScanNext(s, tokens, whole);
      if !more {
        break;
      }
    }
  }

  /** So the loop gives back the lines a text was made of, if they fit the largest buffer. */
  method ScanText(s: Scanner, ghost ls: seq<TextLine>, ghost tail: bytes, ghost cr: bool) returns (tokens: seq<bytes>)
    requires s.Valid() && s.split == ScanLines && s.Healthy() && !s.done && !s.stalled
    requires AreLines(ls) && IsBody(tail) && s.Rest() == TextOf(ls, tail + if cr then [CR] else [])
    modifies s, s.buf, s.r`rest
    ensures var max := old(Capacity(s.buf.Length, s.maxTokenSize));
      !s.stalled && max > 0 && LinesFit(old(s.Rest()), max, true) ==>
        tokens == Bodies(ls) + if tail == [] && !cr then [] else [tail]
  {
    hide Lines, TextOf, LinesFit, Capacity;
    LinesOfText(ls, tail, cr);
    ghost var (whole, max) := (s.Rest(), Capacity(s.buf.Length, s.maxTokenSize));
    tokens := ScanAllLines(s);
  }

  /** One turn of the loop: the next line, or the end. */
  method ScanNext(s: Scanner, tokens: seq<bytes>, ghost whole: bytes) returns (more: bool, tokens1: seq<bytes>)
    requires Reading(s, whole, tokens)
    modifies s, s.buf, s.r`rest
    ensures s.Valid() && (s.buf == old(s.buf) || fresh(s.buf))
    ensures Capacity(s.buf.Length, s.maxTokenSize) == old(Capacity(s.buf.Length, s.maxTokenSize))
    ensures more ==> Reading(s, whole, tokens1) && |s.Rest()| < |old(s.Rest())|
    ensures !more ==> ReadUp(s, whole, tokens1)
  {
    ScanLinesStable();
    ScanLinesNoSkip();
    ghost var left := s.Rest();
    ghost var max := Capacity(s.buf.Length, s.maxTokenSize);
    hide Stable, NoSkip, LinesFit, Ahead, Ended, Lines, ScanLines, Tracks, IndexByte, DropCR, Capacity, LeftOf,
      ExactTail;
    tokens1 := tokens;
    more := s.ScanWell();
    if more {
      if !s.stalled {
        CapacityCovers(s.buf.Length, s.maxTokenSize);
        NextLine(whole, tokens, left, s.Rest(), s.Text(), max);
      }
      tokens1 := tokens + [s.Text()];
    } else if !s.stalled {
      if s.Healthy() {
        LastLine(whole, tokens, left, max);
      } else {
        TooLongLine(whole, tokens, left, s.Rest(), s.buf[..], max);
      }
    }
  }

  lemma CapacityCovers(len: nat, max: int)
    ensures len <= Capacity(len, max)
  {
  }

  lemma NextLine(whole: bytes, tokens: seq<bytes>, left: bytes, rest: bytes, token: bytes, max: nat)
    requires Ahead(whole, tokens, left, max)
    requires var x := ScanLines(left, true);
      x.token == Some(token) && 0 <= x.advance <= max && LeftOf(left, x.advance, rest)
    ensures Ahead(whole, tokens + [token], rest, max)
  {
    FirstLine(left);
    LineTaken(left, max);
    hide Lines, LinesFit, ScanLines;
    var others := Lines(rest);
    assert (tokens + [token]) + others == tokens + ([token] + others);
  }

  lemma LineTaken(s: bytes, max: nat)
    requires var x := ScanLines(s, true); x.token.Some? && 0 <= x.advance <= max
    ensures var x := ScanLines(s, true);
      x.advance <= |s| && (LinesFit(s[x.advance..], max, false) ==> LinesFit(s, max, false)) &&
      (LinesFit(s, max, true) ==> LinesFit(s[x.advance..], max, true))
  {
    assert s[|s|..] == [];
  }

  lemma LastLine(whole: bytes, tokens: seq<bytes>, left: bytes, max: nat)
    requires Ahead(whole, tokens, left, max) && ScanLines(left, true).token == None
    ensures Ended(whole, tokens, [], max, true)
  {
    FirstLine(left);
    assert tokens + [] == tokens;
  }

  /** The buffer is exhausted by a line that does not fit; its lines are still all ahead. */
  lemma TooLongLine(whole: bytes, tokens: seq<bytes>, left: bytes, rest: bytes, buf: bytes, max: nat)
    requires Ahead(whole, tokens, left, max) && rest == left
    requires buf <= rest && |buf| == max
    requires max > 0 ==> ScanLines(buf, false) == Split(0, None, None)
    ensures Ended(whole, tokens, rest, max, false)
  {
    if max > 0 {
      assert forall k | 0 <= k < max :: left[k] == buf[k];
      IndexByteAbsent(buf, NL);
      FitsButForTail(whole, max);
    }
    hide Lines;
  }

  // ---- After an error ----

  lemma ScanLinesNoSkip()
    ensures NoSkip(ScanLines)
  {
  }

  /** The documentation has scanning stop for good at a token that is too large. The code yields the part of
      it that is in the buffer, if the buffer has any room, and stops only then. */
  method ScanPastTooLong(s: Scanner) returns (first: Outcome, part: bytes, second: Outcome)
    requires s.Valid() && !s.done && s.split == ScanLines && s.BufferExhausted()
    modifies s, s.buf, s.r`rest
    ensures first == if old(s.buf.Length) > 0 then Token else Stopped
    ensures first == Token ==> part == DropCR(old(s.buf[..]))
    ensures second == Stopped && s.stalled == old(s.stalled)
  {
    ScanLinesStable();
    ghost var data := s.buf[..];
    assert ScanLines([], true) == Split(0, None, None);
    assert data != [] ==> ScanLines(data, true) == Split(|data|, Some(DropCR(data)), None);
    hide Stable, ScanLines, Tracks, LeftOf, Capacity;
    ghost var k;
    assert s.buf[s.start..s.end] == data;
    first, k := s.Scan();
    part := s.Text();
    assert s.buf[s.start..s.end] == [];
    second, k := s.Scan();
  }

  /** An example: of "aa" a buffer that holds one byte and may not grow gives ErrTooLong, then "a", then no more. */
  method ScanShortBuffer() returns (s: Scanner, first: Outcome, second: Outcome, part: bytes, third: Outcome)
    ensures fresh(s) && (!s.stalled ==> first == Stopped && second == Token && part == [97] && third == Stopped)
  {
    var r := new ByteSource([97, 97], EOF);
    var buf := new byte[1];
    s := new Scanner(r, ScanLines, buf, 1);
    ghost var whole := s.Rest();
    assert s.buf.Length == Capacity(s.buf.Length, s.maxTokenSize) == 1;
    ScanLinesStable();
    ScanLinesNoSkip();
    assert ScanLines(whole, true).token.Some? && ScanLines(whole, true).advance == 2;
    hide Stable, NoSkip, ScanLines;
    ghost var k;
    first, k := s.Scan();
    CapacityCovers(s.buf.Length, s.maxTokenSize);
    if !s.stalled {
      assert first == Stopped && s.BufferExhausted() && s.Rest() == whole;
      assert s.buf[..][0] == whole[0] && s.buf[..] == [97];
    }
    second, part, third := Stopped, [], Stopped;
    if s.err == Some(ErrTooLong) && s.start == 0 && s.end == 1 && s.buf[..] == [97] {
      ALetterIsNoLine();
      second, part, third := ScanPastTooLong(s);
    }
  }

  lemma ALetterIsNoLine()
    ensures ScanLines([97], false) == Split(0, None, None) && DropCR([97]) == [97]
  {
  }
}
