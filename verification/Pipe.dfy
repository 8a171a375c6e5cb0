/**
 io/pipe.go as a step machine: any number of goroutines inside Read, Write,
 CloseRead and CloseWrite, interleaved at every channel, mutex and atomic
 operation. The two unbuffered channels are handshakes between a reader and a
 writer.
 */
module Pipe {
  import opened Bytes

  datatype Error = EOF | ErrClosedPipe | Other(id: nat)

  /** Where a goroutine stands in its call; b of Write is whole[n..]. */
  datatype Op =
    | ReadStart(cap: nat)
    | ReadWait(cap: nat) // second select
    | ReadCopied(data: bytes) // received from wrCh and copied, sending on rdCh
    | ReadClosing // saw done
    | ReadLoaded(loaded: Option<Error>) // rerr loaded, werr not yet
    | ReadDone(data: bytes, err: Option<Error>)
    | WriteStart(whole: bytes)
    | WriteLock(whole: bytes) // done was open: waiting for wrMu
    | WriteLoop(whole: bytes, n: nat, once: bool) // at the loop condition
    | WriteSent(whole: bytes, n: nat) // sent on wrCh, receiving from rdCh
    | WriteClosing(whole: bytes, n: nat, locked: bool) // saw done
    | WriteLoaded(whole: bytes, n: nat, locked: bool, loaded: Option<Error>) // werr loaded, rerr not yet
    | WriteReturn(whole: bytes, n: nat, err: Option<Error>) // deferred Unlock left
    | WriteDone(whole: bytes, n: nat, err: Option<Error>)
    | CloseStart(reader: bool, arg: Option<Error>)
    | CloseStored(reader: bool)
    | CloseDone

  /** One completed transfer: data copied from one Write into one Read. */
  datatype Chunk = Chunk(writer: nat, reader: nat, data: bytes)

  datatype State = State(
    ops: map<nat, Op>,
    wrMu: Option<nat>,
    once: bool, // done.once: the function was called
    done: bool, // the channel is closed
    panicked: bool, // it was closed again
    rerr: Option<Error>,
    werr: Option<Error>,
    // history
    pair: Option<(nat, nat)>, // the writer and reader between the two handshakes
    log: seq<Chunk>, // transfers, in handshake order
    order: seq<nat>, // writers, in the order they took wrMu
    rstored: set<Error>, // every error CloseRead has stored
    wstored: set<Error>, // every error CloseWrite has stored
    late: set<nat>) // calls begun after done was closed

  datatype Action =
    | Begin(i: nat, op: Op)
    | ReadCheck(i: nat)
    | ReadSeesDone(i: nat)
    | ReadLoadR(i: nat)
    | ReadLoadW(i: nat)
    | WriteCheck(i: nat)
    | WriteAcquire(i: nat)
    | Send(i: nat, r: nat)
    | Ack(i: nat, r: nat)
    | WriteSeesDone(i: nat)
    | WriteLoadW(i: nat)
    | WriteLoadR(i: nat)
    | WriteExit(i: nat)
    | WriteUnlock(i: nat)
    | CloseStore(i: nat)
    | CloseOnce(i: nat)

  const INIT := State(map[], None, false, false, false, None, None, None, [], [], {}, {}, {})

  predicate IsStart(op: Op) {
    op.ReadStart? || op.WriteStart? || op.CloseStart?
  }

  /** once || len(b) > 0 */
  predicate LoopContinues(op: Op)
    requires op.WriteLoop?
  {
    op.once || op.n < |op.whole|
  }

  predicate Enabled(s: State, a: Action) {
    match a
    case Begin(i, op) => i !in s.ops && IsStart(op)
    case ReadCheck(i) => i in s.ops && s.ops[i].ReadStart?
    case ReadSeesDone(i) => i in s.ops && s.ops[i].ReadWait? && s.done
    case ReadLoadR(i) => i in s.ops && s.ops[i].ReadClosing?
    case ReadLoadW(i) => i in s.ops && s.ops[i].ReadLoaded?
    case WriteCheck(i) => i in s.ops && s.ops[i].WriteStart?
    case WriteAcquire(i) => i in s.ops && s.ops[i].WriteLock? && s.wrMu == None
    case Send(i, r) =>
      && i in s.ops && s.ops[i].WriteLoop? && LoopContinues(s.ops[i])
      && s.ops[i].n <= |s.ops[i].whole|
      && r in s.ops && s.ops[r].ReadWait?
    case Ack(i, r) => i in s.ops && s.ops[i].WriteSent? && r in s.ops && s.ops[r].ReadCopied?
    case WriteSeesDone(i) => i in s.ops && s.ops[i].WriteLoop? && LoopContinues(s.ops[i]) && s.done
    case WriteLoadW(i) => i in s.ops && s.ops[i].WriteClosing?
    case WriteLoadR(i) => i in s.ops && s.ops[i].WriteLoaded?
    case WriteExit(i) => i in s.ops && s.ops[i].WriteLoop? && !LoopContinues(s.ops[i])
    case WriteUnlock(i) => i in s.ops && s.ops[i].WriteReturn?
    case CloseStore(i) => i in s.ops && s.ops[i].CloseStart?
    case CloseOnce(i) => i in s.ops && s.ops[i].CloseStored?
  }

  /** copy(b, bw) */
  function Copied(cap: nat, bw: bytes): (data: bytes)
    ensures data <= bw
  {
    if cap <= |bw| then bw[..cap] else bw
  }

  /** readCloseError and writeCloseError: own is this side's error, other the far side's. */
  function CloseError(own: Option<Error>, other: Option<Error>): Error {
    if own == None && other.Some? then other.value else ErrClosedPipe
  }

  /** Where the acting call goes. */
  function Next(s: State, a: Action): Op
    requires Enabled(s, a)
  {
    match a
    case Begin(i, op) => op
    case ReadCheck(i) => if s.done then ReadClosing else ReadWait(s.ops[i].cap)
    case ReadSeesDone(i) => ReadClosing
    case ReadLoadR(i) => ReadLoaded(s.rerr)
    case ReadLoadW(i) => ReadDone([], Some(CloseError(s.ops[i].loaded, s.werr)))
    case WriteCheck(i) =>
      if s.done then WriteClosing(s.ops[i].whole, 0, false) else WriteLock(s.ops[i].whole)
    case WriteAcquire(i) => WriteLoop(s.ops[i].whole, 0, true)
    case Send(i, r) => WriteSent(s.ops[i].whole, s.ops[i].n)
    case Ack(i, r) => WriteLoop(s.ops[i].whole, s.ops[i].n + |s.ops[r].data|, false)
    case WriteSeesDone(i) => WriteClosing(s.ops[i].whole, s.ops[i].n, true)
    case WriteLoadW(i) => WriteLoaded(s.ops[i].whole, s.ops[i].n, s.ops[i].locked, s.werr)
    case WriteLoadR(i) =>
      var w := s.ops[i];
      var err := Some(CloseError(w.loaded, s.rerr));
      if w.locked then WriteReturn(w.whole, w.n, err) else WriteDone(w.whole, w.n, err)
    case WriteExit(i) => WriteReturn(s.ops[i].whole, s.ops[i].n, None)
    case WriteUnlock(i) => WriteDone(s.ops[i].whole, s.ops[i].n, s.ops[i].err)
    case CloseStore(i) => CloseStored(s.ops[i].reader)
    case CloseOnce(i) => CloseDone
  }

  /** Where the reader of a handshake goes. */
  function NextReader(s: State, a: Action): Op
    requires Enabled(s, a) && (a.Send? || a.Ack?)
  {
    if a.Send? then ReadCopied(Copied(s.ops[a.r].cap, s.ops[a.i].whole[s.ops[a.i].n..]))
    else ReadDone(s.ops[a.r].data, None)
  }

  function Apply(s: State, a: Action): State
    requires Enabled(s, a)
  {
    var ops := s.ops[a.i := Next(s, a)];
    match a
    case Begin(i, _) => s.(ops := ops, late := if s.done then s.late + {i} else s.late)
    case WriteAcquire(i) => s.(ops := ops, wrMu := Some(i), order := s.order + [i])
    case WriteUnlock(_) => s.(ops := ops, wrMu := None)
    case Send(i, r) => s.(ops := ops[r := NextReader(s, a)], pair := Some((i, r)))
    case Ack(i, r) =>
      s.(ops := ops[r := NextReader(s, a)], pair := None, log := s.log + [Chunk(i, r, s.ops[r].data)])
    case CloseStore(i) =>
      var c := s.ops[i];
      if c.reader then
        var e := if c.arg.Some? then c.arg.value else ErrClosedPipe;
        s.(ops := ops, rerr := Some(e), rstored := s.rstored + {e})
      else
        var e := if c.arg.Some? then c.arg.value else EOF;
        s.(ops := ops, werr := Some(e), wstored := s.wstored + {e})
    case CloseOnce(_) =>
      if s.once then s.(ops := ops) else s.(ops := ops, once := true, done := true, panicked := s.panicked || s.done)
    case _ => s.(ops := ops)
  }

  /** A run from a fresh pipe. */
  ghost predicate Run(acts: seq<Action>, s: State)
  {
    if acts == [] then s == INIT
    else
      var last := |acts| - 1;
      exists t: State :: Run(acts[..last], t) && Enabled(t, acts[last]) && s == Apply(t, acts[last])
  }

  // ---- The invariant ----

  predicate Holds(op: Op) {
    || op.WriteLoop? || op.WriteSent? || op.WriteReturn?
    || (op.WriteClosing? && op.locked) || (op.WriteLoaded? && op.locked)
  }

  predicate IsWrite(op: Op) {
    || op.WriteStart? || op.WriteLock? || op.WriteLoop? || op.WriteSent?
    || op.WriteClosing? || op.WriteLoaded? || op.WriteReturn? || op.WriteDone?
  }

  /** How far a Write has got. */
  function Taken(op: Op): nat {
    if op.WriteLoop? || op.WriteSent? || op.WriteClosing? || op.WriteLoaded? || op.WriteReturn? || op.WriteDone?
    then op.n else 0
  }

  /** The bytes a Write has handed over. */
  function Prefix(op: Op): bytes {
    if IsWrite(op) && Taken(op) <= |op.whole| then op.whole[..Taken(op)] else []
  }

  predicate WaitsForLock(op: Op) {
    op.WriteStart? || op.WriteLock? || (op.WriteClosing? && !op.locked) || (op.WriteLoaded? && !op.locked)
  }

  /** What one call's local state must satisfy, given the close errors. */
  predicate OpOk(s: State, op: Op) {
    match op
    case ReadClosing => s.done
    case ReadLoaded(l) => s.done && (l == None ==> s.werr.Some?) && (l.Some? ==> s.rerr.Some?)
    case ReadDone(data, err) =>
      err.Some? ==> data == [] && (err.value in s.wstored || (err.value == ErrClosedPipe && s.rerr.Some?))
    case WriteLoop(whole, n, once) => n <= |whole| && (once ==> n == 0)
    case WriteSent(whole, n) => n < |whole| || whole == []
    case WriteClosing(whole, n, locked) =>
      s.done && (n < |whole| || (whole == [] && n == 0)) && (!locked ==> n == 0)
    case WriteLoaded(whole, n, locked, l) =>
      && s.done && (n < |whole| || (whole == [] && n == 0)) && (!locked ==> n == 0)
      && (l == None ==> s.rerr.Some?) && (l.Some? ==> s.werr.Some?)
    case WriteReturn(whole, n, err) => n <= |whole| && ResultOk(s, whole, n, err)
    case WriteDone(whole, n, err) => n <= |whole| && ResultOk(s, whole, n, err)
    case CloseStored(reader) => if reader then s.rerr.Some? else s.werr.Some?
    case _ => true
  }

  predicate ResultOk(s: State, whole: bytes, n: nat, err: Option<Error>) {
    if err == None then n == |whole|
    else
      && (n < |whole| || whole == [])
      && (err.value in s.rstored || (err.value == ErrClosedPipe && s.werr.Some?))
  }

  predicate ErrorsOk(s: State) {
    && s.once == s.done && !s.panicked
    && (s.done ==> s.rerr.Some? || s.werr.Some?)
    && (s.rerr.Some? ==> s.rerr.value in s.rstored)
    && (s.werr.Some? ==> s.werr.value in s.wstored)
    && forall i | i in s.ops :: OpOk(s, s.ops[i])
  }

  /** The mutex and the pair between the handshakes. */
  predicate LockOk(s: State) {
    && (forall i | i in s.ops :: Holds(s.ops[i]) <==> s.wrMu == Some(i))
    && (s.wrMu.Some? ==> s.wrMu.value in s.ops && s.order != [] && s.order[|s.order| - 1] == s.wrMu.value)
    && PairOk(s)
  }

  predicate PairOk(s: State) {
    && (forall i | i in s.ops && s.ops[i].WriteSent? :: s.pair.Some? && s.pair.value.0 == i)
    && (forall i | i in s.ops && s.ops[i].ReadCopied? :: s.pair.Some? && s.pair.value.1 == i)
    && (s.pair.Some? ==>
      var (w, r) := s.pair.value;
      && w in s.ops && r in s.ops && s.ops[w].WriteSent? && s.ops[r].ReadCopied?
      && s.ops[w].n <= |s.ops[w].whole|
      && s.ops[r].data <= s.ops[w].whole[s.ops[w].n..])
  }

  /** The bytes transferred, in handshake order. */
  function Transferred(log: seq<Chunk>): bytes {
    if log == [] then [] else Transferred(log[..|log| - 1]) + log[|log| - 1].data
  }

  /** The consumed prefixes of the Writes, in lock order. */
  function Consumed(order: seq<nat>, ops: map<nat, Op>): bytes {
    if order == [] then []
    else
      var w := order[|order| - 1];
      Consumed(order[..|order| - 1], ops) + (if w in ops then Prefix(ops[w]) else [])
  }

  /** A Write that has taken the lock at some time. */
  predicate Entered(s: State, i: nat) {
    i in s.ops && IsWrite(s.ops[i]) && !WaitsForLock(s.ops[i])
  }

  predicate Distinct(order: seq<nat>) {
    forall k, l | 0 <= k < l < |order| :: order[k] != order[l]
  }

  predicate OrderOk(s: State) {
    && Distinct(s.order)
    && (forall i | i in s.order :: Entered(s, i))
    && (forall i | i in s.ops && i !in s.order :: Taken(s.ops[i]) == 0)
  }

  /** The bytes taken from one Write. */
  function FromWriter(log: seq<Chunk>, w: nat): bytes {
    if log == [] then []
    else
      var last := log[|log| - 1];
      FromWriter(log[..|log| - 1], w) + (if last.writer == w then last.data else [])
  }

  predicate FlowOk(order: seq<nat>, log: seq<Chunk>, ops: map<nat, Op>) {
    && Transferred(log) == Consumed(order, ops)
    && (forall i | i in ops :: FromWriter(log, i) == Prefix(ops[i]))
    && (forall c | c in log :: c.writer in order)
  }

  predicate ReadersOk(s: State) {
    && (forall k | 0 <= k < |s.log| ::
         s.log[k].reader in s.ops && s.ops[s.log[k].reader] == ReadDone(s.log[k].data, None))
    && (forall k, l | 0 <= k < l < |s.log| :: s.log[k].reader != s.log[l].reader)
    && (forall i | i in s.ops && s.ops[i].ReadDone? && s.ops[i].err == None ::
         exists k :: 0 <= k < |s.log| && s.log[k].reader == i)
  }

  /** A call that has moved, or may still move, bytes. */
  predicate MayTransfer(op: Op) {
    || op.ReadWait? || op.ReadCopied? || (op.ReadDone? && op.err == None)
    || op.WriteLock? || Holds(op) || (op.WriteDone? && (op.err == None || op.n > 0))
  }

  predicate LateOk(s: State) {
    forall i | i in s.late :: s.done && i in s.ops && !MayTransfer(s.ops[i])
  }

  predicate Inv(s: State) {
    ErrorsOk(s) && LockOk(s) && OrderOk(s) && FlowOk(s.order, s.log, s.ops) && ReadersOk(s) && LateOk(s)
  }

  // ---- Every step keeps the invariant ----

  ghost predicate Grown(s: State, t: State) {
    && (s.done ==> t.done) && s.rstored <= t.rstored && s.wstored <= t.wstored
    && (s.rerr.Some? ==> t.rerr.Some?) && (s.werr.Some? ==> t.werr.Some?)
  }

  lemma StepGrows(s: State, a: Action)
    requires Enabled(s, a)
    ensures Grown(s, Apply(s, a))
  {
    hide Next, NextReader, Enabled;
  }

  predicate Handshake(a: Action) {
    a.Send? || a.Ack?
  }

  /** An action moves its own call, and in a handshake the reader. */
  lemma Moved(s: State, a: Action)
    requires Enabled(s, a)
    ensures
      var t := Apply(s, a);
      && t.ops.Keys == s.ops.Keys + {a.i}
      && t.ops[a.i] == Next(s, a)
      && (Handshake(a) ==> a.r in s.ops && a.r != a.i && t.ops[a.r] == NextReader(s, a))
      && forall i | i in s.ops && i != a.i && !(Handshake(a) && i == a.r) :: t.ops[i] == s.ops[i]
  {
    hide Next, NextReader;
    assert Handshake(a) ==> a.i in s.ops && a.r in s.ops && a.r != a.i;
  }

  /** The mutex and the history an action touches. */
  lemma FieldsAfter(s: State, a: Action)
    requires Enabled(s, a)
    ensures
      var t := Apply(s, a);
      && t.order == (if a.WriteAcquire? then s.order + [a.i] else s.order)
      && t.log == (if a.Ack? then s.log + [Chunk(a.i, a.r, s.ops[a.r].data)] else s.log)
      && t.pair == (if a.Send? then Some((a.i, a.r)) else if a.Ack? then None else s.pair)
      && t.wrMu == (if a.WriteAcquire? then Some(a.i) else if a.WriteUnlock? then None else s.wrMu)
      && t.late == (if a.Begin? && s.done then s.late + {a.i} else s.late)
  {
    hide Next, NextReader;
  }

  lemma OpOkGrows(s: State, t: State, op: Op)
    requires OpOk(s, op) && Grown(s, t)
    ensures OpOk(t, op)
  {
  }

  lemma MovedOpOk(s: State, a: Action)
    requires ErrorsOk(s) && LockOk(s) && Enabled(s, a)
    ensures OpOk(Apply(s, a), Next(s, a))
    ensures Handshake(a) ==> OpOk(Apply(s, a), NextReader(s, a))
  {
    hide OpOk, Apply, Next, NextReader;
    if Handshake(a) {
      ReaderOpOk(s, a);
    }
    ActorOpOk(s, a);
  }

  lemma ReaderOpOk(s: State, a: Action)
    requires LockOk(s) && Enabled(s, a) && Handshake(a)
    ensures OpOk(Apply(s, a), NextReader(s, a))
  {
    hide LockOk;
  }

  lemma ActorOpOk(s: State, a: Action)
    requires ErrorsOk(s) && LockOk(s) && Enabled(s, a)
    ensures OpOk(Apply(s, a), Next(s, a))
  {
    if a.Ack? {
      AckedOpOk(s, a);
    } else {
      assert !a.Begin? ==> OpOk(s, s.ops[a.i]);
      hide LockOk, OpOk, Apply, Next;
      if a.WriteLoadW? || a.WriteLoadR? || a.WriteExit? || a.WriteUnlock? {
        LeavingOpOk(s, a);
      } else {
        OtherOpOk(s, a);
      }
    }
  }

  lemma AckedOpOk(s: State, a: Action)
    requires LockOk(s) && Enabled(s, a) && a.Ack?
    ensures OpOk(Apply(s, a), Next(s, a))
  {
    assert s.pair == Some((a.i, a.r));
  }

  lemma LeavingOpOk(s: State, a: Action)
    requires ErrorsOk(s) && Enabled(s, a) && (a.WriteLoadW? || a.WriteLoadR? || a.WriteExit? || a.WriteUnlock?)
    requires OpOk(s, s.ops[a.i])
    ensures OpOk(Apply(s, a), Next(s, a))
  {
  }

  lemma OtherOpOk(s: State, a: Action)
    requires ErrorsOk(s) && Enabled(s, a) && !a.Ack?
    requires !a.WriteLoadW? && !a.WriteLoadR? && !a.WriteExit? && !a.WriteUnlock?
    requires a.Begin? || OpOk(s, s.ops[a.i])
    ensures OpOk(Apply(s, a), Next(s, a))
  {
  }

  lemma ErrorsKept(s: State, a: Action)
    requires ErrorsOk(s) && LockOk(s) && Enabled(s, a)
    ensures ErrorsOk(Apply(s, a))
  {
    var t := Apply(s, a);
    StepGrows(s, a);
    Moved(s, a);
    MovedOpOk(s, a);
    ErrorCells(s, a);
    hide Apply, Next, NextReader, Enabled, OpOk;
    forall i | i in t.ops
      ensures OpOk(t, t.ops[i])
    {
      if i != a.i && !(Handshake(a) && i == a.r) {
        OpOkGrows(s, t, s.ops[i]);
      }
    }
  }

  lemma ErrorCells(s: State, a: Action)
    requires ErrorsOk(s) && Enabled(s, a)
    ensures
      var t := Apply(s, a);
      && t.once == t.done && !t.panicked
      && (t.done ==> t.rerr.Some? || t.werr.Some?)
      && (t.rerr.Some? ==> t.rerr.value in t.rstored)
      && (t.werr.Some? ==> t.werr.value in t.wstored)
  {
    if a.CloseOnce? {
      assert OpOk(s, s.ops[a.i]);
    }
    hide Next, NextReader;
  }

  /** Holding the lock changes only with the lock. */
  lemma MovedHolder(s: State, a: Action)
    requires Enabled(s, a)
    ensures Holds(Next(s, a)) <==> (a.WriteAcquire? || (a.i in s.ops && Holds(s.ops[a.i]) && !a.WriteUnlock?))
    ensures Handshake(a) ==> !Holds(s.ops[a.r]) && !Holds(NextReader(s, a))
    ensures a.WriteUnlock? ==> Holds(s.ops[a.i])
  {
  }

  lemma HoldersKept(s: State, a: Action)
    requires LockOk(s) && Enabled(s, a)
    ensures var t := Apply(s, a); forall i | i in t.ops :: Holds(t.ops[i]) <==> t.wrMu == Some(i)
  {
    Moved(s, a);
    MovedHolder(s, a);
    var t := Apply(s, a);
    FieldsAfter(s, a);
    assert a.WriteAcquire? ==> s.wrMu == None;
    assert a.Begin? ==> a.i !in s.ops;
    hide Apply, Next, NextReader, Enabled, Holds;
  }

  lemma PairKept(s: State, a: Action)
    requires LockOk(s) && Enabled(s, a)
    ensures PairOk(Apply(s, a))
  {
    if a.Send? {
      PairMade(s, a);
    } else {
      PairKeptOrTaken(s, a);
    }
    hide PairOk, LockOk, Enabled, Apply;
  }

  lemma PairMade(s: State, a: Action)
    requires LockOk(s) && Enabled(s, a) && a.Send?
    ensures PairOk(Apply(s, a))
  {
    Moved(s, a);
    FieldsAfter(s, a);
    assert Holds(s.ops[a.i]);
    assert s.pair == None;
  }

  lemma PairKeptOrTaken(s: State, a: Action)
    requires LockOk(s) && Enabled(s, a) && !a.Send?
    ensures PairOk(Apply(s, a))
  {
    assert a.Ack? ==> s.pair == Some((a.i, a.r));
    Moved(s, a);
    MovedPair(s, a);
    FieldsAfter(s, a);
    var t := Apply(s, a);
    hide *;
    LockHasPair(s);
    if a.Ack? {
      PairTaken(s, t, a.i, a.r);
    } else {
      PairStays(s, t, a.i);
    }
  }

  lemma LockHasPair(s: State)
    requires LockOk(s)
    ensures PairOk(s)
  {
  }

  predicate InPair(op: Op) {
    op.WriteSent? || op.ReadCopied?
  }

  lemma PairTaken(s: State, t: State, w: nat, r: nat)
    requires PairOk(s) && s.pair == Some((w, r)) && t.pair == None && t.ops.Keys == s.ops.Keys + {w}
    requires w in t.ops && r in t.ops && !InPair(t.ops[w]) && !InPair(t.ops[r])
    requires forall i | i in s.ops && i != w && i != r :: t.ops[i] == s.ops[i]
    ensures PairOk(t)
  {
  }

  lemma PairStays(s: State, t: State, k: nat)
    requires PairOk(s) && t.pair == s.pair && t.ops.Keys == s.ops.Keys + {k}
    requires !InPair(t.ops[k]) && (k in s.ops ==> !InPair(s.ops[k]))
    requires forall i | i in s.ops && i != k :: t.ops[i] == s.ops[i]
    ensures PairOk(t)
  {
  }

  lemma MovedPair(s: State, a: Action)
    requires Enabled(s, a)
    ensures a.Send? || !InPair(Next(s, a))
    ensures a.Ack? || (a.i in s.ops ==> !InPair(s.ops[a.i]))
    ensures a.Ack? ==> !InPair(NextReader(s, a))
  {
  }

  lemma LockKept(s: State, a: Action)
    requires LockOk(s) && Enabled(s, a)
    ensures LockOk(Apply(s, a))
  {
    HoldersKept(s, a);
    PairKept(s, a);
    Moved(s, a);
    FieldsAfter(s, a);
    hide PairOk, Holds, Next, NextReader, Apply;
  }

  lemma OrderKept(s: State, a: Action)
    requires OrderOk(s) && ErrorsOk(s) && LockOk(s) && Enabled(s, a)
    ensures OrderOk(Apply(s, a))
  {
    hide Apply, IsWrite, WaitsForLock, Taken, ErrorsOk, LockOk, Next, NextReader, Enabled;
    Moved(s, a);
    MovedWriter(s, a);
    var t := Apply(s, a);
    assert a.WriteAcquire? ==> a.i !in s.order;
    FieldsAfter(s, a);
    forall i | i in t.order
      ensures Entered(t, i)
    {
      if i in s.order {
        assert Entered(s, i);
      }
    }
  }

  lemma MovedWriter(s: State, a: Action)
    requires ErrorsOk(s) && LockOk(s) && OrderOk(s) && Enabled(s, a)
    ensures
      var t := Apply(s, a);
      && (Entered(s, a.i) ==> Entered(t, a.i))
      && (a.WriteAcquire? ==> Entered(t, a.i) && !Entered(s, a.i))
      && (a.i !in t.order ==> Taken(t.ops[a.i]) == 0)
      && (Handshake(a) ==> Taken(t.ops[a.r]) == 0 && !IsWrite(s.ops[a.r]))
  {
    Moved(s, a);
    MovedEntry(s, a);
    if a.i in s.ops {
      var op := s.ops[a.i];
      assert Holds(op) ==> a.i in s.order;
      assert OpOk(s, op);
      assert a.i !in s.order ==> Taken(op) == 0;
    }
    assert a.WriteAcquire? ==> a.i in Apply(s, a).order;
    assert s.order <= Apply(s, a).order;
    hide Next, NextReader, Enabled, Apply, ErrorsOk, LockOk, OrderOk;
  }

  lemma MovedEntry(s: State, a: Action)
    requires Enabled(s, a)
    ensures
      var op := Next(s, a);
      && (a.i in s.ops && Entered(s, a.i) ==> IsWrite(op) && !WaitsForLock(op))
      && (a.WriteAcquire? ==> IsWrite(op) && !WaitsForLock(op) && a.i in s.ops && WaitsForLock(s.ops[a.i]))
      && (Taken(op) == if a.i in s.ops then Taken(s.ops[a.i]) + (if a.Ack? then |s.ops[a.r].data| else 0) else 0)
      && (a.Ack? ==> Holds(s.ops[a.i]))
      && (Handshake(a) ==> Taken(NextReader(s, a)) == 0 && !IsWrite(s.ops[a.r]))
  {
  }

  lemma ReadersKept(s: State, a: Action)
    requires ReadersOk(s) && Enabled(s, a)
    ensures ReadersOk(Apply(s, a))
  {
    hide Apply, Next, NextReader, Enabled;
    Moved(s, a);
    MovedReader(s, a);
    var t := Apply(s, a);
    FieldsAfter(s, a);
    forall i | i in t.ops && t.ops[i].ReadDone? && t.ops[i].err == None
      ensures exists k :: 0 <= k < |t.log| && t.log[k].reader == i
    {
      if a.Ack? && i == a.r {
        assert t.log[|s.log|].reader == i;
      } else {
        assert s.ops[i] == t.ops[i];
        var k :| 0 <= k < |s.log| && s.log[k].reader == i;
        assert t.log[k] == s.log[k];
      }
    }
  }

  lemma MovedReader(s: State, a: Action)
    requires Enabled(s, a)
    ensures Next(s, a).ReadDone? ==> Next(s, a).err.Some?
    ensures a.i in s.ops ==> !s.ops[a.i].ReadDone?
    ensures Handshake(a) ==> !s.ops[a.r].ReadDone?
    ensures a.Send? ==> !NextReader(s, a).ReadDone?
    ensures a.Ack? ==> NextReader(s, a) == ReadDone(s.ops[a.r].data, None)
  {
  }

  lemma LateKept(s: State, a: Action)
    requires LateOk(s) && ErrorsOk(s) && Enabled(s, a)
    ensures LateOk(Apply(s, a))
  {
    Moved(s, a);
    if s.done { MovedLate(s, a); }
    StepGrows(s, a);
    var t := Apply(s, a);
    FieldsAfter(s, a);
    assert a.Begin? ==> a.i !in s.ops;
    hide Apply, Next, NextReader, Enabled, MayTransfer;
  }

  lemma MovedLate(s: State, a: Action)
    requires ErrorsOk(s) && Enabled(s, a) && s.done
    ensures (a.i in s.ops ==> !MayTransfer(s.ops[a.i])) ==> !MayTransfer(Next(s, a))
    ensures Handshake(a) ==> MayTransfer(s.ops[a.r])
  {
    if a.i in s.ops {
      assert OpOk(s, s.ops[a.i]);
    }
  }

  lemma {:induction false} ConsumedFrame(order: seq<nat>, ops: map<nat, Op>, ops': map<nat, Op>)
    requires forall w | w in order :: w in ops && w in ops' && Prefix(ops[w]) == Prefix(ops'[w])
    ensures Consumed(order, ops) == Consumed(order, ops')
  {
    if order != [] {
      ConsumedFrame(order[..|order| - 1], ops, ops');
    }
  }

  lemma {:induction false} FromNoOne(log: seq<Chunk>, w: nat)
    requires forall c | c in log :: c.writer != w
    ensures FromWriter(log, w) == []
  {
    if log != [] {
      FromNoOne(log[..|log| - 1], w);
    }
  }

  /** Only a completed handshake changes what a Write has handed over, and by exactly the data. */
  lemma MovedPrefix(s: State, a: Action)
    requires Enabled(s, a) && !a.Ack?
    ensures Prefix(Next(s, a)) == if a.i in s.ops then Prefix(s.ops[a.i]) else []
    ensures a.Send? ==> Prefix(s.ops[a.r]) == Prefix(NextReader(s, a))
  {
  }

  lemma AckedPrefix(s: State, a: Action)
    requires Enabled(s, a) && a.Ack? && LockOk(s)
    ensures Prefix(Next(s, a)) == Prefix(s.ops[a.i]) + s.ops[a.r].data
    ensures Prefix(s.ops[a.r]) == Prefix(NextReader(s, a))
    ensures s.order != [] && s.order[|s.order| - 1] == a.i
  {
    var (w, data) := (s.ops[a.i], s.ops[a.r].data);
    assert Holds(w);
    assert s.pair == Some((a.i, a.r));
    assert w.whole[..w.n + |data|] == w.whole[..w.n] + data;
  }

  lemma LogAppended(log: seq<Chunk>, c: Chunk)
    ensures Transferred(log + [c]) == Transferred(log) + c.data
    ensures forall w: nat :: FromWriter(log + [c], w) == FromWriter(log, w) + (if c.writer == w then c.data else [])
  {
    assert (log + [c])[..|log|] == log;
  }

  lemma OrderExtended(order: seq<nat>, i: nat, ops: map<nat, Op>)
    requires i in ops
    ensures Consumed(order + [i], ops) == Consumed(order, ops) + Prefix(ops[i])
  {
    assert (order + [i])[..|order|] == order;
  }

  lemma FlowAfterAck(order: seq<nat>, i: nat, log: seq<Chunk>, c: Chunk, ops: map<nat, Op>, ops': map<nat, Op>)
    requires FlowOk(order, log, ops) && Distinct(order) && order != [] && order[|order| - 1] == i
    requires forall w | w in order :: w in ops
    requires ops'.Keys == ops.Keys + {i} && c.writer == i
    requires Prefix(ops'[i]) == Prefix(ops[i]) + c.data
    requires forall j | j in ops && j != i :: Prefix(ops'[j]) == Prefix(ops[j])
    ensures FlowOk(order, log + [c], ops')
  {
    hide Prefix, Transferred, Consumed, FromWriter;
    var before := order[..|order| - 1];
    assert order == before + [i];
    forall w | w in before
      ensures w in order && w != i
    {
      var k :| 0 <= k < |before| && before[k] == w;
      assert order[k] == w && order[|before|] == i;
    }
    LogAppended(log, c);
    ConsumedFrame(before, ops, ops');
    OrderExtended(before, i, ops);
    OrderExtended(before, i, ops');
  }

  /** The prefixes after a step: the acting Write's grows by what it just handed over. */
  lemma PrefixesAfter(s: State, a: Action)
    requires Enabled(s, a) && LockOk(s)
    ensures
      var (ops, ops') := (s.ops, Apply(s, a).ops);
      && ops'.Keys == ops.Keys + {a.i}
      && (forall j | j in ops && j != a.i :: Prefix(ops'[j]) == Prefix(ops[j]))
      && Prefix(ops'[a.i]) ==
        (if a.i in ops then Prefix(ops[a.i]) else []) + (if a.Ack? then ops[a.r].data else [])
  {
    hide Apply, Next, NextReader, Prefix, LockOk;
    Moved(s, a);
    if a.Ack? {
      AckedPrefix(s, a);
    } else {
      MovedPrefix(s, a);
    }
  }

  lemma FlowKeptByAck(s: State, a: Action)
    requires Enabled(s, a) && a.Ack? && LockOk(s) && FlowOk(s.order, s.log, s.ops) && OrderOk(s)
    ensures var t := Apply(s, a); FlowOk(t.order, t.log, t.ops)
  {
    PrefixesAfter(s, a);
    AckedPrefix(s, a);
    EnteredExist(s);
    FieldsAfter(s, a);
    var (t, c) := (Apply(s, a), Chunk(a.i, a.r, s.ops[a.r].data));
    assert t.order == s.order && t.log == s.log + [c];
    hide *;
    FlowAfterAck(s.order, a.i, s.log, c, s.ops, t.ops);
  }

  lemma EnteredExist(s: State)
    requires OrderOk(s)
    ensures Distinct(s.order) && forall w | w in s.order :: w in s.ops
  {
    forall w | w in s.order
      ensures w in s.ops
    {
      assert Entered(s, w);
    }
  }

  lemma FlowAfterOther(order: seq<nat>, order': seq<nat>, i: nat, log: seq<Chunk>, ops: map<nat, Op>,
      ops': map<nat, Op>)
    requires FlowOk(order, log, ops)
    requires forall w | w in order :: w in ops
    requires ops'.Keys == ops.Keys + {i}
    requires Prefix(ops'[i]) == if i in ops then Prefix(ops[i]) else []
    requires forall j | j in ops && j != i :: Prefix(ops'[j]) == Prefix(ops[j])
    requires order' == order || (order' == order + [i] && Prefix(ops'[i]) == [])
    ensures FlowOk(order', log, ops')
  {
    hide Prefix, Transferred, Consumed, FromWriter;
    ConsumedFrame(order, ops, ops');
    OrderExtended(order, i, ops');
    if i !in ops {
      FromNoOne(log, i);
    }
  }

  lemma FlowKeptOtherwise(s: State, a: Action)
    requires Enabled(s, a) && !a.Ack? && FlowOk(s.order, s.log, s.ops) && OrderOk(s) && LockOk(s)
    ensures var t := Apply(s, a); FlowOk(t.order, t.log, t.ops)
  {
    assert a.WriteAcquire? ==> a.i in s.ops && Prefix(s.ops[a.i]) == [];
    hide FlowOk, Prefix, LockOk, OrderOk, Apply, Next, NextReader, Enabled, Distinct;
    PrefixesAfter(s, a);
    EnteredExist(s);
    FieldsAfter(s, a);
    var t := Apply(s, a);
    FlowAfterOther(s.order, t.order, a.i, s.log, s.ops, t.ops);
  }

  lemma InvKept(s: State, a: Action)
    requires Inv(s) && Enabled(s, a)
    ensures Inv(Apply(s, a))
  {
    hide ErrorsOk, LockOk, OrderOk, FlowOk, ReadersOk, LateOk, Apply, Enabled;
    ErrorsKept(s, a);
    LockKept(s, a);
    OrderKept(s, a);
    if a.Ack? {
      FlowKeptByAck(s, a);
    } else {
      FlowKeptOtherwise(s, a);
    }
    ReadersKept(s, a);
    LateKept(s, a);
  }

  // ---- What holds in every run ----

  lemma {:induction false} RunInv(acts: seq<Action>, s: State)
    requires Run(acts, s)
    ensures Inv(s)
  {
    if acts == [] {
      assert Transferred([]) == Consumed([], map[]) == [];
    } else {
      var last := |acts| - 1;
      var t: State :| Run(acts[..last], t) && Enabled(t, acts[last]) && s == Apply(t, acts[last]);
      RunInv(acts[..last], t);
      InvKept(t, acts[last]);
    }
  }

  /** Nothing is lost, invented or reordered between the Writes and the Reads. */
  lemma BytesConserved(acts: seq<Action>, s: State)
    requires Run(acts, s)
    ensures Distinct(s.order)
    ensures Transferred(s.log) == Consumed(s.order, s.ops)
    ensures forall w | w in s.ops && IsWrite(s.ops[w]) ::
      && Taken(s.ops[w]) <= |s.ops[w].whole|
      && FromWriter(s.log, w) == s.ops[w].whole[..Taken(s.ops[w])]
  {
    RunInv(acts, s);
    forall w | w in s.ops && IsWrite(s.ops[w])
      ensures Taken(s.ops[w]) <= |s.ops[w].whole|
    {
      assert OpOk(s, s.ops[w]);
      assert s.ops[w].WriteSent? ==> s.pair.Some? && s.pair.value.0 == w;
    }
  }

  /** At most one reader and one writer stand between the two handshakes, and never one alone. */
  lemma OnePairAtATime(acts: seq<Action>, s: State, i: nat, j: nat)
    requires Run(acts, s) && i in s.ops && j in s.ops
    ensures s.ops[i].ReadCopied? && s.ops[j].ReadCopied? ==> i == j
    ensures Holds(s.ops[i]) && Holds(s.ops[j]) ==> i == j
    ensures s.ops[i].ReadCopied? ==> exists w :: w in s.ops && s.ops[w].WriteSent?
    ensures s.ops[i].WriteSent? ==> exists r :: r in s.ops && s.ops[r].ReadCopied?
  {
    RunInv(acts, s);
    if s.pair.Some? {
      assert s.ops[s.pair.value.0].WriteSent? && s.ops[s.pair.value.1].ReadCopied?;
    }
  }

  /** A Write reports success exactly when every byte was read; an empty one may still report closure. */
  lemma WriteResult(acts: seq<Action>, s: State, i: nat)
    requires Run(acts, s) && i in s.ops && s.ops[i].WriteDone?
    ensures
      var WriteDone(whole, n, err) := s.ops[i];
      && n <= |whole|
      && FromWriter(s.log, i) == whole[..n]
      && (err == None ==> n == |whole|)
      && (whole != [] ==> (err == None <==> n == |whole|))
      && (err.Some? ==> err.value in s.rstored || (err.value == ErrClosedPipe && s.werr.Some?))
  {
    RunInv(acts, s);
    assert OpOk(s, s.ops[i]);
  }

  /** A Read that succeeds returns one transfer; one that fails returns no bytes and why. */
  lemma ReadResult(acts: seq<Action>, s: State, i: nat)
    requires Run(acts, s) && i in s.ops && s.ops[i].ReadDone?
    ensures
      var ReadDone(data, err) := s.ops[i];
      && (err == None <==> exists k :: 0 <= k < |s.log| && s.log[k].reader == i)
      && (forall c | c in s.log && c.reader == i :: c.data == data)
      && (err.Some? ==> data == [])
      && (err.Some? ==> err.value in s.wstored || (err.value == ErrClosedPipe && s.rerr.Some?))
  {
    RunInv(acts, s);
    assert OpOk(s, s.ops[i]);
    forall c | c in s.log && c.reader == i
      ensures s.ops[i] == ReadDone(c.data, None)
    {
      var k :| 0 <= k < |s.log| && s.log[k] == c;
    }
  }

  /** A Read or Write begun after done was closed returns no bytes and an error. */
  lemma LateCallsFail(acts: seq<Action>, s: State, i: nat)
    requires Run(acts, s) && i in s.late
    ensures i in s.ops && s.done
    ensures s.ops[i].ReadDone? ==> s.ops[i].data == [] && s.ops[i].err.Some?
    ensures s.ops[i].WriteDone? ==> s.ops[i].n == 0 && s.ops[i].err.Some?
  {
    RunInv(acts, s);
    assert OpOk(s, s.ops[i]);
  }

  /** However many goroutines close the pipe, from either side, the channel done is never closed twice. */
  lemma DoneClosedOnce(acts: seq<Action>, s: State)
    requires Run(acts, s)
    ensures !s.panicked && (s.done <==> s.once)
  {
    RunInv(acts, s);
  }

  // ---- Progress ----

  predicate Finished(op: Op) {
    op.ReadDone? || op.WriteDone? || op.CloseDone?
  }

  ghost predicate Stuck(s: State) {
    forall a: Action | !a.Begin? :: !Enabled(s, a)
  }

  /** Calls that need no partner, no lock and no close to take their next step. */
  predicate SelfMoving(op: Op) {
    || op.ReadStart? || op.ReadClosing? || op.ReadLoaded?
    || op.WriteStart? || op.WriteClosing? || op.WriteLoaded? || op.WriteReturn?
    || op.CloseStart? || op.CloseStored?
    || (op.WriteLoop? && !LoopContinues(op))
  }

  lemma SelfMovingMoves(s: State, i: nat)
    requires i in s.ops && SelfMoving(s.ops[i])
    ensures !Stuck(s)
  {
    var a := match s.ops[i]
      case ReadStart(_) => ReadCheck(i)
      case ReadClosing => ReadLoadR(i)
      case ReadLoaded(_) => ReadLoadW(i)
      case WriteStart(_) => WriteCheck(i)
      case WriteClosing(_, _, _) => WriteLoadW(i)
      case WriteLoaded(_, _, _, _) => WriteLoadR(i)
      case WriteReturn(_, _, _) => WriteUnlock(i)
      case CloseStart(_, _) => CloseStore(i)
      case CloseStored(_) => CloseOnce(i)
      case _ => WriteExit(i);
    assert Enabled(s, a);
  }

  lemma HandshakeCompletes(s: State)
    requires PairOk(s) && s.pair.Some?
    ensures !Stuck(s)
  {
    assert Enabled(s, Ack(s.pair.value.0, s.pair.value.1));
  }

  /** Where a call stands when nothing can move. */
  lemma Waiting(s: State, i: nat)
    requires LockOk(s) && Stuck(s) && i in s.ops && !Finished(s.ops[i])
    ensures s.ops[i].ReadWait? || s.ops[i].WriteLock? || (s.ops[i].WriteLoop? && LoopContinues(s.ops[i]))
    ensures s.ops[i].ReadWait? || s.wrMu.Some?
    ensures s.ops[i].ReadWait? || s.ops[i].WriteLoop? ==> !s.done
  {
    assert s.pair == None by {
      if s.pair.Some? { HandshakeCompletes(s); }
    }
    assert !SelfMoving(s.ops[i]) by {
      if SelfMoving(s.ops[i]) { SelfMovingMoves(s, i); }
    }
    assert !Enabled(s, WriteAcquire(i)) && !Enabled(s, ReadSeesDone(i)) && !Enabled(s, WriteSeesDone(i));
    assert Holds(s.ops[i]) ==> s.wrMu == Some(i);
  }

  /**
   The only way to wait for ever is the documented one: done is open, and either
   all unfinished calls are Reads or all are Writes. Once the pipe is closed every
   call can finish.
   */
  lemma StuckOnlyWhileOpen(acts: seq<Action>, s: State, i: nat, j: nat)
    requires Run(acts, s) && Stuck(s)
    requires i in s.ops && !Finished(s.ops[i])
    requires j in s.ops && !Finished(s.ops[j])
    ensures !s.done
    ensures s.ops[i].ReadWait? || IsWrite(s.ops[i])
    ensures s.ops[i].ReadWait? <==> s.ops[j].ReadWait?
  {
    RunInv(acts, s);
    Waiting(s, i);
    Waiting(s, j);
    if s.wrMu.Some? {
      NoReaderBesideWriter(s, i);
      NoReaderBesideWriter(s, j);
    }
  }

  /** A waiting Read and a pending Write would meet at wrCh. */
  lemma NoReaderBesideWriter(s: State, i: nat)
    requires ErrorsOk(s) && LockOk(s) && Stuck(s) && s.wrMu.Some? && i in s.ops
    ensures !s.ops[i].ReadWait? && !s.done
  {
    var w := s.wrMu.value;
    Waiting(s, w);
    assert OpOk(s, s.ops[w]);
    assert !Enabled(s, Send(w, i));
  }

  // ---- Where the errors come from ----

  /** A call of this kind and with these arguments has begun. */
  ghost predicate Begun(acts: seq<Action>, i: nat, op: Op) {
    Begin(i, op) in acts
  }

  /** What a close with this argument makes calls on the far side fail with: EOF behind a plain CloseWrite, and
      ErrClosedPipe behind a plain CloseRead. */
  function CloseReason(reader: bool, arg: Option<Error>): Error {
    match arg
    case Some(e) => e
    case None => if reader then ErrClosedPipe else EOF
  }

  ghost predicate Given(acts: seq<Action>, reader: bool, e: Error) {
    exists i, arg :: Begun(acts, i, CloseStart(reader, arg)) && e == CloseReason(reader, arg)
  }

  ghost predicate AllGiven(acts: seq<Action>, s: State) {
    && (forall e | e in s.rstored :: Given(acts, true, e))
    && (forall e | e in s.wstored :: Given(acts, false, e))
    && (forall i | i in s.ops && s.ops[i].CloseStart? :: Begun(acts, i, s.ops[i]))
  }

  lemma BegunStays(acts: seq<Action>, a: Action)
    ensures forall i, op :: Begun(acts, i, op) ==> Begun(acts + [a], i, op)
    ensures forall reader, e :: Given(acts, reader, e) ==> Given(acts + [a], reader, e)
    ensures a.Begin? ==> Begun(acts + [a], a.i, a.op)
  {
    assert forall x | x in acts :: x in acts + [a];
    assert a in acts + [a];
    forall reader, e | Given(acts, reader, e)
      ensures Given(acts + [a], reader, e)
    {
      var i, arg :| Begun(acts, i, CloseStart(reader, arg)) && e == CloseReason(reader, arg);
      assert Begun(acts + [a], i, CloseStart(reader, arg));
    }
  }

  lemma StoresGiven(acts: seq<Action>, s: State, a: Action)
    requires Enabled(s, a) && AllGiven(acts, s)
    ensures AllGiven(acts + [a], Apply(s, a))
  {
    hide Next, NextReader, Apply;
    BegunStays(acts, a);
    Moved(s, a);
    NoNewClose(s, a);
    if a.CloseStore? {
      assert Begun(acts + [a], a.i, s.ops[a.i]);
      assert Given(acts + [a], s.ops[a.i].reader, CloseReason(s.ops[a.i].reader, s.ops[a.i].arg));
    }
    StoresAfter(s, a);
    hide Begun, Given, Enabled;
  }

  lemma StoresAfter(s: State, a: Action)
    requires Enabled(s, a)
    ensures var t := Apply(s, a);
      if a.CloseStore? then
        var (reader, e) := (s.ops[a.i].reader, CloseReason(s.ops[a.i].reader, s.ops[a.i].arg));
        t.rstored == s.rstored + (if reader then {e} else {}) && t.wstored == s.wstored + if reader then {} else {e}
      else t.rstored == s.rstored && t.wstored == s.wstored
  {
    hide Next, NextReader;
  }

  lemma NoNewClose(s: State, a: Action)
    requires Enabled(s, a)
    ensures Next(s, a).CloseStart? ==> a.Begin? && Next(s, a) == a.op
    ensures Handshake(a) ==> !NextReader(s, a).CloseStart?
  {
  }

  /** Every error that is stored was given to a close that has begun, or is its default. */
  lemma {:induction false} StoredAreGiven(acts: seq<Action>, s: State)
    requires Run(acts, s)
    ensures AllGiven(acts, s)
  {
    if acts != [] {
      var last := |acts| - 1;
      var t: State :| Run(acts[..last], t) && Enabled(t, acts[last]) && s == Apply(t, acts[last]);
      StoredAreGiven(acts[..last], t);
      StoresGiven(acts[..last], t, acts[last]);
      assert acts[..last] + [acts[last]] == acts;
    }
  }

  /** All closes of the run are on one side and have one argument. */
  ghost predicate OnlyClose(acts: seq<Action>, reader: bool, arg: Option<Error>) {
    forall a | a in acts && a.Begin? && a.op.CloseStart? :: a.op == CloseStart(reader, arg)
  }

  /** If the pipe is closed from one side only, failing calls on the far side return that close's reason, and
      those on the same side ErrClosedPipe: after a plain CloseWrite every Read that fails returns EOF. */
  lemma FailsForReason(acts: seq<Action>, s: State, i: nat, reader: bool, arg: Option<Error>)
    requires Run(acts, s) && OnlyClose(acts, reader, arg) && i in s.ops
    ensures s.ops[i].ReadDone? && s.ops[i].err.Some? ==>
      s.ops[i].err.value == if reader then ErrClosedPipe else CloseReason(false, arg)
    ensures s.ops[i].WriteDone? && s.ops[i].err.Some? ==>
      s.ops[i].err.value == if reader then CloseReason(true, arg) else ErrClosedPipe
  {
    RunInv(acts, s);
    StoredAreGiven(acts, s);
    hide Run, Inv, OpOk;
    OnlyGiven(acts, reader, arg);
    hide OnlyClose, Given, CloseReason;
    FailsWith(s, i, reader, CloseReason(reader, arg));
  }

  lemma OnlyGiven(acts: seq<Action>, reader: bool, arg: Option<Error>)
    requires OnlyClose(acts, reader, arg)
    ensures forall side, e :: Given(acts, side, e) ==> side == reader && e == CloseReason(reader, arg)
  {
    forall side, e | Given(acts, side, e)
      ensures side == reader && e == CloseReason(reader, arg)
    {
      var j, x :| Begun(acts, j, CloseStart(side, x)) && e == CloseReason(side, x);
    }
  }

  lemma FailsWith(s: State, i: nat, reader: bool, reason: Error)
    requires Inv(s) && i in s.ops
    requires forall e | e in s.rstored :: reader && e == reason
    requires forall e | e in s.wstored :: !reader && e == reason
    ensures s.ops[i].ReadDone? && s.ops[i].err.Some? ==>
      s.ops[i].err.value == if reader then ErrClosedPipe else reason
    ensures s.ops[i].WriteDone? && s.ops[i].err.Some? ==>
      s.ops[i].err.value == if reader then reason else ErrClosedPipe
  {
    assert OpOk(s, s.ops[i]);
  }

  // ---- How much a Read gets ----

  /** data is as much of what is left of the Write as cap bytes hold. */
  predicate Fills(w: Op, data: bytes, cap: nat) {
    w.WriteSent? && |data| <= cap && (|data| == cap || w.n + |data| == |w.whole|)
  }

  ghost predicate PairFills(acts: seq<Action>, s: State, w: nat, r: nat) {
    && w in s.ops && r in s.ops && s.ops[r].ReadCopied?
    && exists cap :: Begun(acts, r, ReadStart(cap)) && Fills(s.ops[w], s.ops[r].data, cap)
  }

  /** The last transfer filled the Read's buffer, or took the Write's last byte. */
  ghost predicate ChunkFills(acts: seq<Action>, log: seq<Chunk>) {
    log == [] ||
    var c := log[|log| - 1];
    exists cap, whole :: Begun(acts, c.reader, ReadStart(cap)) && Begun(acts, c.writer, WriteStart(whole))
      && |c.data| <= cap && (|c.data| == cap || FromWriter(log, c.writer) == whole)
  }

  ghost predicate CallBegun(acts: seq<Action>, i: nat, op: Op) {
    && (op.ReadStart? || op.ReadWait? ==> Begun(acts, i, ReadStart(op.cap)))
    && (IsWrite(op) ==> Begun(acts, i, WriteStart(op.whole)))
  }

  ghost predicate FillOk(acts: seq<Action>, s: State) {
    && (forall i | i in s.ops :: CallBegun(acts, i, s.ops[i]))
    && (s.pair.Some? ==> PairFills(acts, s, s.pair.value.0, s.pair.value.1))
    && LogFills(acts, s.log)
  }

  ghost predicate LogFills(acts: seq<Action>, log: seq<Chunk>) {
    forall k | 0 <= k <= |log| :: ChunkFills(acts, log[..k])
  }

  lemma CallsStayBegun(acts: seq<Action>, s: State, a: Action)
    requires Enabled(s, a) && LockOk(s) && (forall i | i in s.ops :: CallBegun(acts, i, s.ops[i]))
    ensures var t := Apply(s, a); forall i | i in t.ops :: CallBegun(acts + [a], i, t.ops[i])
  {
    Moved(s, a);
    var t := Apply(s, a);
    hide CallBegun, Enabled, Apply, Next, NextReader;
    forall i | i in t.ops
      ensures CallBegun(acts + [a], i, t.ops[i])
    {
      if i == a.i {
        NextBegun(acts, s, a);
      } else if (a.Send? || a.Ack?) && i == a.r {
        ReaderBegun(acts + [a], s, a);
      } else {
        CallStays(acts, a, i, s.ops[i]);
      }
    }
  }

  lemma CallStays(acts: seq<Action>, a: Action, i: nat, op: Op)
    requires CallBegun(acts, i, op)
    ensures CallBegun(acts + [a], i, op)
  {
    BegunStays(acts, a);
    hide Begun;
  }

  lemma ReaderBegun(acts: seq<Action>, s: State, a: Action)
    requires Enabled(s, a) && Handshake(a)
    ensures CallBegun(acts, a.r, NextReader(s, a))
  {
    hide Begun;
  }

  lemma NextBegun(acts: seq<Action>, s: State, a: Action)
    requires Enabled(s, a) && (forall i | i in s.ops :: CallBegun(acts, i, s.ops[i]))
    ensures CallBegun(acts + [a], a.i, Next(s, a))
  {
    BegunStays(acts, a);
    hide Begun;
  }

  lemma PairKeepsFilling(acts: seq<Action>, s: State, a: Action)
    requires Enabled(s, a) && LockOk(s) && FillOk(acts, s)
    ensures var t := Apply(s, a); t.pair.Some? ==> PairFills(acts + [a], t, t.pair.value.0, t.pair.value.1)
  {
    BegunStays(acts, a);
    Moved(s, a);
    FieldsAfter(s, a);
    var t := Apply(s, a);
    if a.Send? {
      assert CallBegun(acts, a.r, s.ops[a.r]);
      assert t.ops[a.i].WriteSent? && Fills(t.ops[a.i], t.ops[a.r].data, s.ops[a.r].cap) by { SentFills(s, a); }
      assert Begun(acts + [a], a.r, ReadStart(s.ops[a.r].cap));
    } else if t.pair.Some? {
      var (w, r) := s.pair.value;
      MovedPair(s, a);
      assert t.ops[w] == s.ops[w] && t.ops[r] == s.ops[r];
      hide Begun, Fills, Next, NextReader, Apply, Enabled;
      var cap :| Begun(acts, r, ReadStart(cap)) && Fills(s.ops[w], s.ops[r].data, cap);
      assert Begun(acts + [a], r, ReadStart(cap));
    }
  }

  lemma SentFills(s: State, a: Action)
    requires Enabled(s, a) && a.Send?
    ensures NextReader(s, a).ReadCopied? && Fills(Next(s, a), NextReader(s, a).data, s.ops[a.r].cap)
  {
  }

  lemma LogKeepsFilling(acts: seq<Action>, s: State, a: Action)
    requires Enabled(s, a) && Inv(s) && FillOk(acts, s)
    ensures LogFills(acts + [a], Apply(s, a).log)
  {
    FieldsAfter(s, a);
    if a.Ack? {
      AckFills(acts, s, a);
    }
    hide Inv, Apply, ChunkFills, Enabled;
    LogGrows(acts, a, s.log, Apply(s, a).log);
  }

  lemma LogGrows(acts: seq<Action>, a: Action, log: seq<Chunk>, after: seq<Chunk>)
    requires LogFills(acts, log)
    requires after == log || (|after| == |log| + 1 && after[..|log|] == log && ChunkFills(acts + [a], after))
    ensures LogFills(acts + [a], after)
  {
    hide ChunkFills;
    forall k | 0 <= k <= |after|
      ensures ChunkFills(acts + [a], after[..k])
    {
      if k <= |log| {
        assert after[..k] == log[..k];
        ChunkStaysFilled(acts, a, log[..k]);
      } else {
        assert after[..k] == after;
      }
    }
  }

  lemma ChunkStaysFilled(acts: seq<Action>, a: Action, log: seq<Chunk>)
    requires ChunkFills(acts, log)
    ensures ChunkFills(acts + [a], log)
  {
    BegunStays(acts, a);
    hide Begun, FromWriter;
    if log != [] {
      var c := log[|log| - 1];
      var cap, whole :| Begun(acts, c.reader, ReadStart(cap)) && Begun(acts, c.writer, WriteStart(whole))
        && |c.data| <= cap && (|c.data| == cap || FromWriter(log, c.writer) == whole);
      assert Begun(acts + [a], c.reader, ReadStart(cap)) && Begun(acts + [a], c.writer, WriteStart(whole));
    }
  }

  function Acked(s: State, a: Action): Chunk
    requires Enabled(s, a) && a.Ack?
  {
    Chunk(a.i, a.r, s.ops[a.r].data)
  }

  lemma AckFills(acts: seq<Action>, s: State, a: Action)
    requires Enabled(s, a) && a.Ack? && Inv(s) && FillOk(acts, s)
    ensures ChunkFills(acts + [a], s.log + [Acked(s, a)])
  {
    var chunk := Acked(s, a);
    assert chunk == Chunk(a.i, a.r, s.ops[a.r].data);
    hide *;
    AckPair(s, a);
    var (w, data) := (s.ops[a.i], s.ops[a.r].data);
    var cap := AckCap(acts, s, a);
    LastBytes(s, a);
    LogAppended(s.log, chunk);
    BegunStays(acts, a);
    WhenFilled(acts + [a], s.log + [chunk], cap, w.whole);
  }

  lemma AckPair(s: State, a: Action)
    requires Enabled(s, a) && a.Ack? && Inv(s)
    ensures a.i in s.ops && a.r in s.ops && s.ops[a.i].WriteSent? && s.ops[a.r].ReadCopied?
    ensures s.pair == Some((a.i, a.r)) && PairOk(s) && FromWriter(s.log, a.i) == Prefix(s.ops[a.i])
  {
    hide Prefix, FromWriter, ErrorsOk, OrderOk, ReadersOk, LateOk;
  }

  lemma AckCap(acts: seq<Action>, s: State, a: Action) returns (cap: nat)
    requires Enabled(s, a) && a.Ack? && PairOk(s) && FillOk(acts, s)
    ensures Begun(acts, a.r, ReadStart(cap)) && Begun(acts, a.i, WriteStart(s.ops[a.i].whole))
    ensures var (w, data) := (s.ops[a.i], s.ops[a.r].data);
      |data| <= cap && (|data| == cap || w.n + |data| == |w.whole|)
  {
    hide Begun, LogFills;
    assert CallBegun(acts, a.i, s.ops[a.i]) && PairFills(acts, s, a.i, a.r);
    cap :| Begun(acts, a.r, ReadStart(cap)) && Fills(s.ops[a.i], s.ops[a.r].data, cap);
  }

  lemma LastBytes(s: State, a: Action)
    requires Enabled(s, a) && a.Ack? && PairOk(s) && s.pair == Some((a.i, a.r))
    ensures var (w, data) := (s.ops[a.i], s.ops[a.r].data);
      w.n + |data| == |w.whole| ==> Prefix(w) + data == w.whole
  {
    var (w, data) := (s.ops[a.i], s.ops[a.r].data);
    if w.n + |data| == |w.whole| {
      assert data == w.whole[w.n..];
    }
  }

  lemma WhenFilled(acts: seq<Action>, log: seq<Chunk>, cap: nat, whole: bytes)
    requires log != []
    requires var c := log[|log| - 1];
      && Begun(acts, c.reader, ReadStart(cap)) && Begun(acts, c.writer, WriteStart(whole))
      && |c.data| <= cap && (|c.data| == cap || FromWriter(log, c.writer) == whole)
    ensures ChunkFills(acts, log)
  {
  }

  lemma LastStep(acts: seq<Action>, s: State) returns (front: seq<Action>, t: State, a: Action)
    requires Run(acts, s) && acts != []
    ensures acts == front + [a] && |front| < |acts| && Run(front, t) && Enabled(t, a) && s == Apply(t, a)
  {
    var last := |acts| - 1;
    front, a := acts[..last], acts[last];
    t :| Run(acts[..last], t) && Enabled(t, acts[last]) && s == Apply(t, acts[last]);
  }

  /** Every transfer fills the Read's buffer or takes all that was left of the Write. */
  lemma {:induction false} TransfersFill(acts: seq<Action>, s: State)
    requires Run(acts, s)
    ensures FillOk(acts, s)
    decreases |acts|
  {
    hide *;
    if acts == [] {
      NothingFilled(acts);
      RunsFromStart(s);
    } else {
      var front, t, a := LastStep(acts, s);
      TransfersFill(front, t);
      RunInv(front, t);
      FillKept(front, t, a);
    }
  }

  lemma RunsFromStart(s: State)
    requires Run([], s)
    ensures s == INIT
  {
  }

  lemma NothingFilled(acts: seq<Action>)
    ensures FillOk(acts, INIT)
  {
  }

  lemma FillKept(acts: seq<Action>, s: State, a: Action)
    requires Enabled(s, a) && Inv(s) && FillOk(acts, s)
    ensures FillOk(acts + [a], Apply(s, a))
  {
    hide Apply, Enabled, CallBegun, PairFills, LogFills;
    CallsStayBegun(acts, s, a);
    PairKeepsFilling(acts, s, a);
    LogKeepsFilling(acts, s, a);
  }

  /** A bound on the steps a call has left; a handshake spends more of the reader's than it gives back. */
  function Rank(op: Op): nat {
    match op
    case ReadStart(_) => 7
    case ReadWait(_) => 6
    case ReadCopied(_) => 4
    case ReadClosing => 2
    case ReadLoaded(_) => 1
    case WriteStart(_) => 6
    case WriteLock(_) => 5
    case WriteLoop(_, _, _) => 4
    case WriteSent(_, _) => 5
    case WriteClosing(_, _, _) => 3
    case WriteLoaded(_, _, _, _) => 2
    case WriteReturn(_, _, _) => 1
    case CloseStart(_, _) => 2
    case CloseStored(_) => 1
    case _ => 0
  }

  function StepsLeft(ops: map<nat, Op>, bound: nat): nat {
    if bound == 0 then 0
    else StepsLeft(ops, bound - 1) + (if bound - 1 in ops then Rank(ops[bound - 1]) else 0)
  }

  lemma {:induction false} StepsLeftUpdate(ops: map<nat, Op>, i: nat, op: Op, bound: nat)
    requires i in ops
    ensures StepsLeft(ops[i := op], bound) ==
      StepsLeft(ops, bound) + (if i < bound then Rank(op) - Rank(ops[i]) else 0)
  {
    if bound > 0 {
      StepsLeftUpdate(ops, i, op, bound - 1);
    }
  }

  /** Every step of a call uses up some of its bound: no schedule runs for ever on finitely many calls. */
  lemma StepsRunOut(s: State, a: Action, bound: nat)
    requires Enabled(s, a) && !a.Begin?
    requires forall i | i in s.ops :: i < bound
    ensures StepsLeft(Apply(s, a).ops, bound) < StepsLeft(s.ops, bound)
  {
    var t := Apply(s, a);
    Moved(s, a);
    MovedRank(s, a);
    assert t.ops == (if Handshake(a) then s.ops[a.i := Next(s, a)][a.r := NextReader(s, a)]
      else s.ops[a.i := Next(s, a)]);
    hide Apply, Next, NextReader, Rank;
    StepsLeftUpdate(s.ops, a.i, Next(s, a), bound);
    if Handshake(a) {
      StepsLeftUpdate(s.ops[a.i := Next(s, a)], a.r, NextReader(s, a), bound);
    }
  }

  lemma MovedRank(s: State, a: Action)
    requires Enabled(s, a) && !a.Begin?
    ensures a.i in s.ops
    ensures !Handshake(a) ==> Rank(Next(s, a)) < Rank(s.ops[a.i])
    ensures Handshake(a) ==> Rank(Next(s, a)) + Rank(NextReader(s, a)) < Rank(s.ops[a.i]) + Rank(s.ops[a.r])
  {
  }

  function Begins(acts: seq<Action>): nat {
    if acts == [] then 0
    else Begins(acts[..|acts| - 1]) + if acts[|acts| - 1].Begin? then 1 else 0
  }

  lemma {:induction false} StepsLeftAdd(ops: map<nat, Op>, i: nat, op: Op, bound: nat)
    requires i !in ops
    ensures StepsLeft(ops[i := op], bound) == StepsLeft(ops, bound) + if i < bound then Rank(op) else 0
  {
    if bound > 0 {
      StepsLeftAdd(ops, i, op, bound - 1);
    }
  }

  lemma {:induction false} NoSteps(bound: nat)
    ensures StepsLeft(map[], bound) == 0
  {
    if bound > 0 {
      NoSteps(bound - 1);
    }
  }

  lemma {:induction false} StepsCounted(acts: seq<Action>, s: State, bound: nat)
    requires Run(acts, s) && forall i | i in s.ops :: i < bound
    ensures |acts| + StepsLeft(s.ops, bound) <= 8 * Begins(acts)
    decreases |acts|
  {
    if acts == [] {
      NoSteps(bound);
    } else {
      var last := |acts| - 1;
      var t: State :| Run(acts[..last], t) && Enabled(t, acts[last]) && s == Apply(t, acts[last]);
      KeysGrow(t, acts[last]);
      StepsCounted(acts[..last], t, bound);
      if acts[last].Begin? {
        BeginAdds(t, acts[last], bound);
      } else {
        StepsRunOut(t, acts[last], bound);
      }
      hide Apply, Enabled, StepsLeft;
    }
  }

  lemma KeysGrow(s: State, a: Action)
    requires Enabled(s, a)
    ensures forall i | i in s.ops :: i in Apply(s, a).ops
  {
    Moved(s, a);
  }

  lemma BeginAdds(s: State, a: Action, bound: nat)
    requires Enabled(s, a) && a.Begin?
    ensures StepsLeft(Apply(s, a).ops, bound) <= StepsLeft(s.ops, bound) + 7
  {
    StepsLeftAdd(s.ops, a.i, a.op, bound);
    hide StepsLeft;
  }

  /** A run has at most eight steps for each call, its beginning included, whatever the schedule. */
  lemma RunsEnd(acts: seq<Action>, s: State)
    requires Run(acts, s)
    ensures |acts| <= 8 * Begins(acts)
  {
    hide Run, StepsLeft;
    var bound := Ids(s.ops.Keys);
    StepsCounted(acts, s, bound);
  }

  lemma {:induction false} Ids(ids: set<nat>) returns (bound: nat)
    ensures forall i | i in ids :: i < bound
  {
    if ids == {} {
      return 0;
    }
    var k :| k in ids;
    var less := Ids(ids - {k});
    bound := if k < less then less else k + 1;
    assert forall i | i in ids :: i == k || i in ids - {k};
  }
}
