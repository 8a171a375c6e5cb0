/**
 context/context.go as a step machine: goroutines creating, cancelling and
 querying contexts of one tree, interleaved at every mutex. A critical section
 that takes no second lock is one step; cancel and propagateCancel hold a lock
 while they call down, so they are modelled frame by frame.
 */
module Context {
  import opened Bytes

  datatype Err = Canceled | DeadlineExceeded

  datatype Chan = NoChan | Open | Closed

  /** A Context value; cancelCtx and timerCtx objects live in State.nodes. */
  datatype Ctx = Background | Node(id: nat) | WithValue(parent: Ctx)

  datatype Cell = Cell(
    parent: Ctx,
    timed: bool, // a timerCtx
    expired: bool, // its deadline had passed when it was made
    err: Option<Err>,
    done: Chan,
    children: set<nat>,
    mu: Option<nat>, // the goroutine holding c.mu
    armed: bool, // c.timer != nil
    built: bool, // history: propagateCancel has returned
    settled: bool) // history: the cancel that set err has released c.mu

  /** A pending call. Only Iter and PropHold hold a lock. */
  datatype Frame =
    | PropDone(c: nat) // propagateCancel: parent.Done()
    | PropLock(c: nat) // propagateCancel: p.mu.Lock()
    | PropHold(c: nat) // propagateCancel: child.cancel(false, p.err) under p.mu
    | Arm(c: nat) // WithDeadline after propagateCancel
    | Enter(c: nat, remove: bool, err: Err) // cancel: c.mu.Lock()
    | Iter(c: nat, remove: bool, err: Err, todo: set<nat>) // cancel: ranging over c.children under c.mu
    | Remove(c: nat) // removeChild(c.Context, c)
    | Stop(c: nat) // timerCtx.cancel: stop the timer under c.mu
    | MakeDone(c: nat) // c.Done()

  datatype Call = New(parent: Ctx, timed: bool, expired: bool) | Cancel(c: nat, err: Err) | Done(c: nat)

  datatype Thread = Thread(call: Call, node: nat, stack: seq<Frame>)

  datatype State = State(
    nodes: seq<Cell>,
    threads: seq<Thread>,
    asked: set<nat>) // history: nodes some cancel(true, ...) was called on

  datatype Action = Start(call: Call) | Move(t: nat, pick: nat)

  const INIT := State([], [], {})

  /** parentCancelCtx: the nearest cancelCtx at or above a context. */
  function ParentCancelCtx(ctx: Ctx): Option<nat> {
    match ctx
    case Background => None
    case Node(id) => Some(id)
    case WithValue(p) => ParentCancelCtx(p)
  }

  method FindCancelCtx(ctx: Ctx) returns (p: Option<nat>)
    ensures p == ParentCancelCtx(ctx)
  {
    var parent := ctx;
    while true
      invariant ParentCancelCtx(parent) == ParentCancelCtx(ctx)
      decreases parent
    {
      match parent {
        case Node(id) => return Some(id);
        case WithValue(up) => parent := up;
        case Background => return None;
      }
    }
  }

  function Above(s: State, c: nat): Option<nat>
    requires c < |s.nodes|
  {
    ParentCancelCtx(s.nodes[c].parent)
  }

  /** The lock a frame must take before its next step. */
  function Wants(s: State, f: Frame): Option<nat>
    requires f.c < |s.nodes|
  {
    match f
    case PropDone(c) => Above(s, c)
    case PropLock(c) => Above(s, c)
    case PropHold(_) => None
    case Arm(c) => if s.nodes[c].expired then None else Some(c)
    case Enter(c, _, _) => Some(c)
    case Iter(_, _, _, _) => None
    case Remove(c) => Above(s, c)
    case Stop(c) => Some(c)
    case MakeDone(c) => Some(c)
  }

  predicate Free(s: State, n: Option<nat>) {
    n.Some? ==> n.value < |s.nodes| && s.nodes[n.value].mu == None
  }

  predicate Reachable(s: State, ctx: Ctx) {
    var p := ParentCancelCtx(ctx);
    p.Some? ==> p.value < |s.nodes| && s.nodes[p.value].built
  }

  predicate Enabled(s: State, a: Action) {
    match a
    case Start(New(parent, _, _)) => Reachable(s, parent)
    case Start(Cancel(c, _)) => c < |s.nodes| && s.nodes[c].built
    case Start(Done(c)) => c < |s.nodes| && s.nodes[c].built
    case Move(t, pick) =>
      && t < |s.threads|
      && s.threads[t].stack != []
      && var f := Top(s, t);
      && f.c < |s.nodes|
      && Free(s, Wants(s, f))
      && (f.Iter? && f.todo != {} ==> pick in f.todo)
      && (f.PropLock? || f.PropHold? || f.PropDone? ==> Above(s, f.c).Some? && Above(s, f.c).value < |s.nodes|)
  }

  function Top(s: State, t: nat): Frame
    requires t < |s.threads| && s.threads[t].stack != []
  {
    var stack := s.threads[t].stack;
    stack[|stack| - 1]
  }

  /** What follows propagateCancel in WithCancel and WithDeadline. */
  function AfterProp(cell: Cell, c: nat): seq<Frame> {
    if cell.timed then [Arm(c)] else []
  }

  /** What follows cancelCtx.cancel, depending on the context's type. */
  function AfterCancel(cell: Cell, c: nat, remove: bool, already: bool): seq<Frame> {
    if cell.timed then (if remove then [Remove(c)] else [Stop(c)])
    else if remove && !already then [Remove(c)] else []
  }

  function MakeChan(done: Chan): Chan {
    if done == NoChan then Open else done
  }

  function Begin(s: State, call: Call): State
    requires Enabled(s, Start(call))
  {
    match call
    case New(parent, timed, expired) =>
      var c := |s.nodes|;
      var root := ParentCancelCtx(parent) == None; // parent.Done() == nil
      var cell := Cell(parent, timed, expired, None, NoChan, {}, None, false, root, false);
      s.(nodes := s.nodes + [cell],
         threads := s.threads + [Thread(call, c, if root then AfterProp(cell, c) else [PropDone(c)])])
    case Cancel(c, err) =>
      s.(threads := s.threads + [Thread(call, c, [Enter(c, true, err)])], asked := s.asked + {c})
    case Done(c) =>
      s.(threads := s.threads + [Thread(call, c, [MakeDone(c)])])
  }

  /** What the step of goroutine t writes under the lock it holds or takes. */
  function NextNodes(s: State, t: nat, pick: nat): seq<Cell>
    requires Enabled(s, Move(t, pick))
  {
    var f := Top(s, t);
    var c := f.c;
    var (nodes, cell) := (s.nodes, s.nodes[c]);
    match f
    case PropDone(_) =>
      var p := Above(s, c).value;
      nodes[p := nodes[p].(done := MakeChan(nodes[p].done))]
    case PropLock(_) =>
      var p := Above(s, c).value;
      if nodes[p].err.Some? then nodes[p := nodes[p].(mu := Some(t))]
      else nodes[p := nodes[p].(children := nodes[p].children + {c})][c := cell.(built := true)]
    case PropHold(_) =>
      var p := Above(s, c).value;
      nodes[p := nodes[p].(mu := None)][c := cell.(built := true)]
    case Arm(_) => if !cell.expired && cell.err == None then nodes[c := cell.(armed := true)] else nodes
    case Enter(_, _, err) =>
      if cell.err.Some? then nodes
      else nodes[c := cell.(err := Some(err), done := Closed, mu := Some(t))]
    case Iter(_, _, _, todo) =>
      if todo != {} then nodes else nodes[c := cell.(children := {}, mu := None, settled := true)]
    case Remove(_) =>
      if Above(s, c) == None then nodes
      else
        var p := Above(s, c).value;
        nodes[p := nodes[p].(children := nodes[p].children - {c})]
    case Stop(_) => nodes[c := cell.(armed := false)]
    case MakeDone(_) => nodes[c := cell.(done := MakeChan(cell.done))]
  }

  /** What the step leaves of the frame it ran, and the call it makes. */
  function NextFrames(s: State, t: nat, pick: nat): seq<Frame>
    requires Enabled(s, Move(t, pick))
  {
    var f := Top(s, t);
    var c := f.c;
    var cell := s.nodes[c];
    match f
    case PropDone(_) => [PropLock(c)]
    case PropLock(_) =>
      var up := s.nodes[Above(s, c).value];
      if up.err.Some? then [PropHold(c), Enter(c, false, up.err.value)] // the parent is cancelled
      else AfterProp(cell, c)
    case PropHold(_) => AfterProp(cell, c)
    case Arm(_) => if cell.expired then [Enter(c, true, DeadlineExceeded)] else []
    case Enter(_, remove, err) =>
      if cell.err.Some? then AfterCancel(cell, c, remove, true) else [Iter(c, remove, err, cell.children)]
    case Iter(_, remove, err, todo) =>
      if todo != {} then [Iter(c, remove, err, todo - {pick}), Enter(pick, false, err)]
      else AfterCancel(cell, c, remove, false)
    case Remove(_) => if cell.timed then [Stop(c)] else []
    case Stop(_) => []
    case MakeDone(_) => []
  }

  function NextAsked(s: State, t: nat): set<nat>
    requires t < |s.threads| && s.threads[t].stack != [] && Top(s, t).c < |s.nodes|
  {
    var c := Top(s, t).c;
    if Top(s, t).Arm? && s.nodes[c].expired then s.asked + {c} else s.asked
  }

  /** The stack of t with its top frame replaced. */
  function NextStack(s: State, t: nat, pick: nat): seq<Frame>
    requires Enabled(s, Move(t, pick))
  {
    s.threads[t].stack[..|s.threads[t].stack| - 1] + NextFrames(s, t, pick)
  }

  function Advance(s: State, t: nat, pick: nat): State
    requires Enabled(s, Move(t, pick))
  {
    State(NextNodes(s, t, pick),
          s.threads[t := s.threads[t].(stack := NextStack(s, t, pick))],
          NextAsked(s, t))
  }

  function Apply(s: State, a: Action): State
    requires Enabled(s, a)
  {
    match a
    case Start(call) => Begin(s, call)
    case Move(t, pick) => Advance(s, t, pick)
  }

  ghost predicate Run(acts: seq<Action>, s: State) {
    if acts == [] then s == INIT
    else
      var last := |acts| - 1;
      exists t: State :: Run(acts[..last], t) && Enabled(t, acts[last]) && s == Apply(t, acts[last])
  }

  // ---- The invariant ----

  /** A context is cancelled only on behalf of itself or an ancestor. */
  ghost predicate Covered(s: State, n: nat)
    requires n < |s.nodes|
    decreases n
  {
    || n in s.asked
    || (Above(s, n).Some? && Above(s, n).value < n && Covered(s, Above(s, n).value))
  }

  /** The lock a frame holds. */
  function Holds(s: State, f: Frame): Option<nat>
    requires f.c < |s.nodes|
  {
    if f.Iter? then Some(f.c) else if f.PropHold? then Above(s, f.c) else None
  }

  /** Facts about one context alone; done is closed exactly together with err. */
  ghost predicate CellOk(s: State, n: nat)
    requires n < |s.nodes|
  {
    var cell := s.nodes[n];
    && (Above(s, n).Some? ==> Above(s, n).value < n && s.nodes[Above(s, n).value].built)
    && (cell.err == None <==> cell.done != Closed)
    && (cell.settled ==> cell.err.Some? && cell.children == {})
    && (cell.err.Some? && !cell.settled ==> cell.mu.Some?)
    && (cell.err.Some? ==> Covered(s, n))
    && (forall x | x in cell.children :: x < |s.nodes| && Above(s, x) == Some(n))
    && (cell.mu.Some? ==> Owned(s, n, cell.mu.value))
  }

  /** A held lock belongs to a frame of its holder. */
  ghost predicate Owned(s: State, n: nat, t: nat) {
    && t < |s.threads|
    && exists k: nat :: k < |s.threads[t].stack| && s.threads[t].stack[k].c < |s.nodes|
         && Holds(s, s.threads[t].stack[k]) == Some(n)
  }

  /** A constructed child of a live parent is registered; one of a settled parent is settled. */
  predicate ChildOk(s: State, x: nat)
    requires x < |s.nodes|
  {
    var p := Above(s, x);
    s.nodes[x].built && p.Some? && p.value < |s.nodes| ==>
      && (s.nodes[p.value].err == None ==> x in s.nodes[p.value].children || s.nodes[x].settled)
      && (s.nodes[p.value].settled ==> s.nodes[x].settled)
  }

  /** A frame above another was called by it, on a context right below the lock it holds. */
  predicate CalledBy(s: State, f: Frame, g: Frame)
    requires f.c < |s.nodes| && g.c < |s.nodes|
  {
    && (f.Stop? || ((f.Enter? || f.Iter?) && !f.remove))
    && Holds(s, g).Some? && Above(s, f.c) == Holds(s, g)
    && (g.PropHold? ==> g.c == f.c)
  }

  /** Of the context being cancelled every constructed child is settled, yet to come, or in hand. */
  predicate Accounted(s: State, c: nat, todo: set<nat>, callee: Option<nat>) {
    && (forall x | x in todo :: x < |s.nodes| && Above(s, x) == Some(c))
    && (forall x: nat | x < |s.nodes| && s.nodes[x].built && Above(s, x) == Some(c) ::
         s.nodes[x].settled || x in todo || callee == Some(x))
  }

  predicate FrameOk(s: State, t: nat, stack: seq<Frame>, k: nat)
    requires k < |stack|
  {
    var f := stack[k];
    && f.c < |s.nodes|
    && (k > 0 ==> stack[k - 1].c < |s.nodes| && CalledBy(s, f, stack[k - 1]))
    && match f
       case PropDone(c) => Above(s, c).Some? && Above(s, c).value < |s.nodes| && s.nodes[Above(s, c).value].built
       case PropLock(c) => Above(s, c).Some? && Above(s, c).value < |s.nodes| && s.nodes[Above(s, c).value].built
       case PropHold(c) =>
         && Above(s, c).Some? && Above(s, c).value < |s.nodes|
         && s.nodes[Above(s, c).value].mu == Some(t) && s.nodes[Above(s, c).value].settled
         && (k == |stack| - 1 ==> s.nodes[c].settled)
       case Iter(c, _, _, todo) =>
         && s.nodes[c].mu == Some(t) && s.nodes[c].err.Some? && !s.nodes[c].settled
         && Accounted(s, c, todo, if k + 1 < |stack| then Some(stack[k + 1].c) else None)
       case Remove(c) => s.nodes[c].settled
       case Stop(c) => s.nodes[c].settled
       case _ => true
  }

  ghost predicate FrameCovered(s: State, f: Frame) {
    f.c < |s.nodes| && (f.Enter? ==> Covered(s, f.c))
  }

  ghost predicate StackOk(s: State, t: nat, stack: seq<Frame>) {
    forall k: nat | k < |stack| :: FrameOk(s, t, stack, k) && FrameCovered(s, stack[k])
  }

  ghost predicate Inv(s: State) {
    && (forall n: nat | n < |s.nodes| :: CellOk(s, n) && ChildOk(s, n))
    && (forall t: nat | t < |s.threads| :: StackOk(s, t, s.threads[t].stack))
  }

  // ---- What a step may change for the frames it does not touch ----

  /** Contexts only grow older; no lock but freed changes hands, and no child appears under a held one. */
  predicate Grown(s: State, u: State, freed: Option<nat>) {
    && |s.nodes| <= |u.nodes|
    && s.asked <= u.asked
    && (forall n: nat | n < |s.nodes| ::
         var (a, b) := (s.nodes[n], u.nodes[n]);
         && a.parent == b.parent && a.timed == b.timed && a.expired == b.expired
         && (a.built ==> b.built) && (a.settled ==> b.settled)
         && (a.err.Some? ==> b.err == a.err)
         && (a.mu.Some? && freed != Some(n) ==> b.mu == a.mu && b.settled == a.settled))
    && (forall x: nat | x < |u.nodes| && u.nodes[x].built && !(x < |s.nodes| && s.nodes[x].built) ::
         var p := ParentCancelCtx(u.nodes[x].parent);
         p.Some? && p.value < |s.nodes| && s.nodes[p.value].mu.Some? ==> freed == p)
  }

  lemma {:induction false} CoveredKept(s: State, u: State, freed: Option<nat>, n: nat)
    requires Grown(s, u, freed) && n < |s.nodes| && Covered(s, n)
    ensures Covered(u, n)
    decreases n
  {
    if n !in s.asked {
      CoveredKept(s, u, freed, Above(s, n).value);
    }
  }

  lemma FrameKept(s: State, u: State, freed: Option<nat>, t: nat, stack: seq<Frame>, k: nat)
    requires Grown(s, u, freed) && k < |stack| && FrameOk(s, t, stack, k)
    requires freed.Some? ==> Holds(s, stack[k]) != freed
    requires Holds(s, stack[k]).Some? ==> Holds(s, stack[k]).value < |s.nodes|
    ensures FrameOk(u, t, stack, k)
  {
    hide Accounted;
    var f := stack[k];
    if f.Iter? {
      AccountedKept(s, u, freed, f.c, f.todo, if k + 1 < |stack| then Some(stack[k + 1].c) else None);
    }
  }

  lemma AccountedKept(s: State, u: State, freed: Option<nat>, c: nat, todo: set<nat>, callee: Option<nat>)
    requires Grown(s, u, freed) && freed != Some(c) && c < |s.nodes| && s.nodes[c].mu.Some?
    requires Accounted(s, c, todo, callee)
    ensures Accounted(u, c, todo, callee)
  {
    forall x: nat | x < |u.nodes| && u.nodes[x].built && Above(u, x) == Some(c)
      ensures u.nodes[x].settled || x in todo || callee == Some(x)
    {
      assert x < |s.nodes| && s.nodes[x].built;
    }
  }

  /** A frame's caller holds the lock right above its context, and a called frame only its own. */
  lemma CallerHolds(s: State, t: nat, stack: seq<Frame>, k: nat)
    requires 0 < k < |stack| && StackOk(s, t, stack)
    requires forall n: nat | n < |s.nodes| :: CellOk(s, n)
    ensures stack[k - 1].c < |s.nodes| && stack[k].c < |s.nodes|
    ensures Holds(s, stack[k - 1]).Some? && Holds(s, stack[k - 1]).value < stack[k].c
    ensures Holds(s, stack[k]).Some? ==> Holds(s, stack[k]) == Some(stack[k].c)
  {
    assert FrameOk(s, t, stack, k) && FrameOk(s, t, stack, k - 1);
    assert CellOk(s, stack[k].c);
  }

  /** Locks are taken parent before child: every lock below a frame belongs to an ancestor of its context. */
  lemma {:induction false} LocksAbove(s: State, t: nat, stack: seq<Frame>, j: nat, k: nat)
    requires j < k < |stack| && StackOk(s, t, stack)
    requires forall n: nat | n < |s.nodes| :: CellOk(s, n)
    ensures stack[j].c < |s.nodes| && stack[k].c < |s.nodes|
    ensures Holds(s, stack[j]).Some? && Holds(s, stack[j]).value < stack[k].c
    ensures Holds(s, stack[k]).Some? ==> Holds(s, stack[j]) != Holds(s, stack[k])
  {
    hide StackOk, CellOk, Holds;
    CallerHolds(s, t, stack, k);
    if j < k - 1 {
      LocksAbove(s, t, stack, j, k - 1);
      CallerHolds(s, t, stack, k - 1);
    }
  }

  /** The stack after its top frame moved on, or returned because its context is settled. */
  ghost predicate Continues(u: State, stack: seq<Frame>, after: seq<Frame>)
    requires stack != []
  {
    var m := |stack| - 1;
    && |after| >= m
    && (forall i: nat | i < m :: after[i] == stack[i])
    && stack[m].c < |u.nodes|
    && if |after| > m then after[m].c == stack[m].c else m > 0 ==> u.nodes[stack[m].c].settled
  }

  /** A frame depends only on its caller and on the context its callee works on. */
  lemma FrameRestacked(u: State, t: nat, stack: seq<Frame>, after: seq<Frame>, k: nat)
    requires k + 1 < |stack| && FrameOk(u, t, stack, k) && Continues(u, stack, after)
    requires stack[k].PropHold? && k + 2 == |stack| ==> stack[k].c == stack[k + 1].c
    ensures FrameOk(u, t, after, k)
  {
    assert after[k] == stack[k] && (k > 0 ==> after[k - 1] == stack[k - 1]);
    assert k + 1 < |after| ==> after[k + 1].c == stack[k + 1].c;
    if stack[k].Iter? && k + 1 == |after| {
      assert Accounted(u, stack[k].c, stack[k].todo, None);
    }
    hide Accounted;
  }

  /** A lower frame survives its callee's moving on, and its returning once the callee's context is settled. */
  lemma LowerFrameKept(s: State, u: State, freed: Option<nat>, t: nat, stack: seq<Frame>, after: seq<Frame>, k: nat)
    requires stack != [] && k < |stack| - 1
    requires StackOk(s, t, stack) && Grown(s, u, freed)
    requires forall n: nat | n < |s.nodes| :: CellOk(s, n)
    requires stack[|stack| - 1].c < |s.nodes|
    requires freed.Some? ==> Holds(s, stack[|stack| - 1]) == freed
    requires Continues(u, stack, after)
    ensures FrameOk(u, t, after, k)
  {
    hide *;
    LocksAbove(s, t, stack, k, |stack| - 1);
    FrameAt(s, t, stack, k);
    FrameAt(s, t, stack, k + 1);
    CallerMatches(s, t, stack, k);
    LockInRange(s, t, stack, k);
    FrameKept(s, u, freed, t, stack, k);
    FrameRestacked(u, t, stack, after, k);
  }

  lemma FrameAt(s: State, t: nat, stack: seq<Frame>, k: nat)
    requires StackOk(s, t, stack) && k < |stack|
    ensures FrameOk(s, t, stack, k)
  {
  }

  lemma CallerMatches(s: State, t: nat, stack: seq<Frame>, k: nat)
    requires k + 1 < |stack| && FrameOk(s, t, stack, k + 1)
    ensures stack[k].PropHold? ==> stack[k].c == stack[k + 1].c
  {
  }

  lemma LockInRange(s: State, t: nat, stack: seq<Frame>, k: nat)
    requires k < |stack| && FrameOk(s, t, stack, k)
    ensures Holds(s, stack[k]).Some? ==> Holds(s, stack[k]).value < |s.nodes|
  {
  }

  /** Another goroutine's frames are out of reach. */
  lemma OtherStackKept(s: State, u: State, freed: Option<nat>, t: nat, t': nat, stack: seq<Frame>)
    requires Grown(s, u, freed) && StackOk(s, t', stack) && t != t'
    requires freed.Some? ==> freed.value < |s.nodes| && s.nodes[freed.value].mu == Some(t)
    ensures StackOk(u, t', stack)
  {
    forall k: nat | k < |stack|
      ensures FrameOk(u, t', stack, k) && FrameCovered(u, stack[k])
    {
      assert FrameOk(s, t', stack, k) && FrameCovered(s, stack[k]);
      FrameKept(s, u, freed, t', stack, k);
      if stack[k].Enter? {
        CoveredKept(s, u, freed, stack[k].c);
      }
    }
  }

  /** The stack of t after its step, and the lock the step gave up. */
  ghost predicate ShapeOk(s: State, u: State, freed: Option<nat>, t: nat, after: seq<Frame>)
    requires t < |s.threads| && s.threads[t].stack != [] && Top(s, t).c < |s.nodes|
  {
    && (freed.Some? ==>
         Holds(s, Top(s, t)) == freed && freed.value < |s.nodes| && s.nodes[freed.value].mu == Some(t))
    && u.threads == s.threads[t := s.threads[t].(stack := after)]
    && Continues(u, s.threads[t].stack, after)
  }

  ghost predicate NewFramesOk(u: State, t: nat, after: seq<Frame>, m: nat) {
    forall k: nat | m <= k < |after| :: FrameOk(u, t, after, k) && FrameCovered(u, after[k])
  }

  /** What one step of goroutine t must show about its own new frames. */
  ghost predicate StepOk(s: State, u: State, freed: Option<nat>, t: nat, after: seq<Frame>)
    requires t < |s.threads| && s.threads[t].stack != [] && Top(s, t).c < |s.nodes|
  {
    && Grown(s, u, freed)
    && ShapeOk(s, u, freed, t, after)
    && NewFramesOk(u, t, after, |s.threads[t].stack| - 1)
  }

  lemma StacksKept(s: State, u: State, freed: Option<nat>, t: nat, after: seq<Frame>)
    requires Inv(s) && t < |s.threads| && s.threads[t].stack != [] && Top(s, t).c < |s.nodes|
    requires StepOk(s, u, freed, t, after)
    ensures forall t': nat | t' < |u.threads| :: StackOk(u, t', u.threads[t'].stack)
  {
    forall t': nat | t' < |u.threads|
      ensures StackOk(u, t', u.threads[t'].stack)
    {
      if t' != t {
        OtherStackKept(s, u, freed, t, t', s.threads[t'].stack);
      } else {
        OwnStackKept(s, u, freed, t, after);
      }
    }
  }

  lemma OwnStackKept(s: State, u: State, freed: Option<nat>, t: nat, after: seq<Frame>)
    requires Inv(s) && t < |s.threads| && s.threads[t].stack != [] && Top(s, t).c < |s.nodes|
    requires StepOk(s, u, freed, t, after)
    ensures StackOk(u, t, after)
  {
    hide Inv;
    forall k: nat | k < |after|
      ensures FrameOk(u, t, after, k) && FrameCovered(u, after[k])
    {
      if k < |s.threads[t].stack| - 1 {
        LowerFrameOk(s, u, freed, t, after, k);
      } else {
        hide Grown, ShapeOk, FrameOk, FrameCovered;
      }
    }
  }

  lemma LowerFrameOk(s: State, u: State, freed: Option<nat>, t: nat, after: seq<Frame>, k: nat)
    requires Inv(s) && t < |s.threads| && s.threads[t].stack != [] && Top(s, t).c < |s.nodes|
    requires StepOk(s, u, freed, t, after) && k < |s.threads[t].stack| - 1
    ensures k < |after| && FrameOk(u, t, after, k) && FrameCovered(u, after[k])
  {
    var stack := s.threads[t].stack;
    assert StackOk(s, t, stack);
    LocksAbove(s, t, stack, k, |stack| - 1);
    assert after[k] == stack[k];
    hide NewFramesOk, FrameOk, StackOk, CellOk;
    LowerFrameKept(s, u, freed, t, stack, after, k);
  }

  /** What one step of goroutine t must show about a context. */
  ghost predicate CellStep(s: State, u: State, t: nat, after: seq<Frame>, n: nat)
    requires t < |s.threads| && s.threads[t].stack != [] && Top(s, t).c < |s.nodes|
    requires n < |s.nodes| && |s.nodes| <= |u.nodes|
  {
    var (a, b, m) := (s.nodes[n], u.nodes[n], |s.threads[t].stack| - 1);
    && (b.err == None <==> b.done != Closed)
    && (b.settled ==> b.err.Some? && b.children == {})
    && (b.err.Some? && !b.settled ==> b.mu.Some?)
    && (b.err.Some? ==> a.err.Some? || Covered(u, n))
    && (forall x | x in b.children :: x in a.children || (x < |u.nodes| && Above(u, x) == Some(n)))
    && (b.mu.Some? ==>
         || (b.mu == a.mu && Holds(s, Top(s, t)) != Some(n))
         || (b.mu.value == t && |after| > m && after[m].c < |u.nodes| && Holds(u, after[m]) == Some(n)))
  }

  lemma CellKept(s: State, u: State, freed: Option<nat>, t: nat, after: seq<Frame>, n: nat)
    requires Inv(s) && t < |s.threads| && s.threads[t].stack != [] && Top(s, t).c < |s.nodes|
    requires StepOk(s, u, freed, t, after) && n < |s.nodes| && CellStep(s, u, t, after, n)
    ensures CellOk(u, n)
  {
    assert Grown(s, u, freed) && CellOk(s, n) && (s.nodes[n].err.Some? ==> Covered(s, n));
    hide *;
    if u.nodes[n].mu.Some? {
      OwnerKept(s, u, freed, t, after, n);
    }
    if s.nodes[n].err.Some? {
      CoveredKept(s, u, freed, n);
    }
    CellFromStep(s, u, freed, t, after, n);
  }

  lemma CellFromStep(s: State, u: State, freed: Option<nat>, t: nat, after: seq<Frame>, n: nat)
    requires t < |s.threads| && s.threads[t].stack != [] && Top(s, t).c < |s.nodes|
    requires Grown(s, u, freed) && n < |s.nodes| && CellOk(s, n) && CellStep(s, u, t, after, n)
    requires u.nodes[n].mu.Some? ==> Owned(u, n, u.nodes[n].mu.value)
    requires s.nodes[n].err.Some? ==> Covered(u, n)
    ensures CellOk(u, n)
  {
    hide Owned, Covered;
  }

  lemma OwnerKept(s: State, u: State, freed: Option<nat>, t: nat, after: seq<Frame>, n: nat)
    requires Inv(s) && t < |s.threads| && s.threads[t].stack != [] && Top(s, t).c < |s.nodes|
    requires StepOk(s, u, freed, t, after) && n < |s.nodes| && CellStep(s, u, t, after, n)
    requires u.nodes[n].mu.Some?
    ensures Owned(u, n, u.nodes[n].mu.value)
  {
    var m := |s.threads[t].stack| - 1;
    if u.nodes[n].mu == s.nodes[n].mu && Holds(s, Top(s, t)) != Some(n) {
      assert CellOk(s, n);
      FrameStillOwns(s, u, freed, t, after, n, s.nodes[n].mu.value);
    } else {
      assert u.threads[t].stack[m] == after[m];
    }
  }

  lemma FrameStillOwns(s: State, u: State, freed: Option<nat>, t: nat, after: seq<Frame>, n: nat, t': nat)
    requires t < |s.threads| && s.threads[t].stack != [] && Top(s, t).c < |s.nodes|
    requires StepOk(s, u, freed, t, after) && Owned(s, n, t') && Holds(s, Top(s, t)) != Some(n)
    ensures Owned(u, n, t')
  {
    assert Grown(s, u, freed) && ShapeOk(s, u, freed, t, after);
    assert Top(s, t) == s.threads[t].stack[|s.threads[t].stack| - 1];
    hide *;
    var k := OwnerFrame(s, n, t');
    FrameStays(s, u, freed, t, after, t', k);
    LockStays(s, u, freed, s.threads[t'].stack[k]);
    OwnedBy(u, n, t', k);
  }

  lemma OwnerFrame(s: State, n: nat, t: nat) returns (k: nat)
    requires Owned(s, n, t)
    ensures t < |s.threads| && k < |s.threads[t].stack| && s.threads[t].stack[k].c < |s.nodes|
    ensures Holds(s, s.threads[t].stack[k]) == Some(n)
  {
    k :| k < |s.threads[t].stack| && s.threads[t].stack[k].c < |s.nodes| && Holds(s, s.threads[t].stack[k]) == Some(n);
  }

  lemma OwnedBy(s: State, n: nat, t: nat, k: nat)
    requires t < |s.threads| && k < |s.threads[t].stack| && s.threads[t].stack[k].c < |s.nodes|
    requires Holds(s, s.threads[t].stack[k]) == Some(n)
    ensures Owned(s, n, t)
  {
  }

  lemma FrameStays(s: State, u: State, freed: Option<nat>, t: nat, after: seq<Frame>, t': nat, k: nat)
    requires t < |s.threads| && s.threads[t].stack != [] && Top(s, t).c < |s.nodes|
    requires ShapeOk(s, u, freed, t, after) && t' < |s.threads| && k < |s.threads[t'].stack|
    requires t' == t ==> k != |s.threads[t].stack| - 1
    ensures t' < |u.threads| && k < |u.threads[t'].stack| && u.threads[t'].stack[k] == s.threads[t'].stack[k]
  {
  }

  lemma LockStays(s: State, u: State, freed: Option<nat>, f: Frame)
    requires Grown(s, u, freed) && f.c < |s.nodes|
    ensures f.c < |u.nodes| && Holds(u, f) == Holds(s, f)
  {
  }

  // ---- Every kind of step meets those obligations ----

  /** The lock a step gives up. */
  function Freed(s: State, t: nat): Option<nat>
    requires t < |s.threads| && s.threads[t].stack != [] && Top(s, t).c < |s.nodes|
  {
    var f := Top(s, t);
    if f.PropHold? || (f.Iter? && f.todo == {}) then Holds(s, f) else None
  }

  ghost predicate CellsStep(s: State, u: State, t: nat, after: seq<Frame>)
    requires t < |s.threads| && s.threads[t].stack != [] && Top(s, t).c < |s.nodes|
  {
    && |u.nodes| == |s.nodes|
    && (forall n: nat | n < |s.nodes| :: CellStep(s, u, t, after, n))
  }

  ghost predicate ChildrenOk(u: State) {
    forall x: nat | x < |u.nodes| :: ChildOk(u, x)
  }

  /** The top frame before and after a step. */
  lemma StackTop(s: State, t: nat, pick: nat)
    requires Enabled(s, Move(t, pick))
    ensures
      var (stack, next, after) := (s.threads[t].stack, NextFrames(s, t, pick), NextStack(s, t, pick));
      var m := |stack| - 1;
      && stack[m] == Top(s, t)
      && |after| == m + |next|
      && (forall i: nat | i < m :: after[i] == stack[i])
      && (forall i: nat | i < |next| :: after[m + i] == next[i])
  {
  }

  /** A frame is replaced by frames for the same context; it returns only when nothing below waits or it is settled. */
  lemma MoveShape(s: State, t: nat, pick: nat)
    requires Inv(s) && Enabled(s, Move(t, pick))
    ensures ShapeOk(s, Advance(s, t, pick), Freed(s, t), t, NextStack(s, t, pick))
  {
    hide Inv;
    TopOk(s, t);
    StackTop(s, t, pick);
    ReturnSettled(s, t, pick);
    SameParents(s, t, pick);
    NextIsOwn(s, t, pick);
    hide NextFrames, NextNodes, NextStack, NextAsked, Enabled, CellOk, ChildOk, FrameCovered, Covered, Accounted;
  }

  lemma NextIsOwn(s: State, t: nat, pick: nat)
    requires Enabled(s, Move(t, pick))
    ensures NextFrames(s, t, pick) != [] ==> NextFrames(s, t, pick)[0].c == Top(s, t).c
  {
  }

  lemma ReturnSettled(s: State, t: nat, pick: nat)
    requires Inv(s) && Enabled(s, Move(t, pick))
    ensures |s.threads[t].stack| > 1 && NextFrames(s, t, pick) == [] ==> Advance(s, t, pick).nodes[Top(s, t).c].settled
  {
    hide Inv;
    TopOk(s, t);
    hide Accounted;
  }

  /** The frames whose step gives up no lock, cancels nothing and registers nothing. */
  predicate Calm(f: Frame) {
    f.PropDone? || f.Arm? || f.Remove? || f.Stop? || f.MakeDone?
  }

  /** Their step makes a channel, sets or stops a timer, or removes a settled child. */
  predicate CalmCell(s: State, a: Cell, b: Cell) {
    && b == a.(done := b.done, armed := b.armed, children := b.children)
    && (b.done == a.done || b.done == MakeChan(a.done))
    && b.children <= a.children
    && forall x | x in a.children && x !in b.children :: x < |s.nodes| && s.nodes[x].settled
  }

  predicate CalmNodes(s: State, nodes: seq<Cell>) {
    |nodes| == |s.nodes| && forall n: nat | n < |s.nodes| :: CalmCell(s, s.nodes[n], nodes[n])
  }

  lemma CalmStep(s: State, t: nat, pick: nat)
    requires Inv(s) && Enabled(s, Move(t, pick)) && Calm(Top(s, t))
    ensures CalmNodes(s, NextNodes(s, t, pick)) && s.asked <= NextAsked(s, t)
    ensures Freed(s, t) == None && Holds(s, Top(s, t)) == None
  {
    hide Inv;
    TopOk(s, t);
    hide Accounted, CellOk, ChildOk, FrameCovered;
  }

  lemma CalmGrown(s: State, u: State)
    requires CalmNodes(s, u.nodes) && s.asked <= u.asked
    ensures Grown(s, u, None)
  {
  }

  lemma CalmCells(s: State, u: State, t: nat, after: seq<Frame>)
    requires Inv(s) && t < |s.threads| && s.threads[t].stack != [] && Top(s, t).c < |s.nodes|
    requires CalmNodes(s, u.nodes) && Holds(s, Top(s, t)) == None
    ensures CellsStep(s, u, t, after)
  {
    assert forall n: nat | n < |s.nodes| :: CellOk(s, n);
    hide Inv, Covered, Owned;
    forall n: nat | n < |s.nodes|
      ensures CellStep(s, u, t, after, n)
    {
      assert CellOk(s, n) && CalmCell(s, s.nodes[n], u.nodes[n]);
    }
  }

  lemma CalmChildren(s: State, u: State)
    requires Inv(s) && CalmNodes(s, u.nodes)
    ensures ChildrenOk(u)
  {
    forall x: nat | x < |u.nodes|
      ensures ChildOk(u, x)
    {
      assert ChildOk(s, x);
    }
  }

  /** They are followed by at most one frame, which is at the bottom. */
  predicate CalmNext(f: Frame, g: Frame) {
    || (f.PropDone? && g == PropLock(f.c))
    || (f.Arm? && g == Enter(f.c, true, DeadlineExceeded))
    || (f.Remove? && g == Stop(f.c))
  }

  lemma CalmFrames(s: State, t: nat, pick: nat)
    requires Enabled(s, Move(t, pick)) && Calm(Top(s, t))
    ensures var next := NextFrames(s, t, pick);
      next == [] || (|next| == 1 && CalmNext(Top(s, t), next[0]) && (next[0].Enter? ==> next[0].c in NextAsked(s, t)))
  {
  }

  lemma CalmFrame(s: State, u: State, t: nat, stack: seq<Frame>, after: seq<Frame>, k: nat)
    requires k < |stack| && k < |after| && FrameOk(s, t, stack, k) && CalmNext(stack[k], after[k])
    requires CalmNodes(s, u.nodes) && (after[k].Enter? ==> after[k].c in u.asked)
    ensures FrameOk(u, t, after, k) && FrameCovered(u, after[k])
  {
    var c := stack[k].c;
    assert CalmCell(s, s.nodes[c], u.nodes[c]);
    if stack[k].PropDone? {
      assert CalmCell(s, s.nodes[Above(s, c).value], u.nodes[Above(s, c).value]);
    }
    hide Accounted, CalmNodes;
  }

  lemma CalmNew(s: State, t: nat, pick: nat)
    requires Inv(s) && Enabled(s, Move(t, pick)) && Calm(Top(s, t))
    ensures NewFramesOk(Advance(s, t, pick), t, NextStack(s, t, pick), |s.threads[t].stack| - 1)
  {
    hide Inv, FrameOk, FrameCovered, CalmNext, CellOk, ChildOk, CalmNodes, NextFrames, NextNodes, NextAsked, NextStack;
    TopOk(s, t);
    StackTop(s, t, pick);
    CalmStep(s, t, pick);
    CalmFrames(s, t, pick);
    var (u, stack, after) := (Advance(s, t, pick), s.threads[t].stack, NextStack(s, t, pick));
    if |after| == |stack| {
      assert u.nodes == NextNodes(s, t, pick) && u.asked == NextAsked(s, t);
      CalmFrame(s, u, t, stack, after, |stack| - 1);
    }
  }

  lemma CalmKept(s: State, t: nat, pick: nat)
    requires Inv(s) && Enabled(s, Move(t, pick)) && Calm(Top(s, t))
    ensures var (u, after) := (Advance(s, t, pick), NextStack(s, t, pick));
      && Grown(s, u, Freed(s, t)) && NewFramesOk(u, t, after, |s.threads[t].stack| - 1)
      && CellsStep(s, u, t, after) && ChildrenOk(u)
  {
    var (u, after) := (Advance(s, t, pick), NextStack(s, t, pick));
    CalmStep(s, t, pick);
    assert u.nodes == NextNodes(s, t, pick) && u.asked == NextAsked(s, t);
    hide *;
    CalmGrown(s, u);
    CalmCells(s, u, t, after);
    CalmChildren(s, u);
    CalmNew(s, t, pick);
  }

  lemma PropLockGrown(s: State, t: nat, pick: nat)
    requires Inv(s) && Enabled(s, Move(t, pick)) && Top(s, t).PropLock?
    ensures Grown(s, Advance(s, t, pick), Freed(s, t))
  {
    var (c, u) := (Top(s, t).c, Advance(s, t, pick));
    PropLockWrites(s, t, pick);
    hide *;
    if s.nodes[Above(s, c).value].err.Some? {
      TakenGrown(s, u, Above(s, c).value, t);
    } else {
      JoinedGrown(s, u, Above(s, c).value, c);
    }
  }

  /** What the step under the parent's lock writes. */
  lemma PropLockWrites(s: State, t: nat, pick: nat)
    requires Inv(s) && Enabled(s, Move(t, pick)) && Top(s, t).PropLock?
    ensures
      var (c, u) := (Top(s, t).c, Advance(s, t, pick));
      var p := Above(s, c);
      && p.Some? && p.value < c < |s.nodes| && s.nodes[p.value].mu == None && CellOk(s, p.value)
      && Freed(s, t) == None && Holds(s, Top(s, t)) == None && u.asked == s.asked
      && if s.nodes[p.value].err.Some? then Taken(s.nodes, u.nodes, p.value, t)
        else Joined(s.nodes, u.nodes, p.value, c)
  {
    TopOk(s, t);
    hide NextFrames, NextStack, FrameOk, FrameCovered, ChildOk, Covered, Owned;
  }

  predicate Taken(nodes: seq<Cell>, after: seq<Cell>, p: nat, t: nat) {
    p < |nodes| && after == nodes[p := nodes[p].(mu := Some(t))]
  }

  predicate Joined(nodes: seq<Cell>, after: seq<Cell>, p: nat, c: nat) {
    p < c < |nodes|
    && after == nodes[p := nodes[p].(children := nodes[p].children + {c})][c := nodes[c].(built := true)]
  }

  lemma TakenGrown(s: State, u: State, p: nat, t: nat)
    requires Taken(s.nodes, u.nodes, p, t) && s.nodes[p].mu == None && s.asked == u.asked
    ensures Grown(s, u, None)
  {
  }

  lemma JoinedGrown(s: State, u: State, p: nat, c: nat)
    requires Joined(s.nodes, u.nodes, p, c) && s.nodes[p].mu == None && Above(s, c) == Some(p) && s.asked == u.asked
    ensures Grown(s, u, None)
  {
  }

  lemma PropLockNew(s: State, t: nat, pick: nat)
    requires Inv(s) && Enabled(s, Move(t, pick)) && Top(s, t).PropLock?
    ensures NewFramesOk(Advance(s, t, pick), t, NextStack(s, t, pick), |s.threads[t].stack| - 1)
  {
    PropLockWrites(s, t, pick);
    if s.nodes[Above(s, Top(s, t).c).value].err.Some? {
      PropLockHolds(s, t, pick);
    } else {
      PropLockArms(s, t, pick);
    }
  }

  lemma PropLockArms(s: State, t: nat, pick: nat)
    requires Inv(s) && Enabled(s, Move(t, pick)) && Top(s, t).PropLock?
    requires s.nodes[Above(s, Top(s, t).c).value].err == None
    ensures NewFramesOk(Advance(s, t, pick), t, NextStack(s, t, pick), |s.threads[t].stack| - 1)
  {
    hide Inv;
    TopOk(s, t);
    StackTop(s, t, pick);
    hide NextStack, CellOk, ChildOk, FrameCovered, Accounted, Covered;
    assert |s.threads[t].stack| == 1;
  }

  lemma PropLockHolds(s: State, t: nat, pick: nat)
    requires Inv(s) && Enabled(s, Move(t, pick)) && Top(s, t).PropLock?
    requires s.nodes[Above(s, Top(s, t).c).value].err.Some?
    ensures NewFramesOk(Advance(s, t, pick), t, NextStack(s, t, pick), |s.threads[t].stack| - 1)
  {
    hide Inv;
    TopOk(s, t);
    StackTop(s, t, pick);
    PropLockWrites(s, t, pick);
    SameParents(s, t, pick);
    var (c, u, after) := (Top(s, t).c, Advance(s, t, pick), NextStack(s, t, pick));
    var p := Above(s, c).value;
    assert |s.threads[t].stack| == 1;
    SameCovered(s, u, p);
    assert u.nodes[p].mu == Some(t) && u.nodes[p].settled && Above(u, c) == Some(p);
    assert |after| == 2 && after[0] == PropHold(c) && after[1] == Enter(c, false, s.nodes[p].err.value);
    hide *;
    HoldAndEnter(u, t, after, c, p);
  }

  lemma HoldAndEnter(u: State, t: nat, after: seq<Frame>, c: nat, p: nat)
    requires |after| == 2 && after[0] == PropHold(c) && after[1].Enter? && after[1].c == c && !after[1].remove
    requires p < c < |u.nodes| && Above(u, c) == Some(p) && u.nodes[p].mu == Some(t) && u.nodes[p].settled
    requires Covered(u, p)
    ensures NewFramesOk(u, t, after, 0)
  {
    assert Covered(u, c);
    hide Covered;
  }

  lemma PropLockCells(s: State, t: nat, pick: nat)
    requires Inv(s) && Enabled(s, Move(t, pick)) && Top(s, t).PropLock?
    ensures CellsStep(s, Advance(s, t, pick), t, NextStack(s, t, pick))
  {
    PropLockWrites(s, t, pick);
    StackTop(s, t, pick);
    assert forall n: nat | n < |s.nodes| :: CellOk(s, n);
    var (u, c, after, m) := (Advance(s, t, pick), Top(s, t).c, NextStack(s, t, pick), |s.threads[t].stack| - 1);
    var p := Above(s, c).value;
    assert s.nodes[p].err.Some? ==> |after| > m && after[m] == PropHold(c);
    hide Inv, Advance, NextNodes, NextFrames, NextStack, Enabled, Owned, Covered, Freed;
    forall n: nat | n < |s.nodes|
      ensures CellStep(s, u, t, after, n)
    {
      assert CellOk(s, n);
    }
  }

  lemma PropLockChildren(s: State, t: nat, pick: nat)
    requires Inv(s) && Enabled(s, Move(t, pick)) && Top(s, t).PropLock?
    ensures ChildrenOk(Advance(s, t, pick))
  {
    TopOk(s, t);
    var u := Advance(s, t, pick);
    assert CellOk(s, Above(s, Top(s, t).c).value);
    hide NextStack, NextFrames, Accounted;
    forall x: nat | x < |u.nodes|
      ensures ChildOk(u, x)
    {
      assert ChildOk(s, x) && CellOk(s, x);
    }
  }

  lemma PropHoldGrown(s: State, t: nat, pick: nat)
    requires Inv(s) && Enabled(s, Move(t, pick)) && Top(s, t).PropHold?
    ensures Grown(s, Advance(s, t, pick), Freed(s, t))
  {
    hide Inv;
    TopOk(s, t);
    hide Accounted, NextFrames, NextStack;
  }

  lemma PropHoldNew(s: State, t: nat, pick: nat)
    requires Inv(s) && Enabled(s, Move(t, pick)) && Top(s, t).PropHold?
    ensures NewFramesOk(Advance(s, t, pick), t, NextStack(s, t, pick), |s.threads[t].stack| - 1)
  {
    hide Inv;
    TopOk(s, t);
    StackTop(s, t, pick);
    hide Accounted, NextStack, Covered;
  }

  lemma PropHoldCells(s: State, t: nat, pick: nat)
    requires Inv(s) && Enabled(s, Move(t, pick)) && Top(s, t).PropHold?
    ensures CellsStep(s, Advance(s, t, pick), t, NextStack(s, t, pick))
  {
    TopOk(s, t);
    StackTop(s, t, pick);
    var u := Advance(s, t, pick);
    hide NextStack, Accounted, Covered;
    forall n: nat | n < |s.nodes|
      ensures CellStep(s, u, t, NextStack(s, t, pick), n)
    {
      assert CellOk(s, n);
    }
  }

  lemma PropHoldChildren(s: State, t: nat, pick: nat)
    requires Inv(s) && Enabled(s, Move(t, pick)) && Top(s, t).PropHold?
    ensures ChildrenOk(Advance(s, t, pick))
  {
    TopOk(s, t);
    var u := Advance(s, t, pick);
    hide NextStack, NextFrames, Accounted;
    forall x: nat | x < |u.nodes|
      ensures ChildOk(u, x)
    {
      assert ChildOk(s, x) && CellOk(s, x);
    }
  }

  lemma EnterGrown(s: State, t: nat, pick: nat)
    requires Inv(s) && Enabled(s, Move(t, pick)) && Top(s, t).Enter?
    ensures Grown(s, Advance(s, t, pick), Freed(s, t))
  {
    hide Inv;
    TopOk(s, t);
    hide Accounted, NextFrames, NextStack;
  }

  /** The frame that replaces the top one has the same caller. */
  lemma CallerStays(s: State, t: nat, pick: nat, g: Frame)
    requires Inv(s) && Enabled(s, Move(t, pick)) && g.c == Top(s, t).c
    requires g.Stop? || ((g.Enter? || g.Iter?) && (Top(s, t).Enter? || Top(s, t).Iter?) && g.remove == Top(s, t).remove)
    ensures
      var (u, after, m) := (Advance(s, t, pick), NextStack(s, t, pick), |s.threads[t].stack| - 1);
      m > 0 ==> |after| >= m && after[m - 1].c < |u.nodes| && g.c < |u.nodes| && CalledBy(u, g, after[m - 1])
  {
    hide Inv;
    TopOk(s, t);
    StackTop(s, t, pick);
    SameParents(s, t, pick);
    var (u, stack, after, m) := (Advance(s, t, pick), s.threads[t].stack, NextStack(s, t, pick),
      |s.threads[t].stack| - 1);
    if m > 0 {
      assert after[m - 1] == stack[m - 1] && stack[m - 1].c < |s.nodes| && CalledBy(s, stack[m], stack[m - 1]);
      hide *;
      SameCaller(s, u, stack[m], g, stack[m - 1]);
    }
  }

  lemma SameCaller(s: State, u: State, f: Frame, f': Frame, g: Frame)
    requires f.c < |s.nodes| && g.c < |s.nodes| && CalledBy(s, f, g) && |s.nodes| == |u.nodes| && f'.c == f.c
    requires f'.Stop? || ((f'.Enter? || f'.Iter?) && (f.Enter? || f.Iter?) && f'.remove == f.remove)
    requires u.nodes[f.c].parent == s.nodes[f.c].parent && u.nodes[g.c].parent == s.nodes[g.c].parent
    ensures CalledBy(u, f', g)
  {
  }

  lemma SameParents(s: State, t: nat, pick: nat)
    requires Inv(s) && Enabled(s, Move(t, pick))
    ensures |NextNodes(s, t, pick)| == |s.nodes|
    ensures forall x: nat | x < |s.nodes| :: NextNodes(s, t, pick)[x].parent == s.nodes[x].parent
  {
    hide Inv;
  }

  lemma IterIsOk(u: State, t: nat, after: seq<Frame>, m: nat)
    requires m < |after| && after[m].Iter? && after[m].c < |u.nodes|
    requires m > 0 ==> after[m - 1].c < |u.nodes| && CalledBy(u, after[m], after[m - 1])
    requires var cell := u.nodes[after[m].c]; cell.mu == Some(t) && cell.err.Some? && !cell.settled
    requires Accounted(u, after[m].c, after[m].todo, if m + 1 < |after| then Some(after[m + 1].c) else None)
    ensures FrameOk(u, t, after, m) && FrameCovered(u, after[m])
  {
    hide Accounted, Covered;
  }

  lemma EnterNew(s: State, t: nat, pick: nat)
    requires Inv(s) && Enabled(s, Move(t, pick)) && Top(s, t).Enter?
    ensures NewFramesOk(Advance(s, t, pick), t, NextStack(s, t, pick), |s.threads[t].stack| - 1)
  {
    TopOk(s, t);
    if s.nodes[Top(s, t).c].err == None {
      EnterStarts(s, t, pick);
    } else {
      LeavingOk(s, t, pick, true);
    }
  }

  lemma EnterStarts(s: State, t: nat, pick: nat)
    requires Inv(s) && Enabled(s, Move(t, pick)) && Top(s, t).Enter? && s.nodes[Top(s, t).c].err == None
    ensures NewFramesOk(Advance(s, t, pick), t, NextStack(s, t, pick), |s.threads[t].stack| - 1)
  {
    hide Inv;
    TopOk(s, t);
    StackTop(s, t, pick);
    var (f, u, after, m) := (Top(s, t), Advance(s, t, pick), NextStack(s, t, pick), |s.threads[t].stack| - 1);
    var g := Iter(f.c, f.remove, f.err, s.nodes[f.c].children);
    assert NextFrames(s, t, pick) == [g] && u.nodes == s.nodes[f.c := u.nodes[f.c]];
    assert u.nodes[f.c].mu == Some(t) && u.nodes[f.c].err.Some? && !u.nodes[f.c].settled;
    EnterTakesChildren(s, f.c);
    SameAccounted(s, u, f.c, s.nodes[f.c].children, None);
    CallerStays(s, t, pick, g);
    assert |after| == m + 1 && after[m] == g;
    hide *;
    IterIsOk(u, t, after, m);
    LastOnly(u, t, after, m);
  }

  lemma LastOnly(u: State, t: nat, after: seq<Frame>, m: nat)
    requires |after| == m + 1 && FrameOk(u, t, after, m) && FrameCovered(u, after[m])
    ensures NewFramesOk(u, t, after, m)
  {
    hide FrameOk, FrameCovered;
  }

  lemma EnterCells(s: State, t: nat, pick: nat)
    requires Inv(s) && Enabled(s, Move(t, pick)) && Top(s, t).Enter?
    ensures CellsStep(s, Advance(s, t, pick), t, NextStack(s, t, pick))
  {
    TopOk(s, t);
    StackTop(s, t, pick);
    var u := Advance(s, t, pick);
    SameCovered(s, Advance(s, t, pick), Top(s, t).c);
    hide NextStack, Accounted, Covered;
    forall n: nat | n < |s.nodes|
      ensures CellStep(s, u, t, NextStack(s, t, pick), n)
    {
      assert CellOk(s, n);
    }
  }

  lemma EnterChildren(s: State, t: nat, pick: nat)
    requires Inv(s) && Enabled(s, Move(t, pick)) && Top(s, t).Enter?
    ensures ChildrenOk(Advance(s, t, pick))
  {
    TopOk(s, t);
    var u := Advance(s, t, pick);
    hide NextStack, NextFrames, Accounted;
    forall x: nat | x < |u.nodes|
      ensures ChildOk(u, x)
    {
      assert ChildOk(s, x) && CellOk(s, x);
    }
  }

  lemma IterGrown(s: State, t: nat, pick: nat)
    requires Inv(s) && Enabled(s, Move(t, pick)) && Top(s, t).Iter?
    ensures Grown(s, Advance(s, t, pick), Freed(s, t))
  {
    hide Inv;
    TopOk(s, t);
    var (c, u) := (Top(s, t).c, Advance(s, t, pick));
    assert u.nodes == if Top(s, t).todo != {} then s.nodes
      else s.nodes[c := s.nodes[c].(children := {}, mu := None, settled := true)];
    hide Advance, NextNodes, NextFrames, NextStack, Enabled, CellOk, ChildOk, FrameOk, FrameCovered, Accounted;
  }

  lemma IterNew(s: State, t: nat, pick: nat)
    requires Inv(s) && Enabled(s, Move(t, pick)) && Top(s, t).Iter?
    ensures NewFramesOk(Advance(s, t, pick), t, NextStack(s, t, pick), |s.threads[t].stack| - 1)
  {
    hide Inv;
    if Top(s, t).todo != {} {
      IterStays(s, t, pick);
      IterCalls(s, t, pick);
      var (u, after, m) := (Advance(s, t, pick), NextStack(s, t, pick), |s.threads[t].stack| - 1);
      assert |after| == m + 2;
      hide *;
      TwoFrames(u, t, after, m);
    } else {
      IterEnds(s, t, pick);
    }
  }

  lemma TwoFrames(u: State, t: nat, after: seq<Frame>, m: nat)
    requires |after| == m + 2
    requires FrameOk(u, t, after, m) && FrameCovered(u, after[m])
    requires FrameOk(u, t, after, m + 1) && FrameCovered(u, after[m + 1])
    ensures NewFramesOk(u, t, after, m)
  {
    hide FrameOk, FrameCovered;
    forall k: nat | m <= k < |after|
      ensures FrameOk(u, t, after, k) && FrameCovered(u, after[k])
    {
      assert k == m || k == m + 1;
    }
  }

  lemma IterEnds(s: State, t: nat, pick: nat)
    requires Inv(s) && Enabled(s, Move(t, pick)) && Top(s, t).Iter? && Top(s, t).todo == {}
    ensures NewFramesOk(Advance(s, t, pick), t, NextStack(s, t, pick), |s.threads[t].stack| - 1)
  {
    TopOk(s, t);
    StackTop(s, t, pick);
    var f := Top(s, t);
    assert Advance(s, t, pick).nodes[f.c].settled;
    LeavingOk(s, t, pick, false);
  }

  /** The frames that follow cancel are in order once its context is settled. */
  lemma LeavingOk(s: State, t: nat, pick: nat, already: bool)
    requires Inv(s) && Enabled(s, Move(t, pick)) && (Top(s, t).Enter? || Top(s, t).Iter?)
    requires NextFrames(s, t, pick) == AfterCancel(s.nodes[Top(s, t).c], Top(s, t).c, Top(s, t).remove, already)
    requires Advance(s, t, pick).nodes[Top(s, t).c].settled
    ensures NewFramesOk(Advance(s, t, pick), t, NextStack(s, t, pick), |s.threads[t].stack| - 1)
  {
    hide Inv;
    TopOk(s, t);
    StackTop(s, t, pick);
    SameParents(s, t, pick);
    var (f, m) := (Top(s, t), |s.threads[t].stack| - 1);
    assert f.remove ==> m == 0;
    CallerStays(s, t, pick, Stop(f.c));
    var (u, after, next) := (Advance(s, t, pick), NextStack(s, t, pick), NextFrames(s, t, pick));
    assert u.threads == s.threads[t := s.threads[t].(stack := after)];
    assert |after| == m + |next| && (next != [] ==> after[m] == next[0]);
    assert next == [] || next == [Stop(f.c)] || (next == [Remove(f.c)] && m == 0);
    hide *;
    LastFrameOk(u, t, after, m, f.c);
  }

  lemma LastFrameOk(u: State, t: nat, after: seq<Frame>, m: nat, c: nat)
    requires m <= |after| <= m + 1 && c < |u.nodes| && u.nodes[c].settled
    requires |after| > m ==> after[m] == Stop(c) || (after[m] == Remove(c) && m == 0)
    requires m > 0 ==> after[m - 1].c < |u.nodes| && CalledBy(u, Stop(c), after[m - 1])
    ensures NewFramesOk(u, t, after, m)
  {
    hide CalledBy, Covered, Accounted;
  }

  /** The child picked moves from those to come to the one in hand. */
  lemma IterStays(s: State, t: nat, pick: nat)
    requires Inv(s) && Enabled(s, Move(t, pick)) && Top(s, t).Iter? && Top(s, t).todo != {}
    ensures
      var (u, after, m) := (Advance(s, t, pick), NextStack(s, t, pick), |s.threads[t].stack| - 1);
      m < |after| && FrameOk(u, t, after, m) && FrameCovered(u, after[m])
  {
    hide Inv;
    TopOk(s, t);
    StackTop(s, t, pick);
    var (f, u, after, m) := (Top(s, t), Advance(s, t, pick), NextStack(s, t, pick), |s.threads[t].stack| - 1);
    assert u.nodes == s.nodes;
    assert Accounted(u, f.c, f.todo - {pick}, Some(pick));
    CallerStays(s, t, pick, Iter(f.c, f.remove, f.err, f.todo - {pick}));
    hide Accounted, NextStack, Covered, CalledBy, NextNodes;
    IterIsOk(u, t, after, m);
  }

  lemma IterCalls(s: State, t: nat, pick: nat)
    requires Inv(s) && Enabled(s, Move(t, pick)) && Top(s, t).Iter? && Top(s, t).todo != {}
    ensures
      var (u, after, m) := (Advance(s, t, pick), NextStack(s, t, pick), |s.threads[t].stack| - 1);
      m + 1 < |after| && FrameOk(u, t, after, m + 1) && FrameCovered(u, after[m + 1])
  {
    hide Inv;
    TopOk(s, t);
    StackTop(s, t, pick);
    var (f, u, after, m) := (Top(s, t), Advance(s, t, pick), NextStack(s, t, pick), |s.threads[t].stack| - 1);
    assert u.nodes == s.nodes && u.asked == s.asked;
    CalleeCovered(s, t, pick);
    SameCovered(s, u, pick);
    assert after[m] == Iter(f.c, f.remove, f.err, f.todo - {pick}) && after[m + 1] == Enter(pick, false, f.err);
    assert Above(u, pick) == Some(f.c) && pick < |u.nodes|;
    hide *;
    CalleeFrameOk(u, t, after, m + 1);
  }

  lemma CalleeFrameOk(u: State, t: nat, after: seq<Frame>, k: nat)
    requires 0 < k < |after| && after[k].Enter? && !after[k].remove && after[k - 1].Iter?
    requires after[k].c < |u.nodes| && after[k - 1].c < |u.nodes| && Above(u, after[k].c) == Some(after[k - 1].c)
    requires Covered(u, after[k].c)
    ensures FrameOk(u, t, after, k) && FrameCovered(u, after[k])
  {
    hide Covered;
  }

  lemma CalleeCovered(s: State, t: nat, pick: nat)
    requires Inv(s) && Enabled(s, Move(t, pick)) && Top(s, t).Iter? && Top(s, t).todo != {}
    ensures pick < |s.nodes| && Above(s, pick) == Some(Top(s, t).c) && Covered(s, pick)
  {
    TopOk(s, t);
    assert Accounted(s, Top(s, t).c, Top(s, t).todo, None);
    assert CellOk(s, pick) && CellOk(s, Top(s, t).c);
    hide Inv;
  }

  lemma IterCells(s: State, t: nat, pick: nat)
    requires Inv(s) && Enabled(s, Move(t, pick)) && Top(s, t).Iter?
    ensures CellsStep(s, Advance(s, t, pick), t, NextStack(s, t, pick))
  {
    TopOk(s, t);
    StackTop(s, t, pick);
    assert forall n: nat | n < |s.nodes| :: CellOk(s, n);
    var (u, f, after, m) := (Advance(s, t, pick), Top(s, t), NextStack(s, t, pick), |s.threads[t].stack| - 1);
    assert u.nodes == if f.todo != {} then s.nodes
      else s.nodes[f.c := s.nodes[f.c].(children := {}, mu := None, settled := true)];
    assert f.todo != {} ==> |after| > m && after[m].Iter? && after[m].c == f.c;
    assert s.nodes[f.c].mu == Some(t);
    hide *;
    if f.todo != {} {
      SameCells(s, u, t, after);
    } else {
      LastCells(s, u, t, after, f.c);
    }
  }

  lemma SameCells(s: State, u: State, t: nat, after: seq<Frame>)
    requires t < |s.threads| && s.threads[t].stack != [] && Top(s, t).Iter? && Top(s, t).c < |s.nodes|
    requires u.nodes == s.nodes && s.nodes[Top(s, t).c].mu == Some(t)
    requires forall n: nat | n < |s.nodes| :: CellOk(s, n)
    requires var m := |s.threads[t].stack| - 1; |after| > m && after[m].Iter? && after[m].c == Top(s, t).c
    ensures CellsStep(s, u, t, after)
  {
    hide Covered, Owned;
    forall n: nat | n < |s.nodes|
      ensures CellStep(s, u, t, after, n)
    {
      assert CellOk(s, n);
    }
  }

  lemma LastCells(s: State, u: State, t: nat, after: seq<Frame>, c: nat)
    requires t < |s.threads| && s.threads[t].stack != [] && Top(s, t).Iter? && Top(s, t).c == c < |s.nodes|
    requires u.nodes == s.nodes[c := s.nodes[c].(children := {}, mu := None, settled := true)] && s.nodes[c].err.Some?
    requires forall n: nat | n < |s.nodes| :: CellOk(s, n)
    ensures CellsStep(s, u, t, after)
  {
    hide Covered, Owned;
    forall n: nat | n < |s.nodes|
      ensures CellStep(s, u, t, after, n)
    {
      assert CellOk(s, n);
    }
  }

  lemma IterChildren(s: State, t: nat, pick: nat)
    requires Inv(s) && Enabled(s, Move(t, pick)) && Top(s, t).Iter?
    ensures ChildrenOk(Advance(s, t, pick))
  {
    TopOk(s, t);
    var u := Advance(s, t, pick);
    hide NextStack, NextFrames;
    forall x: nat | x < |u.nodes|
      ensures ChildOk(u, x)
    {
      assert ChildOk(s, x) && CellOk(s, x);
    }
  }

  /** Covered looks only at parents and at asked. */
  lemma {:induction false} SameCovered(s: State, u: State, n: nat)
    requires |s.nodes| == |u.nodes| && s.asked <= u.asked && n < |s.nodes| && Covered(s, n)
    requires forall x: nat | x < |s.nodes| :: u.nodes[x].parent == s.nodes[x].parent
    ensures Covered(u, n)
    decreases n
  {
    if n !in s.asked {
      SameCovered(s, u, Above(s, n).value);
    }
  }

  /** When cancel starts, the children map holds every constructed child that is not settled. */
  lemma EnterTakesChildren(s: State, c: nat)
    requires Inv(s) && c < |s.nodes| && s.nodes[c].err == None
    ensures Accounted(s, c, s.nodes[c].children, None)
  {
    assert CellOk(s, c);
    forall x: nat | x < |s.nodes| && s.nodes[x].built && Above(s, x) == Some(c)
      ensures s.nodes[x].settled || x in s.nodes[c].children
    {
      assert ChildOk(s, x);
    }
  }

  lemma SameAccounted(s: State, u: State, c: nat, todo: set<nat>, callee: Option<nat>)
    requires Accounted(s, c, todo, callee) && |u.nodes| == |s.nodes|
    requires forall x: nat | x < |s.nodes| ::
      u.nodes[x].parent == s.nodes[x].parent && u.nodes[x].built == s.nodes[x].built
        && u.nodes[x].settled == s.nodes[x].settled
    ensures Accounted(u, c, todo, callee)
  {
  }

  lemma TopOk(s: State, t: nat)
    requires Inv(s) && t < |s.threads| && s.threads[t].stack != []
    ensures
      var stack := s.threads[t].stack;
      FrameOk(s, t, stack, |stack| - 1) && FrameCovered(s, Top(s, t)) && CellOk(s, Top(s, t).c)
        && ChildOk(s, Top(s, t).c)
  {
    assert StackOk(s, t, s.threads[t].stack);
  }

  lemma MoveKept(s: State, t: nat, pick: nat)
    requires Inv(s) && Enabled(s, Move(t, pick))
    ensures Inv(Advance(s, t, pick))
  {
    var (u, after) := (Advance(s, t, pick), NextStack(s, t, pick));
    MoveShape(s, t, pick);
    match Top(s, t) {
      case PropLock(_) =>
        PropLockGrown(s, t, pick); PropLockNew(s, t, pick); PropLockCells(s, t, pick); PropLockChildren(s, t, pick);
      case PropHold(_) =>
        PropHoldGrown(s, t, pick); PropHoldNew(s, t, pick); PropHoldCells(s, t, pick); PropHoldChildren(s, t, pick);
      case Enter(_, _, _) =>
        EnterGrown(s, t, pick); EnterNew(s, t, pick); EnterCells(s, t, pick); EnterChildren(s, t, pick);
      case Iter(_, _, _, _) =>
        IterGrown(s, t, pick); IterNew(s, t, pick); IterCells(s, t, pick); IterChildren(s, t, pick);
      case _ => CalmKept(s, t, pick);
    }
    assert |u.threads| == |s.threads| && u.threads[t].stack == after;
    InvFromStep(s, u, Freed(s, t), t, after);
  }

  lemma InvFromStep(s: State, u: State, freed: Option<nat>, t: nat, after: seq<Frame>)
    requires Inv(s) && t < |s.threads| && s.threads[t].stack != [] && Top(s, t).c < |s.nodes|
    requires StepOk(s, u, freed, t, after) && CellsStep(s, u, t, after) && ChildrenOk(u)
    ensures Inv(u)
  {
    hide Inv;
    hide StepOk, CellStep, CellOk, ChildOk, StackOk;
    assert Inv(u) by {
      StacksKept(s, u, freed, t, after);
      forall n: nat | n < |u.nodes|
        ensures CellOk(u, n)
      {
        CellKept(s, u, freed, t, after, n);
      }
      InvParts(u);
    }
  }

  lemma InvParts(u: State)
    requires forall t: nat | t < |u.threads| :: StackOk(u, t, u.threads[t].stack)
    requires forall n: nat | n < |u.nodes| :: CellOk(u, n)
    requires ChildrenOk(u)
    ensures Inv(u)
  {
    hide CellOk, ChildOk, StackOk;
  }

  lemma StartKept(s: State, call: Call)
    requires Inv(s) && Enabled(s, Start(call))
    ensures Inv(Begin(s, call))
  {
    var (u, t) := (Begin(s, call), |s.threads|);
    StartGrown(s, call);
    forall t': nat | t' < |u.threads|
      ensures StackOk(u, t', u.threads[t'].stack)
    {
      if t' < t {
        assert u.threads[t'] == s.threads[t'];
        OtherStackKept(s, u, None, t, t', s.threads[t'].stack);
      } else {
        StartStack(s, call);
      }
    }
    forall n: nat | n < |u.nodes|
      ensures CellOk(u, n) && ChildOk(u, n)
    {
      StartCell(s, call, n);
    }
  }

  lemma StartGrown(s: State, call: Call)
    requires Enabled(s, Start(call))
    ensures Grown(s, Begin(s, call), None)
  {
  }

  lemma StartStack(s: State, call: Call)
    requires Enabled(s, Start(call))
    ensures var u := Begin(s, call); StackOk(u, |s.threads|, u.threads[|s.threads|].stack)
  {
    if call.Cancel? {
      assert Covered(Begin(s, call), call.c);
    }
  }

  lemma StartCell(s: State, call: Call, n: nat)
    requires Inv(s) && Enabled(s, Start(call)) && n < |Begin(s, call).nodes|
    ensures CellOk(Begin(s, call), n) && ChildOk(Begin(s, call), n)
  {
    if n < |s.nodes| {
      assert CellOk(s, n) && ChildOk(s, n);
      hide Inv;
      OldCellKept(s, call, n);
    } else {
      hide Inv;
      NewCellOk(s, call);
    }
  }

  lemma NewCellOk(s: State, call: Call)
    requires Enabled(s, Start(call)) && call.New?
    ensures CellOk(Begin(s, call), |s.nodes|) && ChildOk(Begin(s, call), |s.nodes|)
  {
  }

  lemma OldCellKept(s: State, call: Call, n: nat)
    requires Enabled(s, Start(call)) && n < |s.nodes| && CellOk(s, n) && ChildOk(s, n)
    ensures CellOk(Begin(s, call), n) && ChildOk(Begin(s, call), n)
  {
    var u := Begin(s, call);
    assert |u.nodes| >= |s.nodes| && |u.threads| > |s.threads| && s.asked <= u.asked;
    assert forall x: nat | x < |s.nodes| :: u.nodes[x] == s.nodes[x];
    assert forall t: nat | t < |s.threads| :: u.threads[t] == s.threads[t];
    StartGrown(s, call);
    hide Begin, Enabled, Grown;
    if s.nodes[n].err.Some? {
      CoveredKept(s, u, None, n);
    }
    if s.nodes[n].mu.Some? {
      OwnedLonger(s, u, n, s.nodes[n].mu.value);
    }
    hide Covered, Owned;
  }

  lemma OwnedLonger(s: State, u: State, n: nat, t: nat)
    requires Owned(s, n, t) && |s.nodes| <= |u.nodes| && |s.threads| <= |u.threads| && u.threads[t] == s.threads[t]
    requires forall x: nat | x < |s.nodes| :: u.nodes[x] == s.nodes[x]
    ensures Owned(u, n, t)
  {
    var k: nat :| k < |s.threads[t].stack| && s.threads[t].stack[k].c < |s.nodes|
      && Holds(s, s.threads[t].stack[k]) == Some(n);
    assert Holds(u, u.threads[t].stack[k]) == Some(n);
  }

  // ---- Calls that have returned ----

  /** The outermost frame of a call works on the call's own context, and leaves it as promised. */
  predicate CallOk(s: State, th: Thread) {
    && th.node < |s.nodes|
    && (th.stack != [] ==> th.stack[0].c == th.node)
    && match th.call
       case Cancel(c, _) =>
         && th.node == c
         && (if th.stack == [] then s.nodes[c].settled
             else th.stack[0].Enter? || th.stack[0].Iter? || th.stack[0].Remove? || th.stack[0].Stop?)
       case New(_, _, _) =>
         th.stack == [] || !(th.stack[0].PropDone? || th.stack[0].PropLock? || th.stack[0].PropHold?) ==>
           s.nodes[th.node].built
       case Done(c) =>
         && th.node == c
         && (if th.stack == [] then s.nodes[c].done != NoChan else th.stack[0].MakeDone?)
  }

  predicate CallsOk(s: State) {
    forall t: nat | t < |s.threads| :: CallOk(s, s.threads[t])
  }

  /** A channel once made is kept. */
  lemma ChannelsStay(s: State, t: nat, pick: nat)
    requires Inv(s) && Enabled(s, Move(t, pick))
    ensures |NextNodes(s, t, pick)| == |s.nodes|
    ensures forall n: nat | n < |s.nodes| && s.nodes[n].done != NoChan :: NextNodes(s, t, pick)[n].done != NoChan
  {
    hide Inv;
  }

  lemma OtherCallKept(s: State, u: State, freed: Option<nat>, th: Thread)
    requires CallOk(s, th) && Grown(s, u, freed)
    requires forall n: nat | n < |s.nodes| && s.nodes[n].done != NoChan :: u.nodes[n].done != NoChan
    ensures CallOk(u, th)
  {
  }

  lemma OwnCallKept(s: State, t: nat, pick: nat)
    requires Inv(s) && CallsOk(s) && Enabled(s, Move(t, pick))
    ensures var u := Advance(s, t, pick); CallOk(u, u.threads[t])
  {
    hide Inv;
    assert CallOk(s, s.threads[t]);
    if |s.threads[t].stack| > 1 {
      MoveGrown(s, t, pick);
      ChannelsStay(s, t, pick);
      StackTop(s, t, pick);
      var (u, th) := (Advance(s, t, pick), s.threads[t]);
      assert u.threads[t] == th.(stack := NextStack(s, t, pick));
      assert NextStack(s, t, pick)[0] == th.stack[0];
      OtherCallKept(s, u, Freed(s, t), th);
      hide Advance, NextStack, Grown;
    } else {
      BottomFrameMoves(s, t, pick);
    }
  }

  lemma BottomFrameMoves(s: State, t: nat, pick: nat)
    requires Inv(s) && Enabled(s, Move(t, pick)) && |s.threads[t].stack| == 1 && CallOk(s, s.threads[t])
    ensures var u := Advance(s, t, pick); CallOk(u, u.threads[t])
  {
    hide Inv;
    var th := s.threads[t];
    TopOk(s, t);
    assert Top(s, t) == th.stack[0];
    var u := Advance(s, t, pick);
    assert u.threads[t] == th.(stack := NextFrames(s, t, pick)) by {
      assert th.stack[..0] + NextFrames(s, t, pick) == NextFrames(s, t, pick);
    }
    SameParents(s, t, pick);
    hide Accounted, Covered, NextStack, FrameCovered, ChildOk;
    match th.call {
      case Cancel(_, _) => BottomCancel(s, t, pick);
      case New(_, _, _) => BottomNew(s, t, pick);
      case Done(_) =>
    }
  }

  lemma BottomCancel(s: State, t: nat, pick: nat)
    requires Enabled(s, Move(t, pick)) && |s.threads[t].stack| == 1 && CellOk(s, Top(s, t).c)
    requires FrameOk(s, t, s.threads[t].stack, 0)
    requires Top(s, t).Enter? || Top(s, t).Iter? || Top(s, t).Remove? || Top(s, t).Stop?
    ensures
      var next := NextFrames(s, t, pick);
      if next == [] then |NextNodes(s, t, pick)| == |s.nodes| && NextNodes(s, t, pick)[Top(s, t).c].settled
      else next[0].c == Top(s, t).c && (next[0].Enter? || next[0].Iter? || next[0].Remove? || next[0].Stop?)
  {
    hide Accounted, Covered;
  }

  lemma BottomNew(s: State, t: nat, pick: nat)
    requires Enabled(s, Move(t, pick)) && |s.threads[t].stack| == 1
    requires !(Top(s, t).PropDone? || Top(s, t).PropLock? || Top(s, t).PropHold?) ==> s.nodes[Top(s, t).c].built
    ensures
      var next := NextFrames(s, t, pick);
      && (next != [] ==> next[0].c == Top(s, t).c)
      && (next == [] || !(next[0].PropDone? || next[0].PropLock? || next[0].PropHold?) ==>
           |NextNodes(s, t, pick)| == |s.nodes| && NextNodes(s, t, pick)[Top(s, t).c].built)
  {
  }

  lemma MoveGrown(s: State, t: nat, pick: nat)
    requires Inv(s) && Enabled(s, Move(t, pick))
    ensures Grown(s, Advance(s, t, pick), Freed(s, t))
  {
    hide Inv;
    var f := Top(s, t);
    hide Grown, Advance, Enabled;
    match f {
      case PropLock(_) => PropLockGrown(s, t, pick);
      case PropHold(_) => PropHoldGrown(s, t, pick);
      case Enter(_, _, _) => EnterGrown(s, t, pick);
      case Iter(_, _, _, _) => IterGrown(s, t, pick);
      case _ => CalmKept(s, t, pick);
    }
  }

  lemma CallsKept(s: State, a: Action)
    requires Inv(s) && CallsOk(s) && Enabled(s, a)
    ensures CallsOk(Apply(s, a))
  {
    var u := Apply(s, a);
    match a {
      case Start(call) =>
        StartGrown(s, call);
        forall t: nat | t < |u.threads|
          ensures CallOk(u, u.threads[t])
        {
          if t < |s.threads| {
            assert u.threads[t] == s.threads[t];
            OtherCallKept(s, u, None, s.threads[t]);
          }
        }
      case Move(i, pick) =>
        MoveGrown(s, i, pick);
        ChannelsStay(s, i, pick);
        forall t: nat | t < |u.threads|
          ensures CallOk(u, u.threads[t])
        {
          if t == i {
            OwnCallKept(s, i, pick);
          } else {
            OtherCallKept(s, u, Freed(s, i), s.threads[t]);
          }
        }
    }
  }

  lemma {:induction false} RunInv(acts: seq<Action>, s: State)
    requires Run(acts, s)
    ensures Inv(s) && CallsOk(s)
  {
    if acts != [] {
      var last := |acts| - 1;
      var t: State :| Run(acts[..last], t) && Enabled(t, acts[last]) && s == Apply(t, acts[last]);
      RunInv(acts[..last], t);
      CallsKept(t, acts[last]);
      match acts[last] {
        case Start(call) => StartKept(t, call);
        case Move(i, pick) => MoveKept(t, i, pick);
      }
    }
  }

  // ---- What holds in every run ----

  /** x is c or lies below it. */
  predicate Descends(s: State, x: nat, c: nat)
    requires x < |s.nodes|
    decreases x
  {
    x == c || (Above(s, x).Some? && Above(s, x).value < x && Descends(s, Above(s, x).value, c))
  }

  lemma {:induction false} SettledBelow(s: State, x: nat, c: nat)
    requires Inv(s) && c < |s.nodes| && s.nodes[c].settled
    requires x < |s.nodes| && s.nodes[x].built && Descends(s, x, c)
    ensures s.nodes[x].settled
    decreases x
  {
    if x != c {
      assert CellOk(s, x) && ChildOk(s, x);
      SettledBelow(s, Above(s, x).value, c);
    }
  }

  /** When a cancel of c has returned, every constructed context at or below c is canceled. */
  lemma CancelReachesAll(acts: seq<Action>, s: State, t: nat, x: nat)
    requires Run(acts, s) && t < |s.threads| && s.threads[t].call.Cancel? && s.threads[t].stack == []
    requires x < |s.nodes| && s.nodes[x].built && Descends(s, x, s.threads[t].node)
    ensures s.nodes[x].err.Some? && s.nodes[x].done == Closed && s.nodes[x].children == {}
  {
    RunInv(acts, s);
    var c := s.threads[t].node;
    assert CallOk(s, s.threads[t]);
    SettledBelow(s, x, c);
    assert CellOk(s, x);
  }

  /** Nothing is canceled unless a cancel was called on it or on an ancestor. */
  lemma CanceledOnlyWhenAsked(acts: seq<Action>, s: State, x: nat)
    requires Run(acts, s) && x < |s.nodes| && s.nodes[x].err.Some?
    ensures exists c: nat :: c in s.asked && Descends(s, x, c)
  {
    RunInv(acts, s);
    assert CellOk(s, x);
    CoveredByAsked(s, x);
  }

  lemma {:induction false} CoveredByAsked(s: State, x: nat)
    requires x < |s.nodes| && Covered(s, x)
    ensures exists c: nat :: c in s.asked && Descends(s, x, c)
    decreases x
  {
    if x in s.asked {
      assert Descends(s, x, x);
    } else {
      CoveredByAsked(s, Above(s, x).value);
      var c: nat :| c in s.asked && Descends(s, Above(s, x).value, c);
      assert Descends(s, x, c);
    }
  }

  /** A live constructed context below a live one is registered in its children map. */
  lemma LiveChildIsRegistered(acts: seq<Action>, s: State, x: nat, p: nat)
    requires Run(acts, s) && x < |s.nodes| && s.nodes[x].built && Above(s, x) == Some(p)
    ensures p < |s.nodes|
    ensures s.nodes[x].err == None && s.nodes[p].err == None ==> x in s.nodes[p].children
  {
    RunInv(acts, s);
    assert CellOk(s, x) && ChildOk(s, x);
  }

  /** err is written once; done is closed in that same step, having been open or absent, and stays closed. */
  lemma ErrAndDoneTogether(acts: seq<Action>, s: State, a: Action, n: nat)
    requires Run(acts, s) && Enabled(s, a) && n < |s.nodes|
    ensures
      var (x, y) := (s.nodes[n], Apply(s, a).nodes[n]);
      && (x.err.Some? ==> y.err == x.err && y.done == Closed)
      && (x.done == Closed <==> x.err.Some?)
      && (x.done != Closed && y.done == Closed <==> x.err == None && y.err.Some?)
  {
    RunInv(acts, s);
    assert CellOk(s, n);
    match a {
      case Start(call) =>
      case Move(t, pick) =>
        MoveGrown(s, t, pick);
        MoveKept(s, t, pick);
        assert CellOk(Apply(s, a), n);
    }
  }

  /** The lock a goroutine waits for lies strictly below every lock it holds, so no circle of waiting can form. */
  lemma NeverDeadlocked(acts: seq<Action>, s: State, t: nat)
    requires Run(acts, s) && t < |s.threads| && s.threads[t].stack != []
    ensures exists i: nat, pick: nat :: Enabled(s, Move(i, pick))
  {
    RunInv(acts, s);
    var i, pick := SomeoneMoves(s, t);
  }

  lemma {:induction false} SomeoneMoves(s: State, t: nat) returns (i: nat, pick: nat)
    requires Inv(s) && t < |s.threads| && s.threads[t].stack != []
    ensures Enabled(s, Move(i, pick))
    decreases
      if Top(s, t).c < |s.nodes| && Wants(s, Top(s, t)).Some? then |s.nodes| + 1 - Wants(s, Top(s, t)).value
      else 0
  {
    TopOk(s, t);
    var f := Top(s, t);
    var n := Wants(s, f);
    i, pick := t, 0;
    if f.Iter? && f.todo != {} {
      pick :| pick in f.todo;
    }
    if n.Some? && s.nodes[n.value].mu.Some? {
      var j := s.nodes[n.value].mu.value;
      HolderIsFurther(s, n.value, j);
      i, pick := SomeoneMoves(s, j);
    }
  }

  /** Whoever holds a lock can move, or waits for one further down the tree. */
  lemma HolderIsFurther(s: State, n: nat, j: nat)
    requires Inv(s) && n < |s.nodes| && s.nodes[n].mu == Some(j)
    ensures j < |s.threads| && s.threads[j].stack != [] && Top(s, j).c < |s.nodes|
    ensures Wants(s, Top(s, j)).Some? ==> n < Wants(s, Top(s, j)).value < |s.nodes|
  {
    hide *;
    OwnedCells(s);
    var k := OwnerFrame(s, n, j);
    TopStackOk(s, j);
    HolderAbove(s, n, j, s.threads[j].stack, k);
  }

  lemma OwnedCells(s: State)
    requires Inv(s)
    ensures forall x: nat | x < |s.nodes| ::
      CellOk(s, x) && (s.nodes[x].mu.Some? ==> Owned(s, x, s.nodes[x].mu.value))
  {
    forall x: nat | x < |s.nodes|
      ensures CellOk(s, x) && (s.nodes[x].mu.Some? ==> Owned(s, x, s.nodes[x].mu.value))
    {
      assert CellOk(s, x);
      hide Owned, Covered;
    }
  }

  lemma TopStackOk(s: State, j: nat)
    requires Inv(s) && j < |s.threads| && s.threads[j].stack != []
    ensures StackOk(s, j, s.threads[j].stack) && Top(s, j).c < |s.nodes|
    ensures Top(s, j) == s.threads[j].stack[|s.threads[j].stack| - 1]
  {
    TopOk(s, j);
  }

  lemma HolderAbove(s: State, n: nat, j: nat, stack: seq<Frame>, k: nat)
    requires k < |stack| && StackOk(s, j, stack) && forall x: nat | x < |s.nodes| :: CellOk(s, x)
    requires stack[k].c < |s.nodes| && Holds(s, stack[k]) == Some(n) && stack[|stack| - 1].c < |s.nodes|
    ensures var w := Wants(s, stack[|stack| - 1]); w.Some? ==> n < w.value < |s.nodes|
  {
    hide FrameOk, CellOk, FrameCovered, Holds, Wants;
    var m := |stack| - 1;
    if k < m {
      LocksAbove(s, j, stack, k, m);
      assert FrameOk(s, j, stack, m);
      hide *;
      CalledWantsOwn(s, j, stack, m);
    } else {
      HolderWantsNothing(s, stack[m]);
    }
  }

  lemma HolderWantsNothing(s: State, f: Frame)
    requires f.c < |s.nodes| && Holds(s, f).Some?
    ensures Wants(s, f) == None
  {
  }

  lemma CalledWantsOwn(s: State, t: nat, stack: seq<Frame>, k: nat)
    requires 0 < k < |stack| && FrameOk(s, t, stack, k)
    ensures Wants(s, stack[k]).Some? ==> Wants(s, stack[k]) == Some(stack[k].c)
  {
  }

  // ---- Why a context is cancelled ----

  /** What may cancel c with e on its own: a call of cancel, or a deadline that had passed at the beginning. */
  ghost predicate Reason(acts: seq<Action>, s: State, c: nat, e: Err) {
    c < |s.nodes| &&
    (Start(Cancel(c, e)) in acts || (s.nodes[c].timed && s.nodes[c].expired && e == DeadlineExceeded))
  }

  /** A reason, or the same error of the context above. */
  ghost predicate Excused(acts: seq<Action>, s: State, x: nat, e: Err) {
    x < |s.nodes| &&
    (Reason(acts, s, x, e) ||
     (Above(s, x).Some? && Above(s, x).value < x && s.nodes[Above(s, x).value].err == Some(e)))
  }

  ghost predicate FrameExcused(acts: seq<Action>, s: State, f: Frame) {
    match f
    case Enter(c, _, e) => Excused(acts, s, c, e)
    case Iter(c, _, e, _) => c < |s.nodes| && s.nodes[c].err == Some(e)
    case Arm(c) => c < |s.nodes| && s.nodes[c].timed
    case _ => true
  }

  ghost predicate CellExcused(acts: seq<Action>, s: State, x: nat)
    requires x < |s.nodes|
  {
    s.nodes[x].err.Some? ==> Excused(acts, s, x, s.nodes[x].err.value)
  }

  ghost predicate StackExcused(acts: seq<Action>, s: State, stack: seq<Frame>) {
    forall k | 0 <= k < |stack| :: FrameExcused(acts, s, stack[k])
  }

  ghost predicate AllExcused(acts: seq<Action>, s: State) {
    && (forall x: nat | x < |s.nodes| :: CellExcused(acts, s, x))
    && (forall t: nat | t < |s.threads| :: StackExcused(acts, s, s.threads[t].stack))
  }

  lemma ExcusedStays(acts: seq<Action>, a: Action, s: State, u: State, freed: Option<nat>, x: nat, e: Err)
    requires Grown(s, u, freed) && Excused(acts, s, x, e)
    ensures Excused(acts + [a], u, x, e)
  {
    assert Start(Cancel(x, e)) in acts ==> Start(Cancel(x, e)) in acts + [a];
  }

  lemma StackStaysExcused(acts: seq<Action>, a: Action, s: State, u: State, freed: Option<nat>, stack: seq<Frame>)
    requires Grown(s, u, freed) && StackExcused(acts, s, stack)
    ensures StackExcused(acts + [a], u, stack)
  {
    forall k | 0 <= k < |stack|
      ensures FrameExcused(acts + [a], u, stack[k])
    {
      assert FrameExcused(acts, s, stack[k]);
      hide Excused;
      if stack[k].Enter? {
        ExcusedStays(acts, a, s, u, freed, stack[k].c, stack[k].err);
      }
    }
  }

  lemma CellStaysExcused(acts: seq<Action>, a: Action, s: State, u: State, freed: Option<nat>, x: nat)
    requires Grown(s, u, freed) && x < |s.nodes| && CellExcused(acts, s, x)
    requires s.nodes[x].err.Some? || u.nodes[x].err == None
    ensures CellExcused(acts + [a], u, x)
  {
    hide Excused;
    if s.nodes[x].err.Some? {
      ExcusedStays(acts, a, s, u, freed, x, s.nodes[x].err.value);
    }
  }

  /** Only the Enter step sets an error, the one it was given. */
  lemma ErrWritten(s: State, t: nat, pick: nat, x: nat)
    requires Inv(s) && Enabled(s, Move(t, pick)) && x < |s.nodes|
    ensures |NextNodes(s, t, pick)| == |s.nodes|
    ensures s.nodes[x].err == None && NextNodes(s, t, pick)[x].err.Some? ==>
      Top(s, t).Enter? && Top(s, t).c == x && NextNodes(s, t, pick)[x].err == Some(Top(s, t).err)
  {
    hide Inv;
  }

  /** What the step hands on is excused if what it was given is. */
  lemma NextExcused(acts: seq<Action>, a: Action, s: State, t: nat, pick: nat)
    requires Inv(s) && Enabled(s, Move(t, pick)) && FrameExcused(acts, s, Top(s, t))
    ensures StackExcused(acts + [a], Advance(s, t, pick), NextFrames(s, t, pick))
  {
    hide Excused;
    MoveGrown(s, t, pick);
    if Top(s, t).PropLock? {
      PropLockExcused(acts + [a], s, t, pick);
    } else if Top(s, t).Iter? && Top(s, t).todo != {} {
      IterExcused(acts + [a], s, t, pick);
    } else if Top(s, t).Arm? {
      ArmExcused(acts + [a], s, t, pick);
    } else {
      OtherExcused(acts + [a], s, t, pick);
    }
    hide Inv, Grown, Advance, NextFrames, Enabled, StackExcused;
  }

  lemma PropLockExcused(acts: seq<Action>, s: State, t: nat, pick: nat)
    requires Inv(s) && Enabled(s, Move(t, pick)) && Top(s, t).PropLock?
    ensures StackExcused(acts, Advance(s, t, pick), NextFrames(s, t, pick))
  {
    hide Reason;
    PropLockWrites(s, t, pick);
    SameParents(s, t, pick);
    hide Inv, CellOk, NextStack;
  }

  lemma IterExcused(acts: seq<Action>, s: State, t: nat, pick: nat)
    requires Inv(s) && Enabled(s, Move(t, pick)) && Top(s, t).Iter? && Top(s, t).todo != {}
    requires s.nodes[Top(s, t).c].err == Some(Top(s, t).err)
    ensures StackExcused(acts, Advance(s, t, pick), NextFrames(s, t, pick))
  {
    hide Reason;
    CalleeCovered(s, t, pick);
    assert CellOk(s, pick);
    hide Inv, CellOk, NextStack, Covered;
  }

  lemma ArmExcused(acts: seq<Action>, s: State, t: nat, pick: nat)
    requires Enabled(s, Move(t, pick)) && Top(s, t).Arm? && s.nodes[Top(s, t).c].timed
    ensures StackExcused(acts, Advance(s, t, pick), NextFrames(s, t, pick))
  {
    hide NextStack;
  }

  lemma OtherExcused(acts: seq<Action>, s: State, t: nat, pick: nat)
    requires Inv(s) && Enabled(s, Move(t, pick))
    requires !Top(s, t).PropLock? && !Top(s, t).Arm? && !(Top(s, t).Iter? && Top(s, t).todo != {})
    ensures StackExcused(acts, Advance(s, t, pick), NextFrames(s, t, pick))
  {
    hide Excused, Inv, NextStack;
  }

  lemma MoveExcused(acts: seq<Action>, s: State, t: nat, pick: nat)
    requires Inv(s) && Enabled(s, Move(t, pick)) && AllExcused(acts, s)
    ensures AllExcused(acts + [Move(t, pick)], Advance(s, t, pick))
  {
    var (a, u, freed) := (Move(t, pick), Advance(s, t, pick), Freed(s, t));
    MoveGrown(s, t, pick);
    StackTop(s, t, pick);
    assert StackExcused(acts, s, s.threads[t].stack) && FrameExcused(acts, s, Top(s, t));
    NextExcused(acts, a, s, t, pick);
    assert u.nodes == NextNodes(s, t, pick);
    assert u.threads == s.threads[t := s.threads[t].(stack := NextStack(s, t, pick))];
    hide Advance, NextNodes, Grown, FrameExcused, Excused, NextStack, NextFrames;
    forall x: nat | x < |u.nodes|
      ensures CellExcused(acts + [a], u, x)
    {
      ErrWritten(s, t, pick, x);
      assert CellExcused(acts, s, x);
      if s.nodes[x].err.Some? || u.nodes[x].err == None {
        CellStaysExcused(acts, a, s, u, freed, x);
      } else {
        EnterExcused(acts, s, Top(s, t));
        ExcusedStays(acts, a, s, u, freed, x, Top(s, t).err);
      }
    }
    forall i: nat | i < |u.threads|
      ensures StackExcused(acts + [a], u, u.threads[i].stack)
    {
      StackStaysExcused(acts, a, s, u, freed, s.threads[i].stack);
    }
  }

  lemma EnterExcused(acts: seq<Action>, s: State, f: Frame)
    requires FrameExcused(acts, s, f) && f.Enter?
    ensures Excused(acts, s, f.c, f.err)
  {
  }

  lemma StartExcused(acts: seq<Action>, s: State, call: Call)
    requires Inv(s) && Enabled(s, Start(call)) && AllExcused(acts, s)
    ensures AllExcused(acts + [Start(call)], Begin(s, call))
  {
    var (a, u) := (Start(call), Begin(s, call));
    StartGrown(s, call);
    assert a in acts + [a];
    hide Inv, Grown;
    forall x: nat | x < |u.nodes|
      ensures CellExcused(acts + [a], u, x)
    {
      if x < |s.nodes| {
        assert CellExcused(acts, s, x);
        CellStaysExcused(acts, a, s, u, None, x);
      }
    }
    forall i: nat | i < |u.threads|
      ensures StackExcused(acts + [a], u, u.threads[i].stack)
    {
      if i < |s.threads| {
        StackStaysExcused(acts, a, s, u, None, s.threads[i].stack);
      }
    }
  }

  lemma LastStep(acts: seq<Action>, s: State) returns (front: seq<Action>, t: State, a: Action)
    requires Run(acts, s) && acts != []
    ensures acts == front + [a] && |front| < |acts| && Run(front, t) && Enabled(t, a) && s == Apply(t, a)
  {
    var last := |acts| - 1;
    front, a := acts[..last], acts[last];
    t :| Run(acts[..last], t) && Enabled(t, acts[last]) && s == Apply(t, acts[last]);
  }

  lemma StepExcused(acts: seq<Action>, s: State, a: Action)
    requires Inv(s) && Enabled(s, a) && AllExcused(acts, s)
    ensures AllExcused(acts + [a], Apply(s, a))
  {
    hide Inv, AllExcused, Begin, Advance;
    match a {
      case Start(call) => StartExcused(acts, s, call);
      case Move(t, pick) => MoveExcused(acts, s, t, pick);
    }
  }

  lemma NoneExcused(s: State)
    requires Run([], s)
    ensures AllExcused([], s) && TimersOk(s)
  {
  }

  lemma {:induction false} RunExcused(acts: seq<Action>, s: State)
    requires Run(acts, s)
    ensures AllExcused(acts, s)
    decreases |acts|
  {
    hide *;
    if acts == [] {
      NoneExcused(s);
    } else {
      var front, t, a := LastStep(acts, s);
      RunInv(front, t);
      RunExcused(front, t);
      StepExcused(front, t, a);
    }
  }

  /** Every context is cancelled with the error of some context at or above it that had a reason: cancel was
      called on that one with this very error, or it was made past its deadline. */
  lemma ErrHasReason(acts: seq<Action>, s: State, x: nat) returns (c: nat)
    requires Run(acts, s) && x < |s.nodes| && s.nodes[x].err.Some?
    ensures c < |s.nodes| && Descends(s, x, c) && s.nodes[c].err == s.nodes[x].err
    ensures Reason(acts, s, c, s.nodes[x].err.value)
  {
    RunExcused(acts, s);
    c := ReasonAbove(acts, s, x);
  }

  lemma {:induction false} ReasonAbove(acts: seq<Action>, s: State, x: nat) returns (c: nat)
    requires AllExcused(acts, s) && x < |s.nodes| && s.nodes[x].err.Some?
    ensures c < |s.nodes| && Descends(s, x, c) && s.nodes[c].err == s.nodes[x].err
    ensures Reason(acts, s, c, s.nodes[x].err.value)
    decreases x
  {
    assert CellExcused(acts, s, x);
    if Reason(acts, s, x, s.nodes[x].err.value) {
      return x;
    }
    c := ReasonAbove(acts, s, Above(s, x).value);
  }

  // ---- Deadlines ----

  /** A call that must not return before its timer context is cancelled. */
  predicate MustStop(s: State, th: Thread)
    requires th.node < |s.nodes|
  {
    s.nodes[th.node].timed && (th.call.Cancel? || (th.call.New? && s.nodes[th.node].expired))
  }

  predicate TimerOk(s: State, th: Thread) {
    && th.node < |s.nodes|
    && (th.call.New? ==>
         var cell := s.nodes[th.node];
         cell.parent == th.call.parent && cell.timed == th.call.timed && cell.expired == th.call.expired)
    && (MustStop(s, th) ==>
         if th.stack == [] then s.nodes[th.node].settled && !s.nodes[th.node].armed else !th.stack[0].MakeDone?)
  }

  predicate TimersOk(s: State) {
    forall t: nat | t < |s.threads| :: TimerOk(s, s.threads[t])
  }

  /** A timer is not set once the context is cancelled. */
  predicate TimersStay(s: State, nodes: seq<Cell>) {
    |s.nodes| <= |nodes| &&
    forall n: nat | n < |s.nodes| && s.nodes[n].err.Some? && !s.nodes[n].armed :: !nodes[n].armed
  }

  lemma TimersStayOff(s: State, t: nat, pick: nat)
    requires Inv(s) && Enabled(s, Move(t, pick))
    ensures TimersStay(s, NextNodes(s, t, pick))
  {
    hide Inv;
  }

  lemma OtherTimerKept(s: State, u: State, freed: Option<nat>, th: Thread)
    requires TimerOk(s, th) && Grown(s, u, freed) && TimersStay(s, u.nodes)
    requires forall n: nat | n < |s.nodes| :: CellOk(s, n)
    ensures TimerOk(u, th)
  {
    assert CellOk(s, th.node);
    hide Covered, Owned;
  }

  lemma BottomTimer(s: State, t: nat, pick: nat)
    requires Enabled(s, Move(t, pick)) && |s.threads[t].stack| == 1 && !Top(s, t).MakeDone?
    requires CellOk(s, Top(s, t).c) && FrameOk(s, t, s.threads[t].stack, 0) && s.nodes[Top(s, t).c].timed
    requires Top(s, t).PropDone? || Top(s, t).PropLock? || Top(s, t).PropHold? || Top(s, t).Arm? ==>
      s.nodes[Top(s, t).c].expired
    ensures
      var next := NextFrames(s, t, pick);
      if next == [] then
        var nodes := NextNodes(s, t, pick);
        |nodes| == |s.nodes| && nodes[Top(s, t).c].settled && !nodes[Top(s, t).c].armed
      else !next[0].MakeDone?
  {
    hide Accounted, Covered, Owned;
  }

  lemma OwnTimerKept(s: State, t: nat, pick: nat)
    requires Inv(s) && CallsOk(s) && TimersOk(s) && Enabled(s, Move(t, pick))
    ensures TimerOk(Advance(s, t, pick), Advance(s, t, pick).threads[t])
  {
    var (u, th) := (Advance(s, t, pick), s.threads[t]);
    assert TimerOk(s, th) && CallOk(s, th);
    MoveGrown(s, t, pick);
    StackTop(s, t, pick);
    assert u.threads[t] == th.(stack := NextStack(s, t, pick)) && u.nodes == NextNodes(s, t, pick);
    if |th.stack| > 1 {
      assert NextStack(s, t, pick)[0] == th.stack[0];
    } else if MustStop(s, th) {
      TopOk(s, t);
      assert Top(s, t) == th.stack[0];
      BottomTimer(s, t, pick);
    }
    hide Inv, CallsOk, TimersOk, Advance, NextStack, NextNodes, NextFrames, Enabled, FrameOk, CellOk, ChildOk;
  }

  lemma TimersKept(s: State, a: Action)
    requires Inv(s) && CallsOk(s) && TimersOk(s) && Enabled(s, a)
    ensures TimersOk(Apply(s, a))
  {
    var u := Apply(s, a);
    assert forall n: nat | n < |s.nodes| :: CellOk(s, n);
    match a {
      case Start(call) =>
        StartGrown(s, call);
        hide Inv, CellOk;
        forall t: nat | t < |u.threads|
          ensures TimerOk(u, u.threads[t])
        {
          if t < |s.threads| {
            assert u.threads[t] == s.threads[t] && TimerOk(s, s.threads[t]);
            OtherTimerKept(s, u, None, s.threads[t]);
          }
        }
      case Move(i, pick) =>
        MoveGrown(s, i, pick);
        TimersStayOff(s, i, pick);
        hide CellOk, Grown, TimersStay;
        forall t: nat | t < |u.threads|
          ensures TimerOk(u, u.threads[t])
        {
          if t == i {
            OwnTimerKept(s, i, pick);
          } else {
            assert u.threads[t] == s.threads[t] && TimerOk(s, s.threads[t]);
            OtherTimerKept(s, u, Freed(s, i), s.threads[t]);
          }
        }
    }
  }

  lemma {:induction false} RunTimers(acts: seq<Action>, s: State)
    requires Run(acts, s)
    ensures TimersOk(s)
    decreases |acts|
  {
    hide *;
    if acts == [] {
      NoneExcused(s);
    } else {
      var front, t, a := LastStep(acts, s);
      RunInv(front, t);
      RunTimers(front, t);
      TimersKept(t, a);
    }
  }

  /** When a cancel of a timer context has returned, its timer is off for good. */
  lemma CancelStopsTimer(acts: seq<Action>, s: State, t: nat)
    requires Run(acts, s) && t < |s.threads| && s.threads[t].call.Cancel? && s.threads[t].stack == []
    ensures s.threads[t].node < |s.nodes|
    ensures s.nodes[s.threads[t].node].timed ==> !s.nodes[s.threads[t].node].armed
  {
    RunTimers(acts, s);
    assert TimerOk(s, s.threads[t]);
  }

  /** What was made past its deadline is cancelled when it is returned, for that reason if no cancel was called
      for another. */
  lemma PastDeadline(acts: seq<Action>, s: State, t: nat)
    requires Run(acts, s) && t < |s.threads| && s.threads[t].stack == []
    requires s.threads[t].call.New? && s.threads[t].call.timed && s.threads[t].call.expired
    ensures s.threads[t].node < |s.nodes|
    ensures var cell := s.nodes[s.threads[t].node];
      cell.err.Some? && cell.done == Closed && !cell.armed &&
      ((forall c: nat :: Start(Cancel(c, Canceled)) !in acts) ==> cell.err == Some(DeadlineExceeded))
  {
    RunTimers(acts, s);
    RunInv(acts, s);
    hide Run;
    ReturnedStopped(s, t);
    hide *;
    var x := s.threads[t].node;
    var c := ErrHasReason(acts, s, x);
    if (forall d: nat :: Start(Cancel(d, Canceled)) !in acts) {
      OnlyDeadline(acts, s, c, s.nodes[x].err.value);
    }
  }

  lemma ReturnedStopped(s: State, t: nat)
    requires Inv(s) && TimersOk(s) && t < |s.threads| && s.threads[t].stack == []
    requires s.threads[t].call.New? && s.threads[t].call.timed && s.threads[t].call.expired
    ensures s.threads[t].node < |s.nodes|
    ensures var cell := s.nodes[s.threads[t].node]; cell.err.Some? && cell.done == Closed && !cell.armed
  {
    assert TimerOk(s, s.threads[t]) && CellOk(s, s.threads[t].node);
    hide Inv, TimersOk, Covered, Owned;
  }

  lemma OnlyDeadline(acts: seq<Action>, s: State, c: nat, e: Err)
    requires Reason(acts, s, c, e) && forall d: nat :: Start(Cancel(d, Canceled)) !in acts
    ensures e == DeadlineExceeded
  {
  }

  // ---- What a live context keeps ----

  predicate Building(f: Frame) {
    f.PropDone? || f.PropLock? || f.PropHold?
  }

  /** A context is built by one call, and the outermost cancel of a call takes it out of the one above. */
  predicate BuildOk(s: State, th: Thread) {
    && th.node < |s.nodes|
    && (th.call.Cancel? ==> s.nodes[th.node].built)
    && (th.stack != [] && Building(th.stack[0]) ==> th.call.New? && !s.nodes[th.node].built)
    && (th.stack != [] && (th.stack[0].Enter? || th.stack[0].Iter?) ==> th.stack[0].remove)
  }

  /** The call has cancelled x, and is yet to take it out of the context above. */
  predicate Removing(th: Thread, x: nat) {
    && th.stack != [] && th.stack[0].c == x
    && (th.stack[0].Remove? || (th.stack[0].Iter? && th.stack[0].remove))
  }

  ghost predicate Leaving(s: State, x: nat) {
    exists t: nat :: t < |s.threads| && Removing(s.threads[t], x)
  }

  /** A cancelled child of a live context is about to leave it. */
  ghost predicate Registered(s: State, p: nat, x: nat)
    requires p < |s.nodes|
  {
    x < |s.nodes| && s.nodes[x].built && (s.nodes[p].err == None && s.nodes[x].err.Some? ==> Leaving(s, x))
  }

  /** What is cancelled before it is built is so because the context above is. */
  predicate YoungOk(s: State, x: nat)
    requires x < |s.nodes|
  {
    !s.nodes[x].built && s.nodes[x].err.Some? ==>
      Above(s, x).Some? && Above(s, x).value < |s.nodes| && s.nodes[Above(s, x).value].err.Some?
  }

  predicate Distinct(threads: seq<Thread>) {
    forall t: nat, i: nat | t < i < |threads| && threads[t].call.New? && threads[i].call.New? ::
      threads[t].node != threads[i].node
  }

  ghost predicate Tidy(s: State) {
    && (forall t: nat | t < |s.threads| :: BuildOk(s, s.threads[t]))
    && Distinct(s.threads)
    && (forall x: nat | x < |s.nodes| :: YoungOk(s, x))
    && (forall p: nat, x | p < |s.nodes| && x in s.nodes[p].children :: Registered(s, p, x))
  }

  /** Frames that build a context or take it out of the one above are outermost. */
  lemma Outermost(s: State, t: nat)
    requires Inv(s) && CallsOk(s) && t < |s.threads| && s.threads[t].stack != []
    ensures Building(Top(s, t)) || Top(s, t).Remove? ==> |s.threads[t].stack| == 1
    ensures |s.threads[t].stack| == 1 ==> Top(s, t).c == s.threads[t].node
  {
    TopOk(s, t);
    assert CallOk(s, s.threads[t]);
    hide Inv, CallsOk, Accounted, CellOk, ChildOk;
  }

  /** What a step writes that matters here. */
  lemma Written(s: State, t: nat, pick: nat, x: nat)
    requires Inv(s) && Enabled(s, Move(t, pick)) && x < |s.nodes|
    ensures var (f, nodes) := (Top(s, t), NextNodes(s, t, pick));
      && |nodes| == |s.nodes|
      && (!s.nodes[x].built && nodes[x].built ==> Building(f) && f.c == x)
      && (forall y | y in nodes[x].children && y !in s.nodes[x].children ::
           f.PropLock? && y == f.c && s.nodes[x].err == None && Above(s, y) == Some(x) && nodes[y].built
           && nodes[y].err == s.nodes[y].err)
      && (f.Remove? && Above(s, f.c) == Some(x) ==> f.c !in nodes[x].children)
      && ((f.PropDone? || (f.PropLock? && NextFrames(s, t, pick) != [] && NextFrames(s, t, pick)[0].PropHold?)) ==>
           nodes[x].built == s.nodes[x].built)
  {
    TopOk(s, t);
    hide Inv, Accounted, Covered, Owned, ChildOk, FrameCovered;
  }

  /** A context is cancelled from the outside when it is built, and from above when the one above is cancelled. */
  lemma EnteredBuilt(s: State, t: nat)
    requires Inv(s) && CallsOk(s) && t < |s.threads| && s.threads[t].stack != [] && BuildOk(s, s.threads[t])
    requires Top(s, t).Enter?
    ensures Top(s, t).c < |s.nodes|
    ensures if |s.threads[t].stack| == 1 then s.nodes[Top(s, t).c].built && Top(s, t).remove
      else
        var p := Above(s, Top(s, t).c);
        p.Some? && p.value < |s.nodes| && s.nodes[p.value].err.Some?
  {
    TopOk(s, t);
    assert CallOk(s, s.threads[t]);
    var (stack, m) := (s.threads[t].stack, |s.threads[t].stack| - 1);
    if m > 0 {
      assert StackOk(s, t, stack) && FrameOk(s, t, stack, m - 1);
      if stack[m - 1].PropHold? {
        assert CellOk(s, Above(s, stack[m].c).value);
      }
    }
    hide Inv, CallsOk, Accounted, CellOk, ChildOk, StackOk;
  }

  lemma YoungKept(s: State, t: nat, pick: nat, x: nat)
    requires Inv(s) && CallsOk(s) && Enabled(s, Move(t, pick)) && BuildOk(s, s.threads[t])
    requires x < |s.nodes| && YoungOk(s, x)
    ensures x < |NextNodes(s, t, pick)| && YoungOk(Advance(s, t, pick), x)
  {
    var u := Advance(s, t, pick);
    assert u.nodes == NextNodes(s, t, pick);
    MoveGrown(s, t, pick);
    ErrWritten(s, t, pick, x);
    if s.nodes[x].err == None && u.nodes[x].err.Some? {
      EnteredBuilt(s, t);
    }
    hide Inv, CallsOk, Advance, NextNodes, Enabled, BuildOk;
  }

  lemma BottomBuild(s: State, t: nat, pick: nat)
    requires Inv(s) && CallsOk(s) && Enabled(s, Move(t, pick)) && BuildOk(s, s.threads[t])
    requires |s.threads[t].stack| == 1 && NextFrames(s, t, pick) != []
    ensures var f := NextFrames(s, t, pick)[0];
      && (Building(f) ==> s.threads[t].call.New? && !s.nodes[Top(s, t).c].built
                          && Top(s, t).c < |NextNodes(s, t, pick)| && !NextNodes(s, t, pick)[Top(s, t).c].built)
      && (f.Enter? || f.Iter? ==> f.remove)
  {
    Outermost(s, t);
    TopOk(s, t);
    Written(s, t, pick, Top(s, t).c);
    hide Inv, CallsOk, NextNodes;
  }

  lemma BuildKept(s: State, t: nat, pick: nat, i: nat)
    requires Inv(s) && CallsOk(s) && Tidy(s) && Enabled(s, Move(t, pick)) && i < |s.threads|
    ensures |Advance(s, t, pick).threads| == |s.threads|
    ensures BuildOk(Advance(s, t, pick), Advance(s, t, pick).threads[i])
  {
    var (u, th) := (Advance(s, t, pick), s.threads[i]);
    assert u.nodes == NextNodes(s, t, pick);
    assert u.threads == s.threads[t := s.threads[t].(stack := NextStack(s, t, pick))];
    MoveGrown(s, t, pick);
    StackTop(s, t, pick);
    Outermost(s, t);
    assert BuildOk(s, th) && BuildOk(s, s.threads[t]) && CallOk(s, th);
    Written(s, t, pick, th.node);
    if i == t && |th.stack| == 1 && NextFrames(s, t, pick) != [] {
      BottomBuild(s, t, pick);
    }
    hide Inv, CallsOk, Advance, NextNodes, NextStack, NextFrames, Enabled;
  }

  /** Who was about to take x out still is, or has done so. */
  lemma RemovingKept(s: State, t: nat, pick: nat, p: nat, x: nat)
    requires Inv(s) && CallsOk(s) && Enabled(s, Move(t, pick)) && Removing(s.threads[t], x)
    requires p < |s.nodes| && Above(s, x) == Some(p)
    ensures t < |Advance(s, t, pick).threads|
    ensures Removing(Advance(s, t, pick).threads[t], x) || x !in NextNodes(s, t, pick)[p].children
  {
    StackTop(s, t, pick);
    Written(s, t, pick, p);
    var u := Advance(s, t, pick);
    assert u.threads[t].stack == NextStack(s, t, pick);
    hide Inv, CallsOk, NextNodes, NextStack;
  }

  lemma EnterLeaves(s: State, t: nat, pick: nat)
    requires Inv(s) && CallsOk(s) && Enabled(s, Move(t, pick)) && |s.threads[t].stack| == 1
    requires Top(s, t).Enter? && Top(s, t).remove && s.nodes[Top(s, t).c].err == None
    ensures t < |Advance(s, t, pick).threads| && Removing(Advance(s, t, pick).threads[t], Top(s, t).c)
  {
    StackTop(s, t, pick);
    var u := Advance(s, t, pick);
    assert u.threads[t].stack == NextStack(s, t, pick);
    hide Inv, CallsOk, NextStack;
  }

  /** A context is registered alive. */
  lemma JustRegistered(s: State, t: nat, pick: nat, p: nat, x: nat)
    requires Inv(s) && CallsOk(s) && Tidy(s) && Enabled(s, Move(t, pick)) && p < |s.nodes|
    requires p < |NextNodes(s, t, pick)| && x in NextNodes(s, t, pick)[p].children && x !in s.nodes[p].children
    ensures x < |NextNodes(s, t, pick)| && NextNodes(s, t, pick)[x].built && NextNodes(s, t, pick)[x].err == None
  {
    Written(s, t, pick, p);
    Outermost(s, t);
    assert BuildOk(s, s.threads[t]) && YoungOk(s, x);
    hide Inv, CallsOk, Tidy, NextNodes, NextFrames;
  }

  lemma LeavingKept(s: State, t: nat, pick: nat, p: nat, x: nat)
    requires Inv(s) && CallsOk(s) && Tidy(s) && Enabled(s, Move(t, pick)) && p < |s.nodes| && x < |s.nodes|
    requires x in s.nodes[p].children && Registered(s, p, x) && s.nodes[p].err == None
    requires |NextNodes(s, t, pick)| == |s.nodes| && NextNodes(s, t, pick)[x].err.Some?
    requires x in NextNodes(s, t, pick)[p].children
    ensures Leaving(Advance(s, t, pick), x)
  {
    var u := Advance(s, t, pick);
    assert |u.threads| == |s.threads| && forall i: nat | i < |s.threads| && i != t :: u.threads[i] == s.threads[i];
    assert CellOk(s, p) && BuildOk(s, s.threads[t]);
    ErrWritten(s, t, pick, x);
    hide Tidy, Advance, NextNodes;
    if s.nodes[x].err.Some? {
      var i: nat :| i < |s.threads| && Removing(s.threads[i], x);
      if i == t {
        RemovingKept(s, t, pick, p, x);
      }
      assert Removing(u.threads[i], x);
    } else {
      EnteredBuilt(s, t);
      EnterLeaves(s, t, pick);
    }
    hide Inv, CallsOk, Enabled, BuildOk;
  }

  lemma RegisteredKept(s: State, t: nat, pick: nat, p: nat, x: nat)
    requires Inv(s) && CallsOk(s) && Tidy(s) && Enabled(s, Move(t, pick)) && p < |s.nodes|
    requires p < |NextNodes(s, t, pick)| && x in NextNodes(s, t, pick)[p].children
    ensures Registered(Advance(s, t, pick), p, x)
  {
    var u := Advance(s, t, pick);
    assert u.nodes == NextNodes(s, t, pick);
    MoveGrown(s, t, pick);
    SameParents(s, t, pick);
    hide Inv, CallsOk, Advance, NextNodes, Enabled, Leaving;
    if x !in s.nodes[p].children {
      JustRegistered(s, t, pick, p, x);
    } else {
      assert Registered(s, p, x);
      if u.nodes[p].err == None && u.nodes[x].err.Some? {
        LeavingKept(s, t, pick, p, x);
      }
    }
    hide Tidy, Grown;
  }

  lemma MoveTidy(s: State, t: nat, pick: nat)
    requires Inv(s) && CallsOk(s) && Tidy(s) && Enabled(s, Move(t, pick))
    ensures Tidy(Advance(s, t, pick))
  {
    var u := Advance(s, t, pick);
    assert u.nodes == NextNodes(s, t, pick) && |u.threads| == |s.threads|;
    assert forall i: nat | i < |s.threads| ::
      u.threads[i].call == s.threads[i].call && u.threads[i].node == s.threads[i].node;
    SameParents(s, t, pick);
    assert forall x: nat | x < |s.nodes| :: YoungOk(s, x);
    assert BuildOk(s, s.threads[t]);
    hide Inv, CallsOk, Advance, NextNodes, Enabled, BuildOk, YoungOk, Registered;
    forall i: nat | i < |u.threads| ensures BuildOk(u, u.threads[i]) {
      BuildKept(s, t, pick, i);
    }
    forall x: nat | x < |u.nodes| ensures YoungOk(u, x) {
      YoungKept(s, t, pick, x);
    }
    forall p: nat, x | p < |u.nodes| && x in u.nodes[p].children ensures Registered(u, p, x) {
      RegisteredKept(s, t, pick, p, x);
    }
  }

  lemma StartTidy(s: State, call: Call)
    requires Inv(s) && CallsOk(s) && Tidy(s) && Enabled(s, Start(call))
    ensures Tidy(Begin(s, call))
  {
    var u := Begin(s, call);
    assert forall t: nat | t < |s.threads| :: BuildOk(s, s.threads[t]) && u.threads[t] == s.threads[t];
    hide Inv, CallsOk;
    forall p: nat, x | p < |u.nodes| && x in u.nodes[p].children ensures Registered(u, p, x) {
      assert p < |s.nodes| && Registered(s, p, x);
      if Leaving(s, x) {
        var t: nat :| t < |s.threads| && Removing(s.threads[t], x);
        assert Removing(u.threads[t], x);
      }
    }
    assert forall x: nat | x < |s.nodes| :: YoungOk(s, x) && u.nodes[x] == s.nodes[x];
    hide Registered;
  }

  lemma {:induction false} RunTidy(acts: seq<Action>, s: State)
    requires Run(acts, s)
    ensures Tidy(s)
    decreases |acts|
  {
    hide Inv, CallsOk, Begin, Advance, Enabled;
    if acts != [] {
      var front, t, a := LastStep(acts, s);
      RunInv(front, t);
      RunTidy(front, t);
      hide Run, Tidy;
      match a {
        case Start(call) => StartTidy(t, call);
        case Move(i, pick) => MoveTidy(t, i, pick);
      }
    }
  }

  /** A cancelled context is among the children of a live one only while the cancel that was called on it is
      still to take it out. */
  lemma CancelledLeaves(acts: seq<Action>, s: State, p: nat, x: nat)
    requires Run(acts, s) && p < |s.nodes| && x in s.nodes[p].children
    ensures x < |s.nodes| && s.nodes[x].built && Above(s, x) == Some(p)
    ensures s.nodes[p].err == None && s.nodes[x].err.Some? ==>
      exists t: nat :: t < |s.threads| && s.threads[t].node == x && s.threads[t].stack != []
  {
    RunInv(acts, s);
    RunTidy(acts, s);
    assert CellOk(s, p) && Registered(s, p, x);
    assert forall t: nat | t < |s.threads| :: CallOk(s, s.threads[t]);
    hide Inv, CallsOk, Tidy, CellOk, Run;
    if Leaving(s, x) {
      var t: nat :| t < |s.threads| && Removing(s.threads[t], x);
    }
  }

  /** When every call has returned a live context holds exactly the live contexts right below it: nothing is
      missed by a cancel to come, and nothing that was cancelled is kept. */
  lemma ChildrenExact(acts: seq<Action>, s: State, p: nat, x: nat)
    requires Run(acts, s) && p < |s.nodes| && s.nodes[p].err == None
    requires forall t: nat | t < |s.threads| :: s.threads[t].stack == []
    ensures x in s.nodes[p].children <==>
      x < |s.nodes| && s.nodes[x].built && Above(s, x) == Some(p) && s.nodes[x].err == None
  {
    if x in s.nodes[p].children {
      CancelledLeaves(acts, s, p, x);
    } else if x < |s.nodes| && s.nodes[x].built && Above(s, x) == Some(p) {
      LiveChildIsRegistered(acts, s, x, p);
    }
    hide Run;
  }

  // ---- How many steps there are ----

  /** A bound on the steps of a pending call; a child still to be cancelled counts for the Enter it brings. */
  function FrameRank(f: Frame): nat {
    match f
    case PropDone(_) => 12
    case PropLock(_) => 11
    case PropHold(_) => 6
    case Arm(_) => 5
    case Enter(_, _, _) => 4
    case Iter(_, _, _, todo) => 3 + 5 * |todo|
    case Remove(_) => 2
    case Stop(_) => 1
    case MakeDone(_) => 1
  }

  function StackRank(stack: seq<Frame>): nat {
    if stack == [] then 0 else StackRank(stack[..|stack| - 1]) + FrameRank(stack[|stack| - 1])
  }

  function ThreadsRank(threads: seq<Thread>): nat {
    if threads == [] then 0
    else ThreadsRank(threads[..|threads| - 1]) + StackRank(threads[|threads| - 1].stack)
  }

  /** The children of a context that is not cancelled are yet to be, once. */
  function CellRank(cell: Cell): nat {
    if cell.err == None then 5 * |cell.children| else 0
  }

  function CellsRank(nodes: seq<Cell>): nat {
    if nodes == [] then 0 else CellsRank(nodes[..|nodes| - 1]) + CellRank(nodes[|nodes| - 1])
  }

  function Rank(s: State): nat {
    ThreadsRank(s.threads) + CellsRank(s.nodes)
  }

  lemma {:induction false} StackRankConcat(a: seq<Frame>, b: seq<Frame>)
    ensures StackRank(a + b) == StackRank(a) + StackRank(b)
  {
    if b == [] {
      assert a + b == a;
    } else {
      assert (a + b)[..|a + b| - 1] == a + b[..|b| - 1];
      StackRankConcat(a, b[..|b| - 1]);
    }
  }

  lemma {:induction false} ThreadsRankUpdate(threads: seq<Thread>, t: nat, th: Thread)
    requires t < |threads|
    ensures ThreadsRank(threads[t := th]) == ThreadsRank(threads) - StackRank(threads[t].stack) + StackRank(th.stack)
  {
    var m := |threads| - 1;
    if t < m {
      assert threads[t := th][..m] == threads[..m][t := th];
      ThreadsRankUpdate(threads[..m], t, th);
    } else {
      assert threads[t := th][..m] == threads[..m];
    }
  }

  lemma {:induction false} CellsRankUpdate(nodes: seq<Cell>, n: nat, cell: Cell)
    requires n < |nodes|
    ensures CellsRank(nodes[n := cell]) == CellsRank(nodes) - CellRank(nodes[n]) + CellRank(cell)
  {
    var m := |nodes| - 1;
    if n < m {
      assert nodes[n := cell][..m] == nodes[..m][n := cell];
      CellsRankUpdate(nodes[..m], n, cell);
    } else {
      assert nodes[n := cell][..m] == nodes[..m];
    }
  }

  /** What a step does to the rank of the contexts: only registering a child raises it, and cancelling pays for
      the children. */
  lemma CellsPay(s: State, t: nat, pick: nat)
    requires Enabled(s, Move(t, pick))
    ensures
      var f := Top(s, t);
      CellsRank(NextNodes(s, t, pick)) <= CellsRank(s.nodes) +
      (if f.PropLock? && s.nodes[Above(s, f.c).value].err == None then 5
       else if f.Enter? && s.nodes[f.c].err == None then -5 * |s.nodes[f.c].children| else 0)
  {
    var f := Top(s, t);
    if f.PropDone? || f.PropLock? || f.PropHold? {
      UpperCellPays(s, t, pick);
    } else if f.Remove? {
      RemovedChildPays(s, t, pick);
    } else {
      OwnCellPays(s, t, pick);
    }
    hide CellsRank, NextNodes, Enabled;
  }

  lemma UpperCellPays(s: State, t: nat, pick: nat)
    requires Enabled(s, Move(t, pick)) && (Top(s, t).PropDone? || Top(s, t).PropLock? || Top(s, t).PropHold?)
    ensures
      var f := Top(s, t);
      CellsRank(NextNodes(s, t, pick)) <=
      CellsRank(s.nodes) + if f.PropLock? && s.nodes[Above(s, f.c).value].err == None then 5 else 0
  {
    hide CellsRank;
    var (f, nodes) := (Top(s, t), s.nodes);
    var p := Above(s, f.c).value;
    if f.PropDone? {
      CellsRankUpdate(nodes, p, nodes[p].(done := MakeChan(nodes[p].done)));
    } else if f.PropHold? {
      TwoCellsPay(nodes, p, nodes[p].(mu := None), f.c);
    } else if nodes[p].err.Some? {
      CellsRankUpdate(nodes, p, nodes[p].(mu := Some(t)));
    } else {
      SmallerSet(nodes[p].children, f.c);
      TwoCellsPay(nodes, p, nodes[p].(children := nodes[p].children + {f.c}), f.c);
    }
  }

  /** The context above becomes up, and c is constructed. */
  lemma TwoCellsPay(nodes: seq<Cell>, p: nat, up: Cell, c: nat)
    requires p < |nodes| && c < |nodes| && up.built == nodes[p].built
    ensures CellsRank(nodes[p := up][c := nodes[c].(built := true)])
      <= CellsRank(nodes) + if CellRank(up) > CellRank(nodes[p]) then CellRank(up) - CellRank(nodes[p]) else 0
  {
    hide CellsRank;
    var cell := nodes[c].(built := true);
    CellsRankUpdate(nodes, p, up);
    CellsRankUpdate(nodes[p := up], c, cell);
  }

  lemma RemovedChildPays(s: State, t: nat, pick: nat)
    requires Enabled(s, Move(t, pick)) && Top(s, t).Remove?
    ensures CellsRank(NextNodes(s, t, pick)) <= CellsRank(s.nodes)
  {
    hide CellsRank;
    var (c, nodes) := (Top(s, t).c, s.nodes);
    if Above(s, c).Some? {
      var p := Above(s, c).value;
      CellsRankUpdate(nodes, p, nodes[p].(children := nodes[p].children - {c}));
      SmallerSet(nodes[p].children, c);
    }
  }

  lemma OwnCellPays(s: State, t: nat, pick: nat)
    requires Enabled(s, Move(t, pick))
    requires var f := Top(s, t); f.Arm? || f.Enter? || f.Iter? || f.Stop? || f.MakeDone?
    ensures
      var f := Top(s, t);
      CellsRank(NextNodes(s, t, pick)) <=
      CellsRank(s.nodes) - if f.Enter? && s.nodes[f.c].err == None then 5 * |s.nodes[f.c].children| else 0
  {
    hide CellsRank;
    var c := Top(s, t).c;
    CellsRankUpdate(s.nodes, c, NextNodes(s, t, pick)[c]);
    assert NextNodes(s, t, pick) == s.nodes[c := NextNodes(s, t, pick)[c]];
  }

  lemma SmallerSet(a: set<nat>, x: nat)
    ensures |a - {x}| <= |a| <= |a + {x}| <= |a| + 1
  {
    if x in a {
      assert a + {x} == a && a - {x} + {x} == a;
    } else {
      assert a - {x} == a;
    }
  }

  lemma FewRanked(frames: seq<Frame>)
    ensures |frames| == 0 ==> StackRank(frames) == 0
    ensures |frames| == 1 ==> StackRank(frames) == FrameRank(frames[0])
    ensures |frames| == 2 ==> StackRank(frames) == FrameRank(frames[0]) + FrameRank(frames[1])
  {
    if |frames| == 1 {
      assert frames[..0] == [];
    } else if |frames| == 2 {
      assert frames[..1] == [frames[0]];
      FewRanked(frames[..1]);
    }
  }

  /** The frames that a step leaves of its frame have less to do, beyond what the contexts pay. */
  lemma FramesDescend(s: State, t: nat, pick: nat)
    requires Enabled(s, Move(t, pick))
    ensures
      var f := Top(s, t);
      StackRank(NextFrames(s, t, pick)) < FrameRank(f)
        - (if f.PropLock? && s.nodes[Above(s, f.c).value].err == None then 5 else 0)
        + (if f.Enter? && s.nodes[f.c].err == None then 5 * |s.nodes[f.c].children| else 0)
  {
    var f := Top(s, t);
    if f.Iter? && f.todo != {} {
      CalleeRank(s, t, pick);
    } else {
      OtherRank(s, t, pick);
    }
    hide StackRank, NextFrames, FrameRank, Enabled;
  }

  lemma CalleeRank(s: State, t: nat, pick: nat)
    requires Enabled(s, Move(t, pick)) && Top(s, t).Iter? && Top(s, t).todo != {}
    ensures StackRank(NextFrames(s, t, pick)) < FrameRank(Top(s, t))
  {
    hide StackRank;
    FewRanked(NextFrames(s, t, pick));
    var todo := Top(s, t).todo;
    assert |todo - {pick}| == |todo| - 1;
  }

  lemma OtherRank(s: State, t: nat, pick: nat)
    requires Enabled(s, Move(t, pick)) && !(Top(s, t).Iter? && Top(s, t).todo != {})
    ensures
      var f := Top(s, t);
      StackRank(NextFrames(s, t, pick)) < FrameRank(f)
        - (if f.PropLock? && s.nodes[Above(s, f.c).value].err == None then 5 else 0)
        + (if f.Enter? && s.nodes[f.c].err == None then 5 * |s.nodes[f.c].children| else 0)
  {
    hide StackRank;
    FewRanked(NextFrames(s, t, pick));
  }

  /** Every step of a call uses up some of the rank. */
  lemma StepsRunOut(s: State, t: nat, pick: nat)
    requires Enabled(s, Move(t, pick))
    ensures Rank(Advance(s, t, pick)) < Rank(s)
  {
    CellsPay(s, t, pick);
    FramesDescend(s, t, pick);
    var stack := s.threads[t].stack;
    var (low, next) := (stack[..|stack| - 1], NextFrames(s, t, pick));
    StackRankConcat(low, next);
    ThreadsRankUpdate(s.threads, t, s.threads[t].(stack := low + next));
    assert StackRank(stack) == StackRank(low) + FrameRank(Top(s, t));
    hide NextFrames, NextNodes, StackRank, ThreadsRank, CellsRank, FrameRank, Enabled;
  }

  /** Beginning a call adds no more than the steps of its first frame. */
  lemma StartAdds(s: State, call: Call)
    requires Enabled(s, Start(call))
    ensures Rank(Begin(s, call)) <= Rank(s) + 12
  {
    var u := Begin(s, call);
    var stack := u.threads[|s.threads|].stack;
    assert u.threads[..|s.threads|] == s.threads;
    assert |stack| <= 1 && (stack == [] || (stack[..0] == [] && StackRank(stack) == FrameRank(stack[0]) <= 12));
    if call.New? {
      assert u.nodes[..|s.nodes|] == s.nodes;
    }
  }

  function Starts(acts: seq<Action>): nat {
    if acts == [] then 0
    else Starts(acts[..|acts| - 1]) + if acts[|acts| - 1].Start? then 1 else 0
  }

  /** Finitely many calls take finitely many steps: at most twelve each, whatever the schedule and the tree. */
  lemma {:induction false} RunsEnd(acts: seq<Action>, s: State)
    requires Run(acts, s)
    ensures |acts| + Rank(s) <= 13 * Starts(acts)
  {
    if acts != [] {
      var last := |acts| - 1;
      var t: State :| Run(acts[..last], t) && Enabled(t, acts[last]) && s == Apply(t, acts[last]);
      RunsEnd(acts[..last], t);
      hide Rank, Enabled, Advance, Begin;
      match acts[last] {
        case Start(call) => StartAdds(t, call);
        case Move(i, pick) => StepsRunOut(t, i, pick);
      }
    }
  }
}
