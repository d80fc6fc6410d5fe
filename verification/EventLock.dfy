// The event-handling lock of libusb: io.c and libusb_close of core.c, for any number of threads.

/**
 * One context as a state machine. Each step is one access to shared state: a lock operation, a read or write of
 * event_handler_active, or a section under event_data_lock, which no thread leaves half-way.
 */
module EventLock {
  /** What a thread does next. */
  datatype Pc =
    | Idle
    // libusb_handle_events_timeout_completed, trying to become the event handler
    | ReadClose | TryLock | SetActive | CheckCompleted | Prepare | Polling | Dispatching | CallbackLock | Callback
    // libusb_unlock_events
    | ClearActive | ReleaseEvents | BroadcastLock | Broadcast | BroadcastUnlock
    // libusb_handle_events_timeout_completed, waiting for another handler
    | WaiterLock | WaiterCompleted | WaiterReadClose | WaiterReadActive | Retry
    | FallAsleep | Asleep | Awake | WaiterUnlock
    // libusb_close
    | CloseLock | CloseActive | Closing | Retract

  datatype Flag = DeviceClose | SourcesModified | UserInterrupt | TransferCompleted | HotplugPending | HotplugDeregistered

  datatype Holder = Nobody | Thread(id: nat)

  /** The shared fields of libusb_context. */
  datatype Context = Context(
    eventsLock: Holder,
    waitersLock: Holder,
    handlerActive: bool,
    deviceClose: int,
    flags: set<Flag>,
    signalled: bool)

  /** The context, where each thread is, and the flag of the request that each thread waits for. */
  datatype State = State(ctx: Context, pcs: seq<Pc>, completed: seq<bool>)

  /** What a thread can do, where there is a choice. */
  datatype Move =
    | Begin(renew: bool)
    | BeginClose
    | Run
    | PollReturns
    | Trigger(cleared: set<Flag>)
    | StartCallback
    | EndHandling
    | Complete(waiters: set<nat>)
    | WakeUp
    | Raise(flag: Flag)

  /** A flag is raised; the event is signalled if none was pending. */
  function RaiseFlag(c: Context, flag: Flag): Context {
    c.(flags := c.flags + {flag}, signalled := c.signalled || c.flags == {})
  }

  /** Flags are lowered; the event is cleared if none is left. */
  function LowerFlags(c: Context, cleared: set<Flag>): Context {
    c.(flags := c.flags - cleared, signalled := c.signalled && c.flags - cleared != {})
  }

  /** libusb_close announces itself: only the first closer raises the flag. */
  function Announced(c: Context): Context {
    c.(deviceClose := c.deviceClose + 1,
       flags := c.flags + if c.deviceClose == 0 then {DeviceClose} else {},
       signalled := c.signalled || c.flags == {})
  }

  /** libusb_close is done with the device: the last closer lowers the flag. */
  function Retracted(c: Context): Context {
    LowerFlags(c, if c.deviceClose == 1 then {DeviceClose} else {}).(deviceClose := c.deviceClose - 1)
  }

  /** Whether a thread can go on without a choice of its own. */
  predicate CanRun(c: Context, pc: Pc) {
    match pc
    case Idle | Dispatching | Callback | Asleep => false
    case Polling => c.signalled
    case CallbackLock | BroadcastLock | WaiterLock | Awake => c.waitersLock == Nobody
    case CloseLock => c.eventsLock == Nobody
    case _ => true
  }

  /** The next statement of thread t, which waits for a request that is or is not completed. */
  function Statement(c: Context, t: nat, pc: Pc, completed: bool): (Pc, Context)
    requires CanRun(c, pc)
  {
    match pc
    case ReadClose => (if c.deviceClose != 0 then WaiterLock else TryLock, c)
    case TryLock => if c.eventsLock == Nobody then (SetActive, c.(eventsLock := Thread(t))) else (WaiterLock, c)
    case SetActive => (CheckCompleted, c.(handlerActive := true))
    case CheckCompleted => (if completed then ClearActive else Prepare, c)
    case Prepare => (Polling, if SourcesModified in c.flags then LowerFlags(c, {SourcesModified}) else c)
    case Polling => (Dispatching, c)
    case CallbackLock => (Callback, c.(waitersLock := Thread(t)))
    case ClearActive => (ReleaseEvents, c.(handlerActive := false))
    case ReleaseEvents => (BroadcastLock, c.(eventsLock := Nobody))
    case BroadcastLock => (Broadcast, c.(waitersLock := Thread(t)))
    case Broadcast => (BroadcastUnlock, c)
    case BroadcastUnlock => (Idle, c.(waitersLock := Nobody))
    case WaiterLock => (WaiterCompleted, c.(waitersLock := Thread(t)))
    case WaiterCompleted => (if completed then WaiterUnlock else WaiterReadClose, c)
    case WaiterReadClose => (if c.deviceClose != 0 then FallAsleep else WaiterReadActive, c)
    case WaiterReadActive => (if c.handlerActive then FallAsleep else Retry, c)
    case Retry => (ReadClose, c.(waitersLock := Nobody))
    case FallAsleep => (Asleep, c.(waitersLock := Nobody))
    case Awake => (WaiterUnlock, c.(waitersLock := Thread(t)))
    case WaiterUnlock => (Idle, c.(waitersLock := Nobody))
    case CloseLock => (CloseActive, c.(eventsLock := Thread(t)))
    case CloseActive => (Closing, c.(handlerActive := true))
    case Closing => (Retract, c)
    case Retract => (ClearActive, Retracted(c))
  }

  predicate Allowed(c: Context, pc: Pc, m: Move) {
    match m
    case Begin(_) | BeginClose => pc.Idle?
    case Run => CanRun(c, pc)
    case PollReturns => pc.Polling?
    case Trigger(cleared) => pc.Dispatching? && DeviceClose !in cleared && SourcesModified !in cleared
    case StartCallback | EndHandling => pc.Dispatching?
    case Complete(_) => pc.Callback?
    case WakeUp => pc.Asleep?
    case Raise(flag) => flag != DeviceClose
  }

  /**
   * Besides its next statement, a thread can begin to handle events or to close a device; polling can end because of
   * a device or a timeout; a handler reacts to the event, calls back, and stops; a sleeper can wake up by itself.
   */
  function Effect(c: Context, t: nat, pc: Pc, completed: bool, m: Move): (Pc, Context)
    requires Allowed(c, pc, m)
  {
    match m
    case Begin(_) => (ReadClose, c)
    case BeginClose => (CloseLock, Announced(c))
    case Run => Statement(c, t, pc, completed)
    case PollReturns => (Dispatching, c)
    case Trigger(cleared) => (pc, LowerFlags(c, cleared))
    case StartCallback => (CallbackLock, c)
    case EndHandling => (ClearActive, c)
    case Complete(_) => (Dispatching, c.(waitersLock := Nobody))
    case WakeUp => (Awake, c)
    case Raise(flag) => (pc, RaiseFlag(c, flag))
  }

  /** A broadcast wakes every sleeper. */
  function Woken(pcs: seq<Pc>): (woken: seq<Pc>)
    ensures |woken| == |pcs|
    ensures forall t | 0 <= t < |pcs| :: woken[t] == if pcs[t].Asleep? then Awake else pcs[t]
  {
    seq(|pcs|, t requires 0 <= t < |pcs| => if pcs[t].Asleep? then Awake else pcs[t])
  }

  /** Callbacks set the flags of the requests that they complete. */
  function Completing(completed: seq<bool>, waiters: set<nat>): (after: seq<bool>)
    ensures |after| == |completed|
    ensures forall t | 0 <= t < |completed| :: after[t] == (completed[t] || t in waiters)
  {
    seq(|completed|, t requires 0 <= t < |completed| => completed[t] || t in waiters)
  }

  predicate Enabled(s: State, t: nat, m: Move) {
    t < |s.pcs| == |s.completed| && Allowed(s.ctx, s.pcs[t], m)
  }

  predicate Broadcasts(pc: Pc, m: Move) {
    m.Run? && pc.Broadcast?
  }

  function Step(s: State, t: nat, m: Move): State
    requires Enabled(s, t, m)
  {
    var (pc, ctx) := Effect(s.ctx, t, s.pcs[t], s.completed[t], m);
    var others := if Broadcasts(s.pcs[t], m) then Woken(s.pcs) else s.pcs;
    var completed :=
      match m
      case Begin(renew) => s.completed[t := s.completed[t] && !renew]
      case Complete(waiters) => Completing(s.completed, waiters)
      case _ => s.completed;
    State(ctx, others[t := pc], completed)
  }

  predicate HoldsEvents(pc: Pc) {
    match pc
    case SetActive | CheckCompleted | Prepare | Polling | Dispatching | CallbackLock | Callback => true
    case ClearActive | ReleaseEvents | CloseActive | Closing | Retract => true
    case _ => false
  }

  predicate HoldsWaiters(pc: Pc) {
    match pc
    case Callback | Broadcast | BroadcastUnlock => true
    case WaiterCompleted | WaiterReadClose | WaiterReadActive | Retry | FallAsleep | WaiterUnlock => true
    case _ => false
  }

  predicate InActive(pc: Pc) {
    match pc
    case CheckCompleted | Prepare | Polling | Dispatching | CallbackLock | Callback | ClearActive | Closing | Retract => true
    case _ => false
  }

  predicate IsPending(pc: Pc) {
    match pc
    case CloseLock | CloseActive | Closing | Retract => true
    case _ => false
  }

  /** On the way to a broadcast, which it cannot miss. */
  predicate Owes(pc: Pc) {
    InActive(pc) || IsPending(pc) || pc.ReleaseEvents? || pc.BroadcastLock? || pc.Broadcast?
  }

  predicate Waits(pc: Pc) {
    pc.FallAsleep? || pc.Asleep?
  }

  predicate FoundUnset(pc: Pc) {
    pc.WaiterReadClose? || pc.WaiterReadActive? || pc.Retry? || pc.FallAsleep?
  }

  function Pending(pcs: seq<Pc>): set<nat> {
    set t | 0 <= t < |pcs| && IsPending(pcs[t])
  }

  predicate LocksHeld(s: State) {
    && |s.completed| == |s.pcs|
    && (forall t: nat | t < |s.pcs| :: HoldsEvents(s.pcs[t]) <==> s.ctx.eventsLock == Thread(t))
    && (forall t: nat | t < |s.pcs| :: HoldsWaiters(s.pcs[t]) <==> s.ctx.waitersLock == Thread(t))
    && (s.ctx.eventsLock.Thread? ==> s.ctx.eventsLock.id < |s.pcs|)
    && (s.ctx.waitersLock.Thread? ==> s.ctx.waitersLock.id < |s.pcs|)
  }

  predicate ActiveKnown(s: State) {
    && (forall t: nat | t < |s.pcs| :: InActive(s.pcs[t]) ==> s.ctx.handlerActive)
    && (s.ctx.handlerActive ==>
          s.ctx.eventsLock.Thread? && s.ctx.eventsLock.id < |s.pcs| && InActive(s.pcs[s.ctx.eventsLock.id]))
  }

  predicate FlagsKnown(s: State) {
    && s.ctx.deviceClose == |Pending(s.pcs)|
    && (DeviceClose in s.ctx.flags <==> s.ctx.deviceClose > 0)
    && (s.ctx.signalled <==> s.ctx.flags != {})
  }

  ghost predicate BroadcastOwed(s: State) {
    (exists t: nat :: t < |s.pcs| && Waits(s.pcs[t])) ==> exists u: nat :: u < |s.pcs| && Owes(s.pcs[u])
  }

  /** A thread that is about to sleep has found its flag unset, and nobody can have set it since. */
  predicate NotCompleted(s: State) {
    && |s.completed| == |s.pcs|
    && forall t: nat | t < |s.pcs| :: FoundUnset(s.pcs[t]) ==> !s.completed[t]
  }

  ghost predicate Inv(s: State) {
    LocksHeld(s) && ActiveKnown(s) && FlagsKnown(s) && BroadcastOwed(s) && NotCompleted(s)
  }

  /** What a step does to a lock, seen from the thread that makes it. */
  predicate LockMove(held: bool, holds: bool, before: Holder, after: Holder, t: nat) {
    || (held == holds && before == after)
    || (!held && holds && before == Nobody && after == Thread(t))
    || (held && !holds && after == Nobody)
  }

  lemma StatementEvents(c: Context, t: nat, pc: Pc, completed: bool)
    requires CanRun(c, pc)
    ensures var (next, after) := Statement(c, t, pc, completed);
      LockMove(HoldsEvents(pc), HoldsEvents(next), c.eventsLock, after.eventsLock, t)
  {
  }

  lemma StatementWaiters(c: Context, t: nat, pc: Pc, completed: bool)
    requires CanRun(c, pc)
    ensures var (next, after) := Statement(c, t, pc, completed);
      LockMove(HoldsWaiters(pc), HoldsWaiters(next), c.waitersLock, after.waitersLock, t)
  {
  }

  lemma OneHolder(s: State, t: nat, u: nat)
    requires LocksHeld(s) && t < |s.pcs| && u < |s.pcs|
    ensures HoldsEvents(s.pcs[t]) && HoldsEvents(s.pcs[u]) ==> t == u
    ensures HoldsWaiters(s.pcs[t]) && HoldsWaiters(s.pcs[u]) ==> t == u
  {
  }

  lemma LockMoves(c: Context, t: nat, pc: Pc, completed: bool, m: Move)
    requires Allowed(c, pc, m)
    ensures var (next, after) := Effect(c, t, pc, completed, m);
      && LockMove(HoldsEvents(pc), HoldsEvents(next), c.eventsLock, after.eventsLock, t)
      && LockMove(HoldsWaiters(pc), HoldsWaiters(next), c.waitersLock, after.waitersLock, t)
  {
    hide Statement;
    if m.Run? {
      StatementEvents(c, t, pc, completed);
      StatementWaiters(c, t, pc, completed);
    }
  }

  lemma LocksStay(s: State, t: nat, m: Move)
    requires LocksHeld(s) && Enabled(s, t, m)
    ensures LocksHeld(Step(s, t, m))
  {
    hide Effect, Allowed;
    LockMoves(s.ctx, t, s.pcs[t], s.completed[t], m);
  }

  /** What a step does to event_handler_active, seen from the thread that makes it. */
  predicate ActiveMove(pc: Pc, next: Pc, before: bool, after: bool) {
    || (InActive(pc) == InActive(next) && before == after)
    || (HoldsEvents(next) && !InActive(pc) && InActive(next) && after)
    || (InActive(pc) && !InActive(next) && !after)
  }

  lemma StatementActive(c: Context, t: nat, pc: Pc, completed: bool)
    requires CanRun(c, pc)
    ensures var (next, after) := Statement(c, t, pc, completed);
      ActiveMove(pc, next, c.handlerActive, after.handlerActive)
  {
  }

  lemma ActiveMoves(c: Context, t: nat, pc: Pc, completed: bool, m: Move)
    requires Allowed(c, pc, m)
    ensures var (next, after) := Effect(c, t, pc, completed, m);
      ActiveMove(pc, next, c.handlerActive, after.handlerActive)
  {
    hide Statement;
    if m.Run? {
      StatementActive(c, t, pc, completed);
    }
  }

  lemma ActiveStays(s: State, t: nat, m: Move)
    requires LocksHeld(s) && ActiveKnown(s) && Enabled(s, t, m)
    ensures ActiveKnown(Step(s, t, m))
  {
    hide Effect, Allowed;
    LockMoves(s.ctx, t, s.pcs[t], s.completed[t], m);
    ActiveMoves(s.ctx, t, s.pcs[t], s.completed[t], m);
  }

  predicate FlagsAgree(c: Context) {
    && c.deviceClose >= 0
    && (DeviceClose in c.flags <==> c.deviceClose > 0)
    && (c.signalled <==> c.flags != {})
  }

  function Count(pending: bool): nat {
    if pending then 1 else 0
  }

  lemma StatementFlags(c: Context, t: nat, pc: Pc, completed: bool)
    requires CanRun(c, pc) && FlagsAgree(c) && (IsPending(pc) ==> c.deviceClose > 0)
    ensures var (next, after) := Statement(c, t, pc, completed);
      FlagsAgree(after) && after.deviceClose == c.deviceClose + Count(IsPending(next)) - Count(IsPending(pc))
  {
  }

  lemma FlagMoves(c: Context, t: nat, pc: Pc, completed: bool, m: Move)
    requires Allowed(c, pc, m) && FlagsAgree(c) && (IsPending(pc) ==> c.deviceClose > 0)
    ensures var (next, after) := Effect(c, t, pc, completed, m);
      FlagsAgree(after) && after.deviceClose == c.deviceClose + Count(IsPending(next)) - Count(IsPending(pc))
  {
    hide Statement;
    if m.Run? {
      StatementFlags(c, t, pc, completed);
    }
  }

  lemma PendingIsPositive(pcs: seq<Pc>, t: nat)
    requires t < |pcs| && IsPending(pcs[t])
    ensures |Pending(pcs)| > 0
  {
    assert t in Pending(pcs);
  }

  lemma PendingMoves(before: seq<Pc>, after: seq<Pc>, t: nat)
    requires t < |before| == |after|
    requires forall u | 0 <= u < |before| && u != t :: IsPending(after[u]) == IsPending(before[u])
    ensures |Pending(after)| == |Pending(before)| + Count(IsPending(after[t])) - Count(IsPending(before[t]))
  {
    var others := set u | 0 <= u < |before| && u != t && IsPending(before[u]);
    assert Pending(before) == others + if IsPending(before[t]) then {t} else {};
    assert Pending(after) == others + if IsPending(after[t]) then {t} else {};
  }

  lemma FlagsStay(s: State, t: nat, m: Move)
    requires FlagsKnown(s) && Enabled(s, t, m)
    ensures FlagsKnown(Step(s, t, m))
  {
    hide Effect, Allowed, Pending;
    if IsPending(s.pcs[t]) {
      PendingIsPositive(s.pcs, t);
    }
    FlagMoves(s.ctx, t, s.pcs[t], s.completed[t], m);
    PendingMoves(s.pcs, Step(s, t, m).pcs, t);
  }

  /** A flag found unset stays unset until the thread sleeps: only callbacks set flags, under the waiters lock. */
  lemma NotCompletedStays(s: State, t: nat, m: Move)
    requires LocksHeld(s) && NotCompleted(s) && Enabled(s, t, m)
    ensures NotCompleted(Step(s, t, m))
  {
    hide Effect;
    FoundUnsetMoves(s.ctx, t, s.pcs[t], s.completed[t], m);
    if m.Complete? {
      forall u: nat | u < |s.pcs| && u != t ensures !FoundUnset(s.pcs[u]) {
        OneHolder(s, t, u);
      }
    }
  }

  lemma FoundUnsetMoves(c: Context, t: nat, pc: Pc, completed: bool, m: Move)
    requires Allowed(c, pc, m) && (FoundUnset(pc) ==> !completed)
    ensures var (next, after) := Effect(c, t, pc, completed, m); FoundUnset(next) ==> !completed && !m.Begin? && !m.Complete?
  {
  }

  predicate DebtMove(pc: Pc, next: Pc, m: Move, c: Context) {
    && (Waits(next) ==> !Broadcasts(pc, m))
    && (Waits(next) ==> Waits(pc) || c.handlerActive || c.deviceClose != 0)
    && (Owes(pc) ==> Owes(next) || Broadcasts(pc, m))
  }

  lemma StatementDebt(c: Context, t: nat, pc: Pc, completed: bool)
    requires CanRun(c, pc)
    ensures DebtMove(pc, Statement(c, t, pc, completed).0, Run, c)
  {
  }

  /** A thread goes to sleep only when a handler is active or a device is being closed; only a broadcast pays the debt. */
  lemma DebtMoves(c: Context, t: nat, pc: Pc, completed: bool, m: Move)
    requires Allowed(c, pc, m)
    ensures DebtMove(pc, Effect(c, t, pc, completed, m).0, m, c)
  {
    hide Statement;
    if m.Run? {
      StatementDebt(c, t, pc, completed);
    }
  }

  lemma SomeoneOwes(s: State)
    requires LocksHeld(s) && ActiveKnown(s) && FlagsKnown(s) && (s.ctx.handlerActive || s.ctx.deviceClose != 0)
    ensures exists u: nat :: u < |s.pcs| && Owes(s.pcs[u])
  {
  }

  lemma OwedStays(s: State, t: nat, m: Move)
    requires Inv(s) && Enabled(s, t, m)
    ensures BroadcastOwed(Step(s, t, m))
  {
    hide Effect;
    var after := Step(s, t, m);
    DebtMoves(s.ctx, t, s.pcs[t], s.completed[t], m);
    if Broadcasts(s.pcs[t], m) {
      forall u: nat | u < |after.pcs| ensures !Waits(after.pcs[u]) {
        if u != t {
          OneHolder(s, t, u);
        }
      }
    } else if w: nat :| w < |after.pcs| && Waits(after.pcs[w]) {
      if Waits(s.pcs[w]) {
        assert exists u: nat :: u < |s.pcs| && Owes(s.pcs[u]);
      } else {
        SomeoneOwes(s);
      }
      var u: nat :| u < |s.pcs| && Owes(s.pcs[u]);
      assert Owes(after.pcs[u]);
    }
  }

  lemma InvStays(s: State, t: nat, m: Move)
    requires Inv(s) && Enabled(s, t, m)
    ensures Inv(Step(s, t, m))
  {
    hide Step, Enabled, LocksHeld, ActiveKnown, FlagsKnown, BroadcastOwed, NotCompleted;
    LocksStay(s, t, m);
    ActiveStays(s, t, m);
    FlagsStay(s, t, m);
    OwedStays(s, t, m);
    NotCompletedStays(s, t, m);
  }

  /** A fresh context. */
  predicate Initial(s: State) {
    && s.ctx == Context(Nobody, Nobody, false, 0, {}, false)
    && |s.completed| == |s.pcs|
    && forall t | 0 <= t < |s.pcs| :: s.pcs[t].Idle?
  }

  /** An interleaving: which thread makes which move. */
  type Schedule = seq<(nat, Move)>

  predicate IsRun(s: State, run: Schedule)
    decreases |run|
  {
    run == [] || (Enabled(s, run[0].0, run[0].1) && IsRun(Step(s, run[0].0, run[0].1), run[1..]))
  }

  function After(s: State, run: Schedule): State
    requires IsRun(s, run)
    decreases |run|
  {
    if run == [] then s else After(Step(s, run[0].0, run[0].1), run[1..])
  }

  lemma {:induction false} RunKeepsInv(s: State, run: Schedule)
    requires Inv(s) && IsRun(s, run)
    ensures Inv(After(s, run))
    decreases |run|
  {
    hide Inv, Step, Enabled;
    if run != [] {
      InvStays(s, run[0].0, run[0].1);
      RunKeepsInv(Step(s, run[0].0, run[0].1), run[1..]);
    }
  }

  lemma InitialInv(s: State)
    requires Initial(s)
    ensures Inv(s)
  {
  }

  /** In every reachable state, at most one thread polls, handles an event, or closes a device. */
  lemma MutualExclusion(s: State, run: Schedule, t: nat, u: nat)
    requires Initial(s) && IsRun(s, run)
    requires t < |After(s, run).pcs| && u < |After(s, run).pcs|
    requires HoldsEvents(After(s, run).pcs[t]) && HoldsEvents(After(s, run).pcs[u])
    ensures t == u
  {
    hide After, IsRun;
    InitialInv(s);
    RunKeepsInv(s, run);
    OneHolder(After(s, run), t, u);
  }

  /**
   * No wakeup is lost: in every reachable state, whenever a thread sleeps or is about to, another one is on its way to
   * a broadcast. That includes a sleeper whose request has been completed, and none goes to sleep on such a request.
   */
  lemma NoLostWakeup(s: State, run: Schedule, w: nat)
    requires Initial(s) && IsRun(s, run)
    requires w < |After(s, run).pcs| && Waits(After(s, run).pcs[w])
    ensures exists u: nat :: u < |After(s, run).pcs| && u != w && Owes(After(s, run).pcs[u])
    ensures |After(s, run).completed| == |After(s, run).pcs|
    ensures After(s, run).pcs[w].FallAsleep? ==> !After(s, run).completed[w]
  {
    hide After, IsRun;
    InitialInv(s);
    RunKeepsInv(s, run);
    var final := After(s, run);
    var u: nat :| u < |final.pcs| && Owes(final.pcs[u]);
    assert u != w;
  }

  /** A broadcast leaves nobody asleep, nor about to be. */
  lemma BroadcastWakesAll(s: State, t: nat, u: nat)
    requires Inv(s) && Enabled(s, t, Run) && s.pcs[t].Broadcast? && u < |s.pcs|
    ensures !Waits(Step(s, t, Run).pcs[u])
  {
  }

  /** device_close counts the closers at work, and while there is one the event wakes the poller up. */
  lemma ClosersAreCounted(s: State, run: Schedule)
    requires Initial(s) && IsRun(s, run)
    ensures After(s, run).ctx.deviceClose == |Pending(After(s, run).pcs)|
    ensures After(s, run).ctx.deviceClose > 0 ==> After(s, run).ctx.signalled
  {
    hide After, IsRun;
    InitialInv(s);
    RunKeepsInv(s, run);
  }

  /** A move that needs nobody else, no device and no clock. */
  predicate Own(m: Move) {
    m.Run? || m.EndHandling? || m.Complete?
  }

  predicate IsQuiet(pc: Pc) {
    pc.Idle? || pc.Asleep? || pc.Polling?
  }

  ghost predicate SomeoneMoves(s: State) {
    exists t: nat, m: Move :: Enabled(s, t, m) && Own(m)
  }

  lemma HolderMoves(s: State, t: nat)
    requires LocksHeld(s) && t < |s.pcs| && (s.ctx.waitersLock == Nobody || s.ctx.waitersLock == Thread(t))
    requires !IsQuiet(s.pcs[t]) && !s.pcs[t].CloseLock?
    ensures SomeoneMoves(s)
  {
    var m := if s.pcs[t].Callback? then Complete({}) else if s.pcs[t].Dispatching? then EndHandling else Run;
    assert HoldsWaiters(s.pcs[t]) <==> s.ctx.waitersLock == Thread(t);
    assert Enabled(s, t, m);
  }

  /** A closer is never stuck behind the poller or the locks. */
  lemma CloserMoves(s: State, t: nat)
    requires LocksHeld(s) && FlagsKnown(s) && t < |s.pcs| && s.pcs[t].CloseLock? && s.ctx.waitersLock == Nobody
    ensures SomeoneMoves(s)
  {
    PendingIsPositive(s.pcs, t);
    if s.ctx.eventsLock == Nobody {
      assert Enabled(s, t, Run);
    } else {
      var v := s.ctx.eventsLock.id;
      if s.pcs[v].Polling? {
        assert Enabled(s, v, Run);
      } else {
        HolderMoves(s, v);
      }
    }
  }

  /**
   * No deadlock: in every reachable state some thread can move on its own, or else every thread is idle, asleep or
   * polling, no event is signalled, no device is being closed, and whoever sleeps has a poller to wake it up.
   */
  lemma NoDeadlock(s: State, run: Schedule)
    requires Initial(s) && IsRun(s, run)
    ensures var now := After(s, run);
      || SomeoneMoves(now)
      || (&& (forall t | 0 <= t < |now.pcs| :: IsQuiet(now.pcs[t]))
          && (forall t | 0 <= t < |now.pcs| && now.pcs[t].Asleep? :: exists u | 0 <= u < |now.pcs| :: now.pcs[u].Polling?)
          && now.ctx.deviceClose == 0
          && ((exists t | 0 <= t < |now.pcs| :: now.pcs[t].Polling?) ==> !now.ctx.signalled))
  {
    hide After, IsRun, Enabled;
    InitialInv(s);
    RunKeepsInv(s, run);
    var now := After(s, run);
    if now.ctx.waitersLock != Nobody {
      HolderMoves(now, now.ctx.waitersLock.id);
    } else if t: nat :| t < |now.pcs| && !IsQuiet(now.pcs[t]) {
      if now.pcs[t].CloseLock? {
        CloserMoves(now, t);
      } else {
        HolderMoves(now, t);
      }
    } else {
      QuietState(now);
    }
  }

  lemma QuietState(s: State)
    requires Inv(s) && forall t: nat | t < |s.pcs| :: IsQuiet(s.pcs[t])
    ensures forall t | 0 <= t < |s.pcs| && s.pcs[t].Asleep? :: exists u | 0 <= u < |s.pcs| :: s.pcs[u].Polling?
    ensures s.ctx.deviceClose == 0
    ensures SomeoneMoves(s) || ((exists t | 0 <= t < |s.pcs| :: s.pcs[t].Polling?) ==> !s.ctx.signalled)
  {
    assert Pending(s.pcs) == {};
    if t :| 0 <= t < |s.pcs| && s.pcs[t].Polling? && s.ctx.signalled {
      assert Enabled(s, t, Run);
    }
    forall t: nat | t < |s.pcs| && s.pcs[t].Asleep? ensures exists u | 0 <= u < |s.pcs| :: s.pcs[u].Polling? {
      assert Waits(s.pcs[t]);
      var u: nat :| u < |s.pcs| && Owes(s.pcs[u]);
      assert s.pcs[u].Polling?;
    }
  }

  /** A thread that found no closer and is about to try the events lock. */
  predicate HasPassed(s: State, t: nat) {
    t < |s.pcs| && s.pcs[t].TryLock?
  }

  /** Whether a closer is at work all along a run. */
  predicate CloserAtWork(s: State, run: Schedule)
    requires IsRun(s, run)
    decreases |run|
  {
    && s.ctx.deviceClose > 0
    && (run == [] || CloserAtWork(Step(s, run[0].0, run[0].1), run[1..]))
  }

  /** Whether a step makes thread t the event handler. */
  predicate Enters(s: State, mover: nat, m: Move, t: nat)
    requires Enabled(s, mover, m)
  {
    mover == t && s.pcs[t].TryLock? && Step(s, mover, m).pcs[t].SetActive?
  }

  /** How often thread t becomes the event handler in a run. */
  function EntriesOf(s: State, run: Schedule, t: nat): nat
    requires IsRun(s, run)
    decreases |run|
  {
    if run == [] then 0
    else Count(Enters(s, run[0].0, run[0].1, t)) + EntriesOf(Step(s, run[0].0, run[0].1), run[1..], t)
  }

  lemma NobodyPasses(c: Context, t: nat, pc: Pc, completed: bool, m: Move)
    requires Allowed(c, pc, m) && c.deviceClose > 0
    ensures Effect(c, t, pc, completed, m).0.TryLock? ==> pc.TryLock?
  {
  }

  lemma StepEntries(s: State, mover: nat, m: Move, t: nat)
    requires Enabled(s, mover, m) && s.ctx.deviceClose > 0
    ensures Count(Enters(s, mover, m, t)) + Count(HasPassed(Step(s, mover, m), t)) <= Count(HasPassed(s, t))
  {
    hide Effect;
    NobodyPasses(s.ctx, mover, s.pcs[mover], s.completed[mover], m);
  }

  /**
   * Closers have priority: while one is at work, no thread becomes the event handler but those that had already
   * found device_close zero when it announced itself, each at most once.
   */
  lemma {:induction false} CloserPriority(s: State, run: Schedule, t: nat)
    requires IsRun(s, run) && CloserAtWork(s, run)
    ensures EntriesOf(s, run, t) + Count(HasPassed(After(s, run), t)) <= Count(HasPassed(s, t))
    decreases |run|
  {
    hide Step, Enabled, Enters, HasPassed;
    if run != [] {
      StepEntries(s, run[0].0, run[0].1, t);
      CloserPriority(Step(s, run[0].0, run[0].1), run[1..], t);
    }
  }
}
