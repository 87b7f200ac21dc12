/** The per-CPU interrupt nesting counter behind both locks, step by step.

    `push_off` and `pop_off` are cut at every point where an interrupt could arrive.  A CPU
    runs one thread and, above it, the interrupt handlers that have preempted it; handlers
    use the same locks and the same counter.  An attempt counts from its `push_off` until it
    becomes a guard or fails, a guard until it is dropped. */
module InterruptNesting {

  datatype Undo = FailedAttempt | GuardDrop | Downgrade

  /** Where a context is inside `push_off` or `pop_off`. */
  datatype Pc =
    | Ready
    | PushRead(was: bool)       // `intr_get` done
    | PushMasked(was: bool)     // `intr_off` done
    | PushBorrowed(was: bool)   // the CPU cell is borrowed
    | PopBorrowed(undo: Undo)   // the CPU cell is borrowed, the check is next
    | PopEnable                 // the cell is released, `intr_on` is next

  /** `base` records the interrupt flag the context had when it last held nothing. */
  datatype Context = Context(pc: Pc, attempts: nat, guards: nat, base: bool)

  datatype Cpu = Cpu(
    intr: bool,            // the hardware interrupt flag
    noff: int,
    saved: bool,           // `interrupt_enable`
    borrowed: bool,        // the `RefCell` is mutably borrowed
    below: seq<Context>,   // interrupted contexts: the thread, then handlers
    running: Context,
    downgrades: nat,       // history: downgrades that have popped
    panicked: bool)

  datatype Step =
    | PushGet | PushMask | PushBorrow | PushUpdate
    | Acquired                  // the attempt in progress becomes a guard
    | PopBorrow(undo: Undo) | PopUpdate | PopOn
    | Interrupt | Return        // a handler starts, or returns with everything released
    | SetFlag(on: bool)         // code that holds nothing switches interrupts

  function Held(c: Context): nat {
    c.attempts + c.guards
  }

  predicate CanUndo(c: Context, undo: Undo) {
    match undo
    case FailedAttempt => c.attempts > 0
    case GuardDrop => c.guards > 0
    case Downgrade => c.guards > 0
  }

  predicate Enabled(s: Cpu, step: Step) {
    && !s.panicked
    && var c := s.running;
       match step
       case PushGet => c.pc.Ready?
       case PushMask => c.pc.PushRead?
       case PushBorrow => c.pc.PushMasked?
       case PushUpdate => c.pc.PushBorrowed?
       case Acquired => c.pc.Ready? && c.attempts > 0
       case PopBorrow(undo) => c.pc.Ready? && CanUndo(c, undo)
       case PopUpdate => c.pc.PopBorrowed? && CanUndo(c, c.pc.undo)
       case PopOn => c.pc.PopEnable?
       case Interrupt => s.intr
       case Return => s.below != [] && c.pc.Ready? && Held(c) == 0
       case SetFlag(_) => c.pc.Ready? && Held(c) == 0
  }

  function Undone(c: Context, undo: Undo): Context
    requires CanUndo(c, undo)
  {
    match undo
    case FailedAttempt => c.(attempts := c.attempts - 1)
    case GuardDrop => c.(guards := c.guards - 1)
    case Downgrade => c
  }

  function Apply(s: Cpu, step: Step): (s': Cpu)
    requires Enabled(s, step)
  {
    var c := s.running;
    match step
    case PushGet => s.(running := c.(pc := PushRead(s.intr)))
    case PushMask => s.(running := c.(pc := PushMasked(c.pc.was))).(intr := false)
    case PushBorrow =>
      if s.borrowed then s.(panicked := true)
      else s.(running := c.(pc := PushBorrowed(c.pc.was))).(borrowed := true)
    case PushUpdate =>
      s.(running := c.(pc := Ready, attempts := c.attempts + 1)).(
        saved := if s.noff == 0 then c.pc.was else s.saved, noff := s.noff + 1, borrowed := false)
    case Acquired => s.(running := c.(attempts := c.attempts - 1, guards := c.guards + 1))
    case PopBorrow(undo) =>
      if s.borrowed then s.(panicked := true)
      else s.(running := c.(pc := PopBorrowed(undo))).(borrowed := true)
    case PopUpdate =>
      if s.intr || s.noff < 1 then s.(panicked := true)
      else
        var enable := s.noff == 1 && s.saved;
        s.(running := Undone(c, c.pc.undo).(pc := if enable then PopEnable else Ready)).(
          noff := s.noff - 1, borrowed := false,
          downgrades := s.downgrades + if c.pc.undo == Downgrade then 1 else 0)
    case PopOn => s.(running := c.(pc := Ready)).(intr := true)
    case Interrupt => s.(below := s.below + [s.running], running := Context(Ready, 0, 0, false), intr := false)
    case Return => s.(below := s.below[..|s.below| - 1], running := s.below[|s.below| - 1], intr := true)
    case SetFlag(on) => s.(running := c.(base := on)).(intr := on)
  }

  function Boot(on: bool): Cpu {
    Cpu(on, 0, false, false, [], Context(Ready, 0, 0, on), 0, false)
  }

  ghost predicate IsRun(s: Cpu, steps: seq<Step>)
    decreases |steps|
  {
    steps == [] || (Enabled(s, steps[0]) && IsRun(Apply(s, steps[0]), steps[1..]))
  }

  ghost function After(s: Cpu, steps: seq<Step>): (s': Cpu)
    requires IsRun(s, steps)
    decreases |steps|
  {
    if steps == [] then s else After(Apply(s, steps[0]), steps[1..])
  }

  // ----- the invariant of runs without a downgrade

  /** An interrupted context holds nothing and had interrupts on. */
  predicate Suspended(c: Context) {
    Held(c) == 0 && c.base && (c.pc == Ready || c.pc == PushRead(true))
  }

  predicate RunningOk(s: Cpu, c: Context) {
    && s.noff == Held(c)
    && (Held(c) > 0 ==> !s.intr && s.saved == c.base)
    && (s.borrowed <==> c.pc.PushBorrowed? || c.pc.PopBorrowed?)
    && match c.pc
       case Ready => Held(c) == 0 ==> s.intr == c.base
       case PushRead(was) => s.intr == was && (Held(c) == 0 ==> was == c.base)
       case PushMasked(was) => !s.intr && (Held(c) == 0 ==> was == c.base)
       case PushBorrowed(was) => !s.intr && (Held(c) == 0 ==> was == c.base)
       case PopBorrowed(undo) => CanUndo(c, undo) && undo != Downgrade
       case PopEnable => Held(c) == 0 && !s.intr && c.base
  }

  predicate Inv(s: Cpu) {
    && !s.panicked && s.downgrades == 0
    && (forall i :: 0 <= i < |s.below| ==> Suspended(s.below[i]))
    && RunningOk(s, s.running)
  }

  predicate NoDowngrade(step: Step) {
    step != PopBorrow(Downgrade)
  }

  /** A step of the running context itself. */
  lemma LocalStep(s: Cpu, step: Step)
    requires Inv(s) && Enabled(s, step) && NoDowngrade(step) && !step.Interrupt? && !step.Return?
    ensures var s' := Apply(s, step);
            && !s'.panicked && s'.downgrades == 0
            && s'.below == s.below
            && RunningOk(s', s'.running)
  {
    match step {
      case PushGet =>
      case PushMask =>
      case PushBorrow =>
      case PushUpdate =>
      case Acquired =>
      case PopBorrow(undo) =>
      case PopUpdate =>
      case PopOn =>
      case SetFlag(on) =>
    }
  }

  /** A context that holds nothing and is inside neither function. */
  lemma IdleOk(s: Cpu, c: Context)
    requires c == Context(Ready, 0, 0, s.intr)
    requires s.noff == 0 && !s.borrowed
    ensures RunningOk(s, c)
  {
  }

  /** Where interrupts are on, the running context holds nothing. */
  lemma InterruptibleHoldsNothing(s: Cpu, c: Context)
    requires RunningOk(s, c) && s.intr
    ensures Suspended(c) && s.noff == 0 && !s.borrowed
  {
  }

  lemma InterruptStep(s: Cpu)
    requires Inv(s) && Enabled(s, Interrupt)
    ensures Inv(Apply(s, Interrupt))
  {
    hide RunningOk, Suspended, Held;
    InterruptibleHoldsNothing(s, s.running);
    var s' := Apply(s, Interrupt);
    IdleOk(s', s'.running);
  }

  lemma ReturnStep(s: Cpu)
    requires Inv(s) && Enabled(s, Return)
    ensures Inv(Apply(s, Return))
  {
    assert Suspended(s.below[|s.below| - 1]);
  }

  /** Every step keeps the invariant, an interrupt at any point where interrupts are on
      included. */
  lemma StepKeepsInv(s: Cpu, step: Step)
    requires Inv(s) && Enabled(s, step) && NoDowngrade(step)
    ensures Inv(Apply(s, step))
  {
    hide Apply, RunningOk, Suspended, Enabled;
    if step.Interrupt? {
      InterruptStep(s);
    } else if step.Return? {
      ReturnStep(s);
    } else {
      LocalStep(s, step);
    }
  }

  lemma {:induction false} RunKeepsInv(s: Cpu, steps: seq<Step>)
    requires Inv(s) && IsRun(s, steps)
    requires forall i :: 0 <= i < |steps| ==> NoDowngrade(steps[i])
    ensures Inv(After(s, steps))
    decreases |steps|
  {
    if steps != [] {
      StepKeepsInv(s, steps[0]);
      RunKeepsInv(Apply(s, steps[0]), steps[1..]);
    }
  }

  // ----- what the counter promises

  function HeldBy(stack: seq<Context>): nat {
    if stack == [] then 0 else HeldBy(stack[..|stack| - 1]) + Held(stack[|stack| - 1])
  }

  /** Guards and attempts of everything on this CPU. */
  function AllHeld(s: Cpu): nat {
    HeldBy(s.below) + Held(s.running)
  }

  lemma {:induction false} NothingHeld(stack: seq<Context>)
    requires forall i :: 0 <= i < |stack| ==> Suspended(stack[i])
    ensures HeldBy(stack) == 0
  {
    if stack != [] {
      NothingHeld(stack[..|stack| - 1]);
    }
  }

  predicate Nested(s: Cpu) {
    && !s.panicked
    && s.noff == AllHeld(s)
    && (s.noff > 0 ==> !s.intr)
    && (s.borrowed ==> !s.intr)
    && (s.running.pc.Ready? && Held(s.running) == 0 ==> s.intr == s.running.base)
  }

  lemma InvNested(s: Cpu)
    requires Inv(s)
    ensures Nested(s)
  {
    NothingHeld(s.below);
  }

  lemma BootInv(on: bool)
    ensures Inv(Boot(on))
  {
    hide RunningOk, Suspended;
    IdleOk(Boot(on), Context(Ready, 0, 0, on));
  }

  /** In every run without a downgrade: `noff` is the number of guards and attempts on this
      CPU, interrupts are off while it is positive, nothing panics, the CPU cell is never
      borrowed with interrupts on, and code that holds nothing has its own flag back. */
  lemma NestingDepth(on: bool, steps: seq<Step>)
    requires IsRun(Boot(on), steps)
    requires forall i :: 0 <= i < |steps| ==> NoDowngrade(steps[i])
    ensures Nested(After(Boot(on), steps))
  {
    hide *;
    BootInv(on);
    RunKeepsInv(Boot(on), steps);
    InvNested(After(Boot(on), steps));
  }

  function ThreadBase(s: Cpu): bool {
    if s.below == [] then s.running.base else s.below[0].base
  }

  /** The thread is running, outside both functions, and holds nothing. */
  predicate ThreadIdle(s: Cpu) {
    s.below == [] && s.running.pc.Ready? && Held(s.running) == 0
  }

  /** The thread itself does not switch interrupts during the run. */
  ghost predicate ThreadKeepsFlag(s: Cpu, steps: seq<Step>)
    requires IsRun(s, steps)
    decreases |steps|
  {
    steps != [] ==>
      && (steps[0].SetFlag? ==> s.below != [])
      && ThreadKeepsFlag(Apply(s, steps[0]), steps[1..])
  }

  lemma StepKeepsThreadBase(s: Cpu, step: Step)
    requires Enabled(s, step) && (step.SetFlag? ==> s.below != [])
    ensures ThreadBase(Apply(s, step)) == ThreadBase(s)
  {
  }

  lemma {:induction false} ThreadBaseKept(s: Cpu, steps: seq<Step>)
    requires IsRun(s, steps) && ThreadKeepsFlag(s, steps)
    ensures ThreadBase(After(s, steps)) == ThreadBase(s)
    decreases |steps|
  {
    if steps != [] {
      hide Apply, Enabled;
      StepKeepsThreadBase(s, steps[0]);
      ThreadBaseKept(Apply(s, steps[0]), steps[1..]);
    }
  }

  /** Matched calls restore the interrupt state: a thread that holds nothing now and held
      nothing then sees the flag it had, whatever it locked and whatever handlers ran. */
  lemma MatchedCallsRestoreFlag(s: Cpu, steps: seq<Step>)
    requires Inv(s) && IsRun(s, steps) && ThreadKeepsFlag(s, steps)
    requires forall i :: 0 <= i < |steps| ==> NoDowngrade(steps[i])
    requires ThreadIdle(s) && ThreadIdle(After(s, steps))
    ensures After(s, steps).intr == s.intr && After(s, steps).noff == 0
  {
    RunKeepsInv(s, steps);
    ThreadBaseKept(s, steps);
  }

  // ----- every CPU has its own counter

  ghost predicate IsSystemRun(cpus: map<nat, Cpu>, steps: seq<(nat, Step)>)
    decreases |steps|
  {
    steps == [] ||
    (var (id, step) := steps[0];
     && id in cpus && Enabled(cpus[id], step) && NoDowngrade(step)
     && IsSystemRun(cpus[id := Apply(cpus[id], step)], steps[1..]))
  }

  ghost function SystemAfter(cpus: map<nat, Cpu>, steps: seq<(nat, Step)>): map<nat, Cpu>
    requires IsSystemRun(cpus, steps)
    decreases |steps|
  {
    if steps == [] then cpus else
      var (id, step) := steps[0];
      SystemAfter(cpus[id := Apply(cpus[id], step)], steps[1..])
  }

  lemma {:induction false} SystemRunKeepsInv(cpus: map<nat, Cpu>, steps: seq<(nat, Step)>)
    requires IsSystemRun(cpus, steps) && forall id :: id in cpus ==> Inv(cpus[id])
    ensures forall id :: id in SystemAfter(cpus, steps) ==> Inv(SystemAfter(cpus, steps)[id])
    decreases |steps|
  {
    if steps != [] {
      var (id, step) := steps[0];
      StepKeepsInv(cpus[id], step);
      SystemRunKeepsInv(cpus[id := Apply(cpus[id], step)], steps[1..]);
    }
  }

  // ----- what a downgrade costs

  /** All runs, downgrades included: each downgrade has popped once too often. */
  predicate Balance(s: Cpu) {
    s.noff + s.downgrades == AllHeld(s) && s.noff >= 0
  }

  lemma LocalBalance(s: Cpu, step: Step)
    requires Balance(s) && Enabled(s, step) && !step.Interrupt? && !step.Return?
    ensures Balance(Apply(s, step))
  {
    hide HeldBy;
  }

  lemma HeldBySnoc(stack: seq<Context>, c: Context)
    ensures HeldBy(stack + [c]) == HeldBy(stack) + Held(c)
  {
    assert (stack + [c])[..|stack|] == stack;
  }

  lemma InterruptBalance(s: Cpu)
    requires Balance(s) && Enabled(s, Interrupt)
    ensures Balance(Apply(s, Interrupt))
  {
    hide HeldBy, Held;
    HeldBySnoc(s.below, s.running);
    assert Held(Context(Ready, 0, 0, false)) == 0 by { NewHandlerHoldsNothing(); }
  }

  lemma NewHandlerHoldsNothing()
    ensures Held(Context(Ready, 0, 0, false)) == 0
  {
  }

  lemma ReturnBalance(s: Cpu)
    requires Balance(s) && Enabled(s, Return)
    ensures Balance(Apply(s, Return))
  {
    hide HeldBy;
    var n := |s.below| - 1;
    assert s.below == s.below[..n] + [s.below[n]];
    HeldBySnoc(s.below[..n], s.below[n]);
  }

  lemma StepKeepsBalance(s: Cpu, step: Step)
    requires Balance(s) && Enabled(s, step)
    ensures Balance(Apply(s, step))
  {
    hide *;
    if step.Interrupt? {
      InterruptBalance(s);
    } else if step.Return? {
      ReturnBalance(s);
    } else {
      LocalBalance(s, step);
    }
  }

  lemma {:induction false} RunKeepsBalance(s: Cpu, steps: seq<Step>)
    requires Balance(s) && IsRun(s, steps)
    ensures Balance(After(s, steps))
    decreases |steps|
  {
    if steps != [] {
      StepKeepsBalance(s, steps[0]);
      RunKeepsBalance(Apply(s, steps[0]), steps[1..]);
    }
  }

  lemma BootBalance(on: bool)
    ensures Balance(Boot(on))
  {
  }

  predicate DowngradesUnbalance(s: Cpu) {
    && (s.noff == AllHeld(s) <==> s.downgrades == 0)
    && (AllHeld(s) == 0 ==> s.downgrades == 0)
  }

  lemma Unbalanced(s: Cpu)
    requires Balance(s)
    ensures DowngradesUnbalance(s)
  {
  }

  /** `noff` counts the guards and attempts exactly when no downgrade has happened, and a run
      that contains one can never release everything: some `pop_off` panics first. */
  lemma DowngradeNeverBalances(on: bool, steps: seq<Step>)
    requires IsRun(Boot(on), steps)
    ensures DowngradesUnbalance(After(Boot(on), steps))
  {
    hide *;
    BootBalance(on);
    RunKeepsBalance(Boot(on), steps);
    Unbalanced(After(Boot(on), steps));
  }

  lemma {:induction false} RunSnoc(s: Cpu, steps: seq<Step>, step: Step)
    requires IsRun(s, steps) && Enabled(After(s, steps), step)
    ensures IsRun(s, steps + [step]) && After(s, steps + [step]) == Apply(After(s, steps), step)
    decreases |steps|
  {
    hide Apply, Enabled;
    if steps == [] {
      assert [step][1..] == [];
    } else {
      assert (steps + [step])[1..] == steps[1..] + [step];
      RunSnoc(Apply(s, steps[0]), steps[1..], step);
    }
  }

  const ATTEMPTED := [PushGet, PushMask, PushBorrow, PushUpdate]
  const LOCKED := ATTEMPTED + [Acquired]
  const DOWNGRADED := LOCKED + [PopBorrow(Downgrade)] + [PopUpdate]

  /** The drop that follows; where interrupts were on, the downgrade has enabled them first. */
  function Dropped(on: bool): seq<Step> {
    DOWNGRADED + (if on then [PopOn] else []) + [PopBorrow(GuardDrop)] + [PopUpdate]
  }

  /** One more level: interrupts are off, and the outermost level remembers what they were. */
  function Deeper(s: Cpu, c: Context): Cpu {
    s.(intr := false, noff := s.noff + 1, saved := if s.noff == 0 then s.intr else s.saved, running := c)
  }

  lemma AttemptFrom(s: Cpu)
    requires Inv(s) && s.running.pc.Ready?
    ensures IsRun(s, ATTEMPTED)
    ensures After(s, ATTEMPTED) == Deeper(s, s.running.(attempts := s.running.attempts + 1))
  {
    hide IsRun, After;
    EmptyRun(s);
    RunSnoc(s, [], PushGet);
    RunSnoc(s, [] + [PushGet], PushMask);
    RunSnoc(s, [] + [PushGet] + [PushMask], PushBorrow);
    RunSnoc(s, [] + [PushGet] + [PushMask] + [PushBorrow], PushUpdate);
    assert ATTEMPTED == [] + [PushGet] + [PushMask] + [PushBorrow] + [PushUpdate];
  }

  /** Undisturbed, an acquisition reaches its guard from every state, however deep. */
  lemma LockFrom(s: Cpu)
    requires Inv(s) && s.running.pc.Ready?
    ensures IsRun(s, LOCKED)
    ensures After(s, LOCKED) == Deeper(s, s.running.(guards := s.running.guards + 1))
  {
    hide IsRun, After;
    AttemptFrom(s);
    RunSnoc(s, ATTEMPTED, Acquired);
  }

  /** The steps of the `pop_off` that ends one level above `s`. */
  function Popped(s: Cpu, undo: Undo): seq<Step> {
    [] + [PopBorrow(undo)] + [PopUpdate] + if s.noff == 0 && s.intr then [PopOn] else []
  }

  lemma PopFrom(s: Cpu, c: Context, undo: Undo)
    requires Inv(s) && s.running.pc.Ready?
    requires undo != Downgrade && c.pc.Ready? && CanUndo(c, undo) && Undone(c, undo) == s.running
    ensures IsRun(Deeper(s, c), Popped(s, undo))
    ensures After(Deeper(s, c), Popped(s, undo)) == s.(saved := Deeper(s, c).saved)
  {
    hide IsRun, After;
    var d := Deeper(s, c);
    EmptyRun(d);
    RunSnoc(d, [], PopBorrow(undo));
    RunSnoc(d, [] + [PopBorrow(undo)], PopUpdate);
    if s.noff == 0 && s.intr {
      RunSnoc(d, [] + [PopBorrow(undo)] + [PopUpdate], PopOn);
    } else {
      assert Popped(s, undo) == [] + [PopBorrow(undo)] + [PopUpdate];
    }
  }

  /** Dropping a guard and giving up an attempt both undo the `push_off` completely: only the
      memory of the outermost level differs. */
  lemma PopUndoesPush(s: Cpu)
    requires Inv(s) && s.running.pc.Ready?
    ensures IsRun(s, LOCKED) && IsRun(s, ATTEMPTED)
    ensures var locked := After(s, LOCKED);
            && IsRun(locked, Popped(s, GuardDrop))
            && After(locked, Popped(s, GuardDrop)) == s.(saved := if s.noff == 0 then s.intr else s.saved)
    ensures var attempted := After(s, ATTEMPTED);
            && IsRun(attempted, Popped(s, FailedAttempt))
            && After(attempted, Popped(s, FailedAttempt)) == s.(saved := if s.noff == 0 then s.intr else s.saved)
  {
    hide IsRun, After, Inv;
    var c := s.running;
    LockFrom(s);
    AttemptFrom(s);
    PopFrom(s, c.(guards := c.guards + 1), GuardDrop);
    PopFrom(s, c.(attempts := c.attempts + 1), FailedAttempt);
  }

  /** A handler that returns at once leaves no trace. */
  lemma ReturnUndoesInterrupt(s: Cpu)
    requires Enabled(s, Interrupt)
    ensures var s' := Apply(s, Interrupt);
            Enabled(s', Return) && Apply(s', Return) == s
  {
    var s' := Apply(s, Interrupt);
    assert s'.below[..|s.below|] == s.below;
  }

  /** Taking a lock on a fresh CPU. */
  lemma LockOnce(on: bool)
    ensures IsRun(Boot(on), LOCKED)
    ensures After(Boot(on), LOCKED) == Cpu(false, 1, on, false, [], Context(Ready, 0, 1, on), 0, false)
  {
    hide IsRun, After, Inv;
    BootInv(on);
    LockFrom(Boot(on));
  }

  lemma EmptyRun(s: Cpu)
    ensures IsRun(s, []) && After(s, []) == s
  {
  }

  /** Taking a lock on a fresh CPU and downgrading the guard. */
  lemma LockAndDowngrade(on: bool)
    ensures IsRun(Boot(on), DOWNGRADED)
    ensures After(Boot(on), DOWNGRADED)
         == Cpu(false, 0, on, false, [], Context(if on then PopEnable else Ready, 0, 1, on), 1, false)
  {
    hide IsRun, After;
    LockOnce(on);
    RunSnoc(Boot(on), LOCKED, PopBorrow(Downgrade));
    RunSnoc(Boot(on), LOCKED + [PopBorrow(Downgrade)], PopUpdate);
  }

  /** One write guard, downgraded and then dropped, panics in `pop_off`: with interrupts on at
      the start because they are on again, otherwise because `noff` is zero. */
  lemma DowngradeThenDropPanics(on: bool)
    ensures IsRun(Boot(on), DOWNGRADED) && !After(Boot(on), DOWNGRADED).panicked
    ensures IsRun(Boot(on), Dropped(on)) && After(Boot(on), Dropped(on)).panicked
  {
    hide IsRun, After;
    LockAndDowngrade(on);
    var enabled := DOWNGRADED + if on then [PopOn] else [];
    if on {
      RunSnoc(Boot(on), DOWNGRADED, PopOn);
    } else {
      assert enabled == DOWNGRADED;
    }
    RunSnoc(Boot(on), enabled, PopBorrow(GuardDrop));
    RunSnoc(Boot(on), enabled + [PopBorrow(GuardDrop)], PopUpdate);
  }
}
