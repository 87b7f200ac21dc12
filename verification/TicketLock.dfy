/** The ticket mutex as a step system.

    Every atomic access to `next_ticket` or `next_serving` is one step.  An acquisition is one
    call of `lock` or `try_lock`, up to the drop of the guard it returned; any number of them
    may be in progress.  Tickets are unbounded naturals. */
module TicketLock {

  type Id = nat

  datatype Phase =
    | Spinning(ticket: nat)     // `lock`: ticket drawn, waiting to be served
    | Holding(ticket: nat)      // a guard exists
    | TryLoaded(ticket: nat)    // `try_lock`: next_ticket has been read
    | TryChecked(ticket: nat)   // `try_lock`: next_serving was equal to it, the exchange is next

  datatype State = State(nextTicket: nat, nextServing: nat, acquisitions: map<Id, Phase>)

  datatype Step =
    | Draw(id: Id)              // next_ticket.fetch_add(1)
    | Poll(id: Id)              // next_serving.load(): enter when served, else spin
    | TryLoad(id: Id)           // next_ticket.load()
    | TryCheck(id: Id)          // next_serving.load(): give up unless equal
    | TrySwap(id: Id)           // next_ticket.compare_exchange(ticket, ticket + 1) succeeds
    | TrySwapFails(id: Id)      // it fails, perhaps spuriously, and hands back next_ticket
    | Release(id: Id)           // guard dropped: next_serving.store(ticket + 1)

  predicate In(s: State, id: Id, phase: Phase) {
    id in s.acquisitions && s.acquisitions[id] == phase
  }

  predicate Enabled(s: State, step: Step) {
    match step
    case Draw(id) => id !in s.acquisitions
    case TryLoad(id) => id !in s.acquisitions
    case Poll(id) => id in s.acquisitions && s.acquisitions[id].Spinning?
    case TryCheck(id) => id in s.acquisitions && s.acquisitions[id].TryLoaded?
    case TrySwap(id) => In(s, id, TryChecked(s.nextTicket))
    case TrySwapFails(id) => id in s.acquisitions && s.acquisitions[id].TryChecked?
    case Release(id) => id in s.acquisitions && s.acquisitions[id].Holding?
  }

  function Apply(s: State, step: Step): (s': State)
    requires Enabled(s, step)
  {
    var acqs := s.acquisitions;
    match step
    case Draw(id) =>
      s.(nextTicket := s.nextTicket + 1, acquisitions := acqs[id := Spinning(s.nextTicket)])
    case Poll(id) =>
      if s.nextServing == acqs[id].ticket then s.(acquisitions := acqs[id := Holding(acqs[id].ticket)]) else s
    case TryLoad(id) =>
      s.(acquisitions := acqs[id := TryLoaded(s.nextTicket)])
    case TryCheck(id) =>
      if s.nextServing == acqs[id].ticket then s.(acquisitions := acqs[id := TryChecked(acqs[id].ticket)])
      else s.(acquisitions := acqs - {id})
    case TrySwap(id) =>
      s.(nextTicket := s.nextTicket + 1, acquisitions := acqs[id := Holding(s.nextTicket)])
    case TrySwapFails(id) =>
      s.(acquisitions := acqs[id := TryLoaded(s.nextTicket)])
    case Release(id) =>
      s.(nextServing := acqs[id].ticket + 1, acquisitions := acqs - {id})
  }

  const INITIAL := State(0, 0, map[])

  ghost predicate IsRun(s: State, steps: seq<Step>)
    decreases |steps|
  {
    steps == [] || (Enabled(s, steps[0]) && IsRun(Apply(s, steps[0]), steps[1..]))
  }

  ghost function After(s: State, steps: seq<Step>): (s': State)
    requires IsRun(s, steps)
    decreases |steps|
  {
    if steps == [] then s else After(Apply(s, steps[0]), steps[1..])
  }

  // ----- the invariant

  predicate HasTicket(s: State, id: Id, ticket: nat) {
    In(s, id, Spinning(ticket)) || In(s, id, Holding(ticket))
  }

  ghost predicate TicketsInWindow(s: State) {
    && s.nextServing <= s.nextTicket
    && (forall id, n: nat :: HasTicket(s, id, n) ==> s.nextServing <= n < s.nextTicket)
  }

  ghost predicate TicketsDistinct(s: State) {
    forall i, j, n: nat :: HasTicket(s, i, n) && HasTicket(s, j, n) ==> i == j
  }

  predicate InWindow(s: State, n: nat) {
    s.nextServing <= n < s.nextTicket
  }

  ghost predicate Owned(s: State, n: nat) {
    exists id :: HasTicket(s, id, n)
  }

  ghost predicate WindowOwned(s: State) {
    forall n: nat :: InWindow(s, n) ==> Owned(s, n)
  }

  ghost predicate HolderIsServed(s: State) {
    && (forall id, n: nat :: In(s, id, Holding(n)) ==> n == s.nextServing)
    && (forall id, n: nat :: In(s, id, TryChecked(n)) ==> n <= s.nextServing)
  }

  /** Outstanding tickets are exactly the window `[next_serving, next_ticket)`, each owned
      once, and only the ticket being served is held. */
  ghost predicate Inv(s: State) {
    TicketsInWindow(s) && TicketsDistinct(s) && WindowOwned(s) && HolderIsServed(s)
  }

  lemma WindowAfterDraw(s: State, s': State, id: Id, phase: Phase)
    requires WindowOwned(s)
    requires forall n: nat :: !HasTicket(s, id, n)
    requires phase == Spinning(s.nextTicket) || phase == Holding(s.nextTicket)
    requires s' == s.(nextTicket := s.nextTicket + 1, acquisitions := s.acquisitions[id := phase])
    ensures WindowOwned(s')
  {
    forall n: nat | InWindow(s', n)
      ensures Owned(s', n)
    {
      if n == s.nextTicket {
        assert HasTicket(s', id, n);
      } else {
        assert InWindow(s, n);
        var j :| HasTicket(s, j, n);
        assert HasTicket(s', j, n);
      }
    }
  }

  lemma WindowKept(s: State, s': State)
    requires WindowOwned(s)
    requires s'.nextTicket == s.nextTicket && s'.nextServing == s.nextServing
    requires forall id, n: nat :: HasTicket(s, id, n) ==> HasTicket(s', id, n)
    ensures WindowOwned(s')
  {
    forall n: nat | InWindow(s', n)
      ensures Owned(s', n)
    {
      assert InWindow(s, n);
      var j :| HasTicket(s, j, n);
      assert HasTicket(s', j, n);
    }
  }

  lemma WindowAfterRelease(s: State, id: Id)
    requires Inv(s) && Enabled(s, Release(id))
    ensures WindowOwned(Apply(s, Release(id)))
  {
    var s' := Apply(s, Release(id));
    assert In(s, id, Holding(s.acquisitions[id].ticket));
    forall n: nat | InWindow(s', n)
      ensures Owned(s', n)
    {
      assert InWindow(s, n);
      var j :| HasTicket(s, j, n);
      assert HasTicket(s', j, n);
    }
  }

  /** A step touches one acquisition only. */
  lemma OthersKept(s: State, step: Step)
    requires Enabled(s, step)
    ensures forall j, phase {:trigger In(Apply(s, step), j, phase)} :: j != step.id ==>
              (In(Apply(s, step), j, phase) <==> In(s, j, phase))
    ensures forall j, n: nat {:trigger HasTicket(Apply(s, step), j, n)} :: j != step.id ==>
              (HasTicket(Apply(s, step), j, n) <==> HasTicket(s, j, n))
  {
  }

  /** Every atomic step keeps the invariant, the unprotected exchange of `try_lock` included:
      when it succeeds, nobody has been served since the check. */
  lemma StepKeepsInv(s: State, step: Step)
    requires Inv(s) && Enabled(s, step)
    ensures Inv(Apply(s, step))
  {
    var s' := Apply(s, step);
    OthersKept(s, step);
    match step {
      case Draw(id) =>
        WindowAfterDraw(s, s', id, Spinning(s.nextTicket));
      case TrySwap(id) =>
        assert In(s, id, TryChecked(s.nextTicket));
        assert s.nextServing == s.nextTicket;
        WindowAfterDraw(s, s', id, Holding(s.nextTicket));
      case Poll(id) =>
        assert HasTicket(s, id, s.acquisitions[id].ticket);
        WindowKept(s, s');
      case Release(id) =>
        assert In(s, id, Holding(s.acquisitions[id].ticket));
        assert HasTicket(s, id, s.nextServing);
        WindowAfterRelease(s, id);
        assert forall j, n: nat :: In(s, j, Holding(n)) ==> HasTicket(s, j, n);
      case TryLoad(id) => WindowKept(s, s');
      case TryCheck(id) => WindowKept(s, s');
      case TrySwapFails(id) => WindowKept(s, s');
    }
  }

  lemma {:induction false} RunKeepsInv(s: State, steps: seq<Step>)
    requires Inv(s) && IsRun(s, steps)
    ensures Inv(After(s, steps))
    decreases |steps|
  {
    if steps != [] {
      StepKeepsInv(s, steps[0]);
      RunKeepsInv(Apply(s, steps[0]), steps[1..]);
    }
  }

  // ----- what the mutex promises

  /** In every run at most one guard exists. */
  lemma MutualExclusion(steps: seq<Step>, i: Id, j: Id, m: nat, n: nat)
    requires IsRun(INITIAL, steps)
    requires In(After(INITIAL, steps), i, Holding(m)) && In(After(INITIAL, steps), j, Holding(n))
    ensures i == j && m == n
  {
    RunKeepsInv(INITIAL, steps);
    var s := After(INITIAL, steps);
    assert HasTicket(s, i, m) && HasTicket(s, j, n);
  }

  /** The outstanding tickets are the half-open window, in both directions. */
  lemma OutstandingTicketsAreTheWindow(steps: seq<Step>, n: nat)
    requires IsRun(INITIAL, steps)
    ensures var s := After(INITIAL, steps);
            InWindow(s, n) <==> Owned(s, n)
  {
    RunKeepsInv(INITIAL, steps);
    var s := After(INITIAL, steps);
  }

  function Releases(steps: seq<Step>): (n: nat) {
    if steps == [] then 0 else (if steps[0].Release? then 1 else 0) + Releases(steps[1..])
  }

  lemma {:induction false} ServingCountsReleases(s: State, steps: seq<Step>)
    requires Inv(s) && IsRun(s, steps)
    ensures After(s, steps).nextServing == s.nextServing + Releases(steps)
    decreases |steps|
  {
    if steps != [] {
      var step := steps[0];
      if step.Release? {
        assert In(s, step.id, Holding(s.acquisitions[step.id].ticket));
      }
      StepKeepsInv(s, step);
      ServingCountsReleases(Apply(s, step), steps[1..]);
    }
  }

  /** First come, first served: whoever draws ticket `t` enters after exactly
      `t - next_serving` further releases, however the run is scheduled. */
  lemma FirstComeFirstServed(s: State, steps: seq<Step>, id: Id, t: nat)
    requires Inv(s) && HasTicket(s, id, t)
    requires IsRun(s, steps) && In(After(s, steps), id, Holding(t))
    ensures Releases(steps) == t - s.nextServing
  {
    RunKeepsInv(s, steps);
    ServingCountsReleases(s, steps);
  }

  /** While a ticket is held, no earlier ticket is still outstanding. */
  lemma NoOvertaking(steps: seq<Step>, i: Id, j: Id, m: nat, n: nat)
    requires IsRun(INITIAL, steps)
    requires In(After(INITIAL, steps), i, Holding(m)) && HasTicket(After(INITIAL, steps), j, n)
    ensures m <= n
  {
    RunKeepsInv(INITIAL, steps);
  }

  /** The step that the owner of the served ticket can take. */
  function ServedStep(s: State, id: Id): (step: Step) {
    if In(s, id, Holding(s.nextServing)) then Release(id) else Poll(id)
  }

  /** No deadlock: with a ticket outstanding, the owner of the served ticket can step, and the
      step makes progress. */
  lemma ServedCanStep(s: State)
    returns (id: Id)
    requires Inv(s) && s.nextServing < s.nextTicket
    ensures HasTicket(s, id, s.nextServing)
    ensures Enabled(s, ServedStep(s, id))
    ensures var s' := Apply(s, ServedStep(s, id));
            s'.nextServing == s.nextServing + 1 || In(s', id, Holding(s.nextServing))
  {
    assert InWindow(s, s.nextServing);
    id :| HasTicket(s, id, s.nextServing);
  }

  lemma {:induction false} RunConcat(s: State, a: seq<Step>, b: seq<Step>)
    requires IsRun(s, a) && IsRun(After(s, a), b)
    ensures IsRun(s, a + b) && After(s, a + b) == After(After(s, a), b)
    decreases |a|
  {
    if a == [] {
      assert a + b == b;
    } else {
      assert (a + b)[1..] == a[1..] + b;
      RunConcat(Apply(s, a[0]), a[1..], b);
    }
  }

  /** Every waiting ticket can be brought to its guard by polls and releases of the tickets
      before it alone: no state of the lock is stuck. */
  lemma {:induction false} WaiterCanEnter(s: State, id: Id, t: nat)
    returns (steps: seq<Step>)
    requires Inv(s) && In(s, id, Spinning(t))
    ensures IsRun(s, steps) && In(After(s, steps), id, Holding(t))
    ensures |steps| <= 2 * (t - s.nextServing) + 1
    decreases t - s.nextServing
  {
    assert HasTicket(s, id, t);
    if t == s.nextServing {
      steps := [Poll(id)];
      assert steps[1..] == [];
    } else {
      var j := ServedCanStep(s);
      steps := if In(s, j, Holding(s.nextServing)) then [Release(j)] else [Poll(j), Release(j)];
      ServeOne(s, j, steps, id, t);
      RunKeepsInv(s, steps);
      var more := WaiterCanEnter(After(s, steps), id, t);
      RunConcat(s, steps, more);
      steps := steps + more;
    }
  }

  lemma ServeOne(s: State, j: Id, steps: seq<Step>, id: Id, t: nat)
    requires Inv(s) && HasTicket(s, j, s.nextServing) && In(s, id, Spinning(t)) && t != s.nextServing
    requires steps == if In(s, j, Holding(s.nextServing)) then [Release(j)] else [Poll(j), Release(j)]
    ensures IsRun(s, steps)
    ensures After(s, steps).nextServing == s.nextServing + 1 && In(After(s, steps), id, Spinning(t))
  {
    if In(s, j, Holding(s.nextServing)) {
      assert steps[1..] == [];
    } else {
      var s' := Apply(s, Poll(j));
      assert steps[1..] == [Release(j)];
      assert [Release(j)][1..] == [];
      assert IsRun(s', [Release(j)]);
      assert After(s', [Release(j)]) == Apply(s', Release(j));
    }
  }

  // ----- when an acquisition succeeds

  /** The mutex after acquisition `id` has taken it while it was free. */
  function Taken(s: State, id: Id): (s': State) {
    s.(nextTicket := s.nextTicket + 1, acquisitions := s.acquisitions[id := Holding(s.nextTicket)])
  }

  predicate Free(s: State) {
    s.nextServing == s.nextTicket
  }

  lemma FreeMeansNobodyWaits(s: State)
    requires Inv(s)
    ensures Free(s) <==> forall n: nat :: !Owned(s, n)
  {
    if !Free(s) {
      assert InWindow(s, s.nextServing);
    }
  }

  lemma {:induction false} OneStep(s: State, step: Step)
    requires Enabled(s, step)
    ensures IsRun(s, [step]) && After(s, [step]) == Apply(s, step)
  {
    assert [step][1..] == [];
  }

  /** Undisturbed, `try_lock` on a free mutex returns a guard. */
  lemma TryLockTakesFreeMutex(s: State, id: Id)
    requires Inv(s) && id !in s.acquisitions && Free(s)
    ensures IsRun(s, [TryLoad(id), TryCheck(id), TrySwap(id)])
    ensures After(s, [TryLoad(id), TryCheck(id), TrySwap(id)]) == Taken(s, id)
  {
    hide IsRun, After;
    var s1 := Apply(s, TryLoad(id));
    var s2 := Apply(s1, TryCheck(id));
    OneStep(s, TryLoad(id));
    OneStep(s1, TryCheck(id));
    OneStep(s2, TrySwap(id));
    RunConcat(s1, [TryCheck(id)], [TrySwap(id)]);
    RunConcat(s, [TryLoad(id)], [TryCheck(id)] + [TrySwap(id)]);
    assert [TryLoad(id)] + ([TryCheck(id)] + [TrySwap(id)]) == [TryLoad(id), TryCheck(id), TrySwap(id)];
    assert Apply(s2, TrySwap(id)).acquisitions == Taken(s, id).acquisitions;
  }

  /** A failed exchange starts over with the current ticket; undisturbed and on a free mutex
      the second attempt returns a guard. */
  lemma TryLockRetries(s: State, id: Id)
    requires Inv(s) && id in s.acquisitions && s.acquisitions[id].TryChecked? && Free(s)
    ensures IsRun(s, [TrySwapFails(id), TryCheck(id), TrySwap(id)])
    ensures After(s, [TrySwapFails(id), TryCheck(id), TrySwap(id)]) == Taken(s, id)
  {
    hide IsRun, After;
    var s1 := Apply(s, TrySwapFails(id));
    var s2 := Apply(s1, TryCheck(id));
    OneStep(s, TrySwapFails(id));
    OneStep(s1, TryCheck(id));
    OneStep(s2, TrySwap(id));
    RunConcat(s1, [TryCheck(id)], [TrySwap(id)]);
    RunConcat(s, [TrySwapFails(id)], [TryCheck(id)] + [TrySwap(id)]);
    assert [TrySwapFails(id)] + ([TryCheck(id)] + [TrySwap(id)]) == [TrySwapFails(id), TryCheck(id), TrySwap(id)];
    assert Apply(s2, TrySwap(id)).acquisitions == Taken(s, id).acquisitions;
  }

  /** `try_lock` gives up exactly when the ticket it has read is not the one being served.  If
      that ticket is still the next one, some ticket is outstanding. */
  lemma TryLockGivesUp(s: State, id: Id)
    requires Inv(s) && id in s.acquisitions && s.acquisitions[id].TryLoaded?
    ensures var t, s' := s.acquisitions[id].ticket, Apply(s, TryCheck(id));
            && (id !in s'.acquisitions <==> t != s.nextServing)
            && (id in s'.acquisitions ==> s' == s.(acquisitions := s.acquisitions[id := TryChecked(t)]))
            && (t == s.nextTicket ==> (id !in s'.acquisitions <==> exists n: nat :: Owned(s, n)))
  {
    FreeMeansNobodyWaits(s);
  }

  /** `lock` on a free mutex enters at its first poll, and the release frees it again. */
  lemma LockThenRelease(s: State, id: Id)
    requires Inv(s) && id !in s.acquisitions && Free(s)
    ensures IsRun(s, [Draw(id), Poll(id)]) && After(s, [Draw(id), Poll(id)]) == Taken(s, id)
    ensures Enabled(Taken(s, id), Release(id))
    ensures Apply(Taken(s, id), Release(id)) == State(s.nextTicket + 1, s.nextServing + 1, s.acquisitions)
  {
    hide IsRun, After;
    var s1 := Apply(s, Draw(id));
    OneStep(s, Draw(id));
    OneStep(s1, Poll(id));
    RunConcat(s, [Draw(id)], [Poll(id)]);
    assert [Draw(id)] + [Poll(id)] == [Draw(id), Poll(id)];
    assert Apply(s1, Poll(id)).acquisitions == Taken(s, id).acquisitions;
    assert Apply(Taken(s, id), Release(id)).acquisitions == s.acquisitions;
  }

  /** From every state `lock` can be brought to its guard, with one release for each ticket
      that was outstanding. */
  lemma LockCanEnter(s: State, id: Id)
    returns (steps: seq<Step>)
    requires Inv(s) && id !in s.acquisitions
    ensures IsRun(s, [Draw(id)] + steps)
    ensures In(After(s, [Draw(id)] + steps), id, Holding(s.nextTicket))
    ensures Releases(steps) == s.nextTicket - s.nextServing
  {
    var s1 := Apply(s, Draw(id));
    StepKeepsInv(s, Draw(id));
    OneStep(s, Draw(id));
    assert In(s1, id, Spinning(s.nextTicket)) && HasTicket(s1, id, s.nextTicket);
    steps := WaiterCanEnter(s1, id, s.nextTicket);
    RunConcat(s, [Draw(id)], steps);
    FirstComeFirstServed(s1, steps, id, s.nextTicket);
  }
}
