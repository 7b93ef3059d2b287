/** Every interleaving of phone threads, Pi threads and the clock on the relay. */
module RelayRuns {
  import opened Inventory
  import opened RelayBlocks

  /** Where a phone thread is between two locked blocks. */
  datatype Phase =
    | Enqueued                            // inserted, deadline not read yet
    | Checking                            // about to compare the clock with the deadline
    | Looking                             // deadline not reached, about to look at the row
    | Sleeping(until: int)
    | GivingUp                            // deadline reached, about to expire the row
    | Done(outcome: Outcome, at: int)

  datatype Waiter = Waiter(pi: string, insertedAt: int, startedAt: int, looks: nat, phase: Phase)

  /** A response as a Pi delivered it, with the hash of the secret it presented. */
  datatype Response = Response(request: string, pi: string, secretHash: string, code: int, body: string)

  /** The tables, the clock, the phone threads, and the history: request ids ever used, the times
      each request was handed out, and the responses stored. */
  datatype World = World(
    devices: Devices, calls: Calls, clock: int, waiters: map<string, Waiter>,
    used: set<string>, handedOut: map<string, seq<int>>, responses: set<Response>)

  const LOOK_PERIOD_MS: int := 150

  datatype Step =
    | Tick(passed: nat)
    | Enqueue(request: string, pi: string, kind: string, authorization: string, payload: string, stamp: int)
    | StartWait(request: string)
    | Check(request: string)
    | Look(request: string)
    | Wake(request: string)
    | GiveUp(request: string)
    | PollStart(cred: Credentials)
    | PollRound(cred: Credentials, found: Option<string>)
    | Respond(cred: Credentials, request: string, code: int, body: string)

  function Times(w: World, r: string): seq<int> {
    if r in w.handedOut then w.handedOut[r] else []
  }

  predicate InPhase(w: World, r: string, phase: Phase) {
    r in w.waiters && w.waiters[r].phase == phase
  }

  /** Request ids are fresh, and a phone's stamp is taken before it gets the lock. */
  ghost predicate Enabled(cfg: Config, w: World, s: Step) {
    match s
    case Tick(_) => true
    case Enqueue(r, _, _, _, _, stamp) => r !in w.used && stamp <= w.clock
    case StartWait(r) => InPhase(w, r, Enqueued)
    case Check(r) => InPhase(w, r, Checking)
    case Look(r) => InPhase(w, r, Looking)
    case Wake(r) => r in w.waiters && w.waiters[r].phase.Sleeping? && w.waiters[r].phase.until <= w.clock
    case GiveUp(r) => InPhase(w, r, GivingUp)
    case PollStart(_) => true
    case PollRound(cred, found) => Authentic(w.devices, cred, cfg) ==> IsNextClaim(w.calls, cred.pi, w.clock, found)
    case Respond(cred, _, code, _) => cred.bootstrap == None && 100 <= code <= 599
  }

  function Move(w: World, r: string, phase: Phase): World {
    if r in w.waiters then w.(waiters := w.waiters[r := w.waiters[r].(phase := phase)]) else w
  }

  function AfterLook(cfg: Config, w: World, r: string): World {
    if r !in w.waiters then w
    else
      var seen := LookOutcome(w.devices, w.calls, r, w.waiters[r].pi, w.clock, cfg);
      Move(w, r, if seen.Some? then Done(seen.value, w.clock) else Sleeping(w.clock + LOOK_PERIOD_MS))
      .(calls := LookCalls(w.devices, w.calls, r, w.waiters[r].pi, w.clock, cfg))
  }

  function AfterEnqueue(cfg: Config, w: World, r: string, pi: string, call: Call): World {
    var kept := Cleanup(w.calls, w.clock, cfg);
    if Online(w.devices, pi, w.clock, cfg)
    then w.(calls := kept[r := call], used := w.used + {r},
            waiters := w.waiters[r := Waiter(pi, w.clock, w.clock, 0, Enqueued)])
    else w.(calls := kept, used := w.used + {r})
  }

  function AfterClaim(cfg: Config, w: World, r: string): World
    requires r in w.calls
  {
    w.(calls := w.calls[r := Leased(w.calls[r], w.clock, cfg)],
       handedOut := w.handedOut[r := Times(w, r) + [w.clock]])
  }

  function AfterRespond(w: World, cred: Credentials, r: string, code: int, body: string): World {
    if r in w.calls && w.calls[r].pi == cred.pi
    then w.(calls := w.calls[r := Answered(w.calls[r], code, body, w.clock)],
            responses := w.responses + {Response(r, cred.pi, cred.secretHash, code, body)})
    else w
  }

  function Next(cfg: Config, w: World, s: Step): World {
    match s
    case Tick(passed) => w.(clock := w.clock + passed)
    case Enqueue(r, pi, kind, authorization, payload, stamp) =>
      AfterEnqueue(cfg, w, r, pi, NewCall(pi, kind, authorization, payload, stamp))
    case StartWait(r) =>
      if r in w.waiters then w.(waiters := w.waiters[r := w.waiters[r].(startedAt := w.clock, phase := Checking)])
      else w
    case Check(r) =>
      if r !in w.waiters then w
      else if w.clock < w.waiters[r].startedAt + cfg.timeoutMs
      then w.(waiters := w.waiters[r := w.waiters[r].(looks := w.waiters[r].looks + 1, phase := Looking)])
      else Move(w, r, GivingUp)
    case Look(r) => AfterLook(cfg, w, r)
    case Wake(r) => Move(w, r, Checking)
    case GiveUp(r) => Move(w, r, Done(TimedOut, w.clock)).(calls := WithExpired(w.calls, r, w.clock))
    case PollStart(cred) =>
      if Authentic(w.devices, cred, cfg)
      then w.(devices := SeenDevice(w.devices, cred, w.clock), calls := Cleanup(w.calls, w.clock, cfg))
      else w
    case PollRound(cred, found) =>
      if !Authentic(w.devices, cred, cfg) then w
      else
        var seen := w.(devices := SeenDevice(w.devices, cred, w.clock));
        if found.Some? && found.value in w.calls then AfterClaim(cfg, seen, found.value) else seen
    case Respond(cred, r, code, body) =>
      if !Authentic(w.devices, cred, cfg) then w
      else AfterRespond(w.(devices := SeenDevice(w.devices, cred, w.clock)), cred, r, code, body)
  }

  function Start(clock: int): World {
    World(map[], map[], clock, map[], {}, map[], {})
  }

  ghost predicate EnabledRun(cfg: Config, w: World, steps: seq<Step>)
    decreases |steps|
  {
    steps == [] || (Enabled(cfg, w, steps[0]) && EnabledRun(cfg, Next(cfg, w, steps[0]), steps[1..]))
  }

  function Run(cfg: Config, w: World, steps: seq<Step>): World
    decreases |steps|
  {
    if steps == [] then w else Run(cfg, Next(cfg, w, steps[0]), steps[1..])
  }

  // No delivery after the waiter has left.

  /** Only ids ever enqueued occur anywhere, and the row of a finished wait is gone or not pending. */
  ghost predicate WaitersClosed(w: World) {
    && w.calls.Keys <= w.used && w.waiters.Keys <= w.used
    && forall r | r in w.waiters && r in w.calls :: ClosedRow(w.waiters[r], w.calls[r])
  }

  predicate ClosedRow(x: Waiter, call: Call) {
    call.pi == x.pi && (x.phase.Done? ==> call.status != Pending)
  }

  /** The step hands request `r` to a Pi. */
  predicate Delivers(cfg: Config, w: World, s: Step, r: string) {
    s.PollRound? && Authentic(w.devices, s.cred, cfg) && s.found == Some(r) && r in w.calls
  }

  lemma TimesGrow(cfg: Config, w: World, s: Step, r: string)
    requires Enabled(cfg, w, s)
    ensures Times(Next(cfg, w, s), r) == Times(w, r) + (if Delivers(cfg, w, s, r) then [w.clock] else [])
  {
    hide SeenDevice, Online;
    assert Times(w, r) + [] == Times(w, r);
  }

  /** A row that is pending after a step was pending before it, and only a delivery moves its lease. */
  lemma PendingRowAfter(cfg: Config, w: World, s: Step, r: string)
    requires WaitersClosed(w) && Enabled(cfg, w, s) && r in w.used
    ensures var w' := Next(cfg, w, s);
            && (r in w'.calls && w'.calls[r].status == Pending ==>
                  && r in w.calls && w.calls[r].status == Pending
                  && w'.calls[r].leaseExpiresAt
                     == if Delivers(cfg, w, s, r) then w.clock + cfg.leaseMs else w.calls[r].leaseExpiresAt)
            && Times(w', r) == Times(w, r) + (if Delivers(cfg, w, s, r) then [w.clock] else [])
    ensures Delivers(cfg, w, s, r) ==>
              r in w.calls && w.calls[r].status == Pending && w.calls[r].leaseExpiresAt <= w.clock
  {
    hide SeenDevice, Online;
    TimesGrow(cfg, w, s, r);
  }

  /** No step ever sets a stored row back to pending. */
  lemma NothingReturnsToPending(cfg: Config, w: World, s: Step, r: string)
    requires WaitersClosed(w) && Enabled(cfg, w, s)
    requires r in w.used && (r !in w.calls || w.calls[r].status != Pending)
    ensures r !in Next(cfg, w, s).calls || Next(cfg, w, s).calls[r].status != Pending
    ensures Times(Next(cfg, w, s), r) == Times(w, r)
  {
    hide Next, Enabled, WaitersClosed;
    PendingRowAfter(cfg, w, s, r);
  }

  /** An answered row stops being answered exactly when its own waiter gives up at the deadline. */
  lemma AnsweredUntilGiveUp(cfg: Config, w: World, s: Step, r: string)
    requires WaitersClosed(w) && Enabled(cfg, w, s)
    requires r in w.calls && w.calls[r].status == Responded && r in Next(cfg, w, s).calls
    ensures Next(cfg, w, s).calls[r].status != Responded <==> s == GiveUp(r)
  {
    hide Authentic, SeenDevice, Online;
  }

  /** An expired row stops being expired exactly when its own Pi, authentic, answers it. */
  lemma ExpiredUntilAnswer(cfg: Config, w: World, s: Step, r: string)
    requires WaitersClosed(w) && Enabled(cfg, w, s)
    requires r in w.calls && w.calls[r].status == Expired && r in Next(cfg, w, s).calls
    ensures Next(cfg, w, s).calls[r].status != Expired <==>
              s.Respond? && s.request == r && Authentic(w.devices, s.cred, cfg) && s.cred.pi == w.calls[r].pi
  {
    hide Authentic, SeenDevice, Online;
  }

  /** A step of a Pi thread; the others are the phone threads' and the clock's. */
  predicate IsPiStep(s: Step) {
    s.PollStart? || s.PollRound? || s.Respond?
  }

  lemma EnqueueStaysClosed(cfg: Config, w: World, s: Step)
    requires WaitersClosed(w) && Enabled(cfg, w, s)
    requires s.Enqueue?
    ensures WaitersClosed(Next(cfg, w, s))
  {
    hide Authentic, SeenDevice, Online, IsNextClaim;
    var w' := Next(cfg, w, s);
    forall r | r in w'.waiters && r in w'.calls
      ensures ClosedRow(w'.waiters[r], w'.calls[r])
    {
      assert r in w.waiters && r in w.calls ==> ClosedRow(w.waiters[r], w.calls[r]);
    }
  }

  lemma LookStaysClosed(cfg: Config, w: World, s: Step)
    requires WaitersClosed(w) && Enabled(cfg, w, s)
    requires s.Look?
    ensures WaitersClosed(Next(cfg, w, s))
  {
    hide Authentic, SeenDevice, Online, IsNextClaim;
    var w' := Next(cfg, w, s);
    forall r | r in w'.waiters && r in w'.calls
      ensures ClosedRow(w'.waiters[r], w'.calls[r])
    {
      assert r in w.waiters && r in w.calls ==> ClosedRow(w.waiters[r], w.calls[r]);
    }
  }

  lemma PhoneStepsStayClosed(cfg: Config, w: World, s: Step)
    requires WaitersClosed(w) && Enabled(cfg, w, s)
    requires !IsPiStep(s) && !s.Enqueue? && !s.Look?
    ensures WaitersClosed(Next(cfg, w, s))
  {
    hide Authentic, SeenDevice, Online, IsNextClaim;
    var w' := Next(cfg, w, s);
    forall r | r in w'.waiters && r in w'.calls
      ensures ClosedRow(w'.waiters[r], w'.calls[r])
    {
      assert r in w.waiters && r in w.calls ==> ClosedRow(w.waiters[r], w.calls[r]);
    }
  }

  lemma PiStepsStayClosed(cfg: Config, w: World, s: Step)
    requires WaitersClosed(w) && Enabled(cfg, w, s)
    requires IsPiStep(s)
    ensures WaitersClosed(Next(cfg, w, s))
  {
    hide Authentic, SeenDevice, Online, IsNextClaim;
    var w' := Next(cfg, w, s);
    forall r | r in w'.waiters && r in w'.calls
      ensures ClosedRow(w'.waiters[r], w'.calls[r])
    {
      assert r in w.waiters && r in w.calls ==> ClosedRow(w.waiters[r], w.calls[r]);
    }
  }

  lemma WaitersStayClosed(cfg: Config, w: World, s: Step)
    requires WaitersClosed(w) && Enabled(cfg, w, s)
    ensures WaitersClosed(Next(cfg, w, s))
  {
    hide Next, Enabled, WaitersClosed;
    if IsPiStep(s) {
      PiStepsStayClosed(cfg, w, s);
    } else if s.Enqueue? {
      EnqueueStaysClosed(cfg, w, s);
    } else if s.Look? {
      LookStaysClosed(cfg, w, s);
    } else {
      PhoneStepsStayClosed(cfg, w, s);
    }
  }

  /** A finished wait stays as it ended, and its request is never handed out again. */
  lemma {:induction false} NoDeliveryAfterExit(cfg: Config, w: World, steps: seq<Step>, r: string)
    requires WaitersClosed(w) && EnabledRun(cfg, w, steps)
    requires r in w.waiters && w.waiters[r].phase.Done?
    ensures var w' := Run(cfg, w, steps);
            r in w'.waiters && w'.waiters[r] == w.waiters[r] && Times(w', r) == Times(w, r)
    decreases |steps|
  {
    if steps == [] {
    } else {
      WaitersStayClosed(cfg, w, steps[0]);
      NothingReturnsToPending(cfg, w, steps[0], r);
      FinishedWaitStays(cfg, w, steps[0], r);
      NoDeliveryAfterExit(cfg, Next(cfg, w, steps[0]), steps[1..], r);
    }
  }

  lemma FinishedWaitStays(cfg: Config, w: World, s: Step, r: string)
    requires WaitersClosed(w) && Enabled(cfg, w, s)
    requires r in w.waiters && w.waiters[r].phase.Done?
    ensures r in Next(cfg, w, s).waiters && Next(cfg, w, s).waiters[r] == w.waiters[r]
  {
  }

  // Lease exclusion.

  ghost predicate Spaced(times: seq<int>, gap: int) {
    forall i | 0 < i < |times| :: times[i] >= times[i - 1] + gap
  }

  /** Deliveries of one request are a lease apart; a pending row is still leased to its last one. */
  ghost predicate LeaseHeld(cfg: Config, w: World, r: string)
    requires r in w.handedOut
  {
    var times := w.handedOut[r];
    && times != [] && Spaced(times, cfg.leaseMs) && times[|times| - 1] <= w.clock
    && (r in w.calls && w.calls[r].status == Pending ==>
          w.calls[r].leaseExpiresAt >= times[|times| - 1] + cfg.leaseMs)
    && (r in w.waiters && w.waiters[r].phase.Done? ==> times[|times| - 1] <= w.waiters[r].phase.at)
  }

  ghost predicate LeasesHeld(cfg: Config, w: World) {
    && w.handedOut.Keys <= w.used
    && forall r | r in w.handedOut :: LeaseHeld(cfg, w, r)
  }

  lemma HistoryGrows(cfg: Config, w: World, s: Step)
    requires Enabled(cfg, w, s)
    ensures var w' := Next(cfg, w, s);
            && w.used <= w'.used && w.clock <= w'.clock
            && (forall r :: r in w'.handedOut <==> r in w.handedOut || Delivers(cfg, w, s, r))
  {
    hide SeenDevice, Online;
  }

  lemma FinishedNow(cfg: Config, w: World, s: Step, r: string)
    requires WaitersClosed(w) && Enabled(cfg, w, s) && r in w.used
    ensures var w' := Next(cfg, w, s);
            r in w'.waiters && w'.waiters[r].phase.Done? ==>
              (r in w.waiters && w'.waiters[r] == w.waiters[r]) || w'.waiters[r].phase.at == w.clock
    ensures Delivers(cfg, w, s, r) ==> Next(cfg, w, s).waiters == w.waiters
  {
    hide Authentic, SeenDevice, Online;
  }

  lemma LeasesStayHeld(cfg: Config, w: World, s: Step)
    requires WaitersClosed(w) && LeasesHeld(cfg, w) && Enabled(cfg, w, s)
    ensures LeasesHeld(cfg, Next(cfg, w, s))
  {
    HistoryGrows(cfg, w, s);
    assert forall r | Delivers(cfg, w, s, r) :: r in w.used;
    var w' := Next(cfg, w, s);
    forall r | r in w'.handedOut
      ensures LeaseHeld(cfg, w', r)
    {
      LeaseStaysHeld(cfg, w, s, r);
    }
  }

  lemma LeaseStaysHeld(cfg: Config, w: World, s: Step, r: string)
    requires WaitersClosed(w) && LeasesHeld(cfg, w) && Enabled(cfg, w, s)
    requires r in w.used && r in Next(cfg, w, s).handedOut
    ensures LeaseHeld(cfg, Next(cfg, w, s), r)
  {
    hide Next, Enabled, WaitersClosed, Delivers, Spaced;
    PendingRowAfter(cfg, w, s, r);
    FinishedNow(cfg, w, s, r);
    HistoryGrows(cfg, w, s);
    if Delivers(cfg, w, s, r) {
      DeliveredHasNoFinishedWait(w, r);
    }
    SpacedMore(Times(w, r), cfg.leaseMs, w.clock);
    assert Times(w, r) + [] == Times(w, r);
    if r in w.handedOut {
      assert LeaseHeld(cfg, w, r);
    }
  }

  lemma DeliveredHasNoFinishedWait(w: World, r: string)
    requires WaitersClosed(w) && r in w.calls && w.calls[r].status == Pending
    ensures r in w.waiters ==> !w.waiters[r].phase.Done?
  {
    assert r in w.waiters ==> ClosedRow(w.waiters[r], w.calls[r]);
  }

  lemma SpacedMore(times: seq<int>, gap: int, t: int)
    ensures Spaced([], gap)
    ensures Spaced(times, gap) && (times == [] || t >= times[|times| - 1] + gap) ==> Spaced(times + [t], gap)
  {
    assert (times + [t])[..|times|] == times;
  }

  lemma {:induction false} SpacedSpread(times: seq<int>, gap: int, n: nat)
    requires Spaced(times, gap) && n < |times|
    ensures n * gap <= times[n] - times[0]
  {
    if n == 0 {
    } else {
      SpacedSpread(times, gap, n - 1);
      assert n * gap == (n - 1) * gap + gap;
    }
  }

  /** The bound itself: n deliveries before the waiter leaves at T need (n-1) leases between the first
      and T, so there is only one if T comes before the first lease runs out. */
  lemma DeliveriesBounded(cfg: Config, w: World, r: string)
    requires ValidConfig(cfg) && LeasesHeld(cfg, w)
    requires r in w.waiters && w.waiters[r].phase.Done? && r in w.handedOut
    ensures var n, first, exit := |w.handedOut[r]|, w.handedOut[r][0], w.waiters[r].phase.at;
            (n - 1) * cfg.leaseMs <= exit - first && (exit < first + cfg.leaseMs ==> n == 1)
  {
    var times := w.handedOut[r];
    SpacedSpread(times, cfg.leaseMs, |times| - 1);
    if |times| > 1 {
      SpacedSpread(times, cfg.leaseMs, 1);
      LaterThan(times, cfg.leaseMs, 1, |times| - 1);
    }
  }

  lemma {:induction false} LaterThan(times: seq<int>, gap: int, i: nat, j: nat)
    requires gap >= 0 && Spaced(times, gap) && i <= j < |times|
    ensures times[i] <= times[j]
    decreases j
  {
    if i == j {
    } else {
      LaterThan(times, gap, i, j - 1);
    }
  }

  // Who answered.

  predicate StoredBy(w: World, r: string, pi: string, code: int, body: string) {
    pi in w.devices && Response(r, pi, w.devices[pi].secretHash, code, body) in w.responses
  }

  /** Every answered row and every answer a waiter returned was stored by a respond step of the same
      Pi, presenting the hash fixed at registration. */
  ghost predicate AnswersSigned(w: World) {
    && (forall x: Response | x in w.responses :: x.pi in w.devices && w.devices[x.pi].secretHash == x.secretHash)
    && (forall r | r in w.calls && w.calls[r].status == Responded ::
          StoredBy(w, r, w.calls[r].pi, w.calls[r].code, w.calls[r].body))
    && (forall r | r in w.waiters && w.waiters[r].phase.Done? && w.waiters[r].phase.outcome.Returned? ::
          StoredBy(w, r, w.waiters[r].pi, w.waiters[r].phase.outcome.code, w.waiters[r].phase.outcome.body))
  }

  /** A registered Pi keeps the secret hash it registered with. */
  lemma HashNeverChanges(cfg: Config, w: World, s: Step)
    requires Enabled(cfg, w, s)
    ensures forall pi | pi in w.devices ::
              pi in Next(cfg, w, s).devices && Next(cfg, w, s).devices[pi].secretHash == w.devices[pi].secretHash
    ensures w.responses <= Next(cfg, w, s).responses
  {
  }

  lemma AnsweredRowStaysSigned(cfg: Config, w: World, s: Step, r: string)
    requires AnswersSigned(w) && Enabled(cfg, w, s)
    requires r in Next(cfg, w, s).calls && Next(cfg, w, s).calls[r].status == Responded
    ensures var w' := Next(cfg, w, s);
            StoredBy(w', r, w'.calls[r].pi, w'.calls[r].code, w'.calls[r].body)
  {
    HashNeverChanges(cfg, w, s);
  }

  lemma FinishedWaitStaysSigned(cfg: Config, w: World, s: Step, r: string)
    requires AnswersSigned(w) && Enabled(cfg, w, s)
    requires var w' := Next(cfg, w, s);
             r in w'.waiters && w'.waiters[r].phase.Done? && w'.waiters[r].phase.outcome.Returned?
    ensures var w' := Next(cfg, w, s);
            StoredBy(w', r, w'.waiters[r].pi, w'.waiters[r].phase.outcome.code, w'.waiters[r].phase.outcome.body)
  {
    HashNeverChanges(cfg, w, s);
  }

  lemma AnswersStaySigned(cfg: Config, w: World, s: Step)
    requires AnswersSigned(w) && Enabled(cfg, w, s)
    ensures AnswersSigned(Next(cfg, w, s))
  {
    hide StoredBy, Enabled;
    var w' := Next(cfg, w, s);
    assert forall x: Response | x in w'.responses ::
             x.pi in w'.devices && w'.devices[x.pi].secretHash == x.secretHash by {
      SignaturesStay(cfg, w, s);
    }
    forall r | r in w'.calls && w'.calls[r].status == Responded
      ensures StoredBy(w', r, w'.calls[r].pi, w'.calls[r].code, w'.calls[r].body)
    {
      AnsweredRowStaysSigned(cfg, w, s, r);
    }
    forall r | r in w'.waiters && w'.waiters[r].phase.Done? && w'.waiters[r].phase.outcome.Returned?
      ensures StoredBy(w', r, w'.waiters[r].pi, w'.waiters[r].phase.outcome.code, w'.waiters[r].phase.outcome.body)
    {
      FinishedWaitStaysSigned(cfg, w, s, r);
    }
  }

  lemma SignaturesStay(cfg: Config, w: World, s: Step)
    requires AnswersSigned(w) && Enabled(cfg, w, s)
    ensures var w' := Next(cfg, w, s);
            forall x: Response | x in w'.responses :: x.pi in w'.devices && w'.devices[x.pi].secretHash == x.secretHash
  {
    HashNeverChanges(cfg, w, s);
  }

  // How long a wait lasts, and what cleanup may delete.

  /** Each look is a sleep after the one before it, and none starts after the deadline. */
  predicate OnSchedule(cfg: Config, clock: int, x: Waiter) {
    && (x.phase.Enqueued? ==> x.looks == 0)
    && (x.phase.Checking? ==> clock >= x.startedAt + LOOK_PERIOD_MS * x.looks)
    && (x.phase.Looking? ==> clock >= x.startedAt + LOOK_PERIOD_MS * (x.looks - 1))
    && (x.phase.Sleeping? ==> x.phase.until >= x.startedAt + LOOK_PERIOD_MS * x.looks)
    && LOOK_PERIOD_MS * (x.looks - 1) < cfg.timeoutMs
  }

  ghost predicate AllOnSchedule(cfg: Config, w: World) {
    forall r | r in w.waiters :: OnSchedule(cfg, w.clock, w.waiters[r])
  }

  lemma AllStayOnSchedule(cfg: Config, w: World, s: Step)
    requires ValidConfig(cfg) && AllOnSchedule(cfg, w) && Enabled(cfg, w, s)
    ensures AllOnSchedule(cfg, Next(cfg, w, s))
  {
  }

  /** A wait looks at its row at most ceil(timeout / 150) times. */
  lemma LooksBounded(cfg: Config, w: World, r: string)
    requires AllOnSchedule(cfg, w) && r in w.waiters
    ensures w.waiters[r].looks <= (cfg.timeoutMs + LOOK_PERIOD_MS - 1) / LOOK_PERIOD_MS
  {
    assert OnSchedule(cfg, w.clock, w.waiters[r]);
  }

  /** The row of an unfinished wait is there until the retention time has passed since it was inserted,
      and it is pending or answered, never expired. */
  predicate RowKept(cfg: Config, w: World, r: string)
    requires r in w.waiters
  {
    var x := w.waiters[r];
    && x.insertedAt <= w.clock
    && (!x.phase.Done? ==>
          if r in w.calls
          then w.calls[r].status != Expired && (w.calls[r].status == Responded ==> w.calls[r].updatedAt >= x.insertedAt)
          else w.clock > x.insertedAt + cfg.retentionMs)
    && (x.phase.Done? ==> x.phase.outcome != SawExpired)
    && (x.phase.Done? && x.phase.outcome == NotFound ==> x.phase.at > x.insertedAt + cfg.retentionMs)
  }

  ghost predicate RowsKept(cfg: Config, w: World) {
    forall r | r in w.waiters :: RowKept(cfg, w, r)
  }

  lemma EnqueueKeepsRow(cfg: Config, w: World, s: Step, r: string)
    requires WaitersClosed(w) && RowsKept(cfg, w) && Enabled(cfg, w, s)
    requires s.Enqueue?
    requires r in Next(cfg, w, s).waiters
    ensures RowKept(cfg, Next(cfg, w, s), r)
  {
    hide Authentic, SeenDevice, Online, IsNextClaim;
    if r in w.waiters {
      assert RowKept(cfg, w, r);
    }
  }

  lemma LookKeepsRow(cfg: Config, w: World, s: Step, r: string)
    requires WaitersClosed(w) && RowsKept(cfg, w) && Enabled(cfg, w, s)
    requires s.Look?
    requires r in Next(cfg, w, s).waiters
    ensures RowKept(cfg, Next(cfg, w, s), r)
  {
    hide Authentic, SeenDevice, Online, IsNextClaim;
    if r in w.waiters {
      assert RowKept(cfg, w, r);
    }
  }

  lemma PhoneStepsKeepRow(cfg: Config, w: World, s: Step, r: string)
    requires WaitersClosed(w) && RowsKept(cfg, w) && Enabled(cfg, w, s)
    requires !IsPiStep(s) && !s.Enqueue? && !s.Look?
    requires r in Next(cfg, w, s).waiters
    ensures RowKept(cfg, Next(cfg, w, s), r)
  {
    hide Authentic, SeenDevice, Online, IsNextClaim;
    if r in w.waiters {
      assert RowKept(cfg, w, r);
    }
  }

  lemma PiStepsKeepRow(cfg: Config, w: World, s: Step, r: string)
    requires WaitersClosed(w) && RowsKept(cfg, w) && Enabled(cfg, w, s)
    requires IsPiStep(s)
    requires r in Next(cfg, w, s).waiters
    ensures RowKept(cfg, Next(cfg, w, s), r)
  {
    hide Authentic, SeenDevice, Online, IsNextClaim;
    if r in w.waiters {
      assert RowKept(cfg, w, r);
    }
  }

  lemma RowStaysKept(cfg: Config, w: World, s: Step, r: string)
    requires WaitersClosed(w) && RowsKept(cfg, w) && Enabled(cfg, w, s)
    requires r in Next(cfg, w, s).waiters
    ensures RowKept(cfg, Next(cfg, w, s), r)
  {
    hide Next, Enabled, WaitersClosed, RowsKept, RowKept;
    if IsPiStep(s) {
      PiStepsKeepRow(cfg, w, s, r);
    } else if s.Enqueue? {
      EnqueueKeepsRow(cfg, w, s, r);
    } else if s.Look? {
      LookKeepsRow(cfg, w, s, r);
    } else {
      PhoneStepsKeepRow(cfg, w, s, r);
    }
  }

  /** With the timeout no longer than the retention, a wait that starts when its row is inserted is
      never told before its deadline that the row is gone. */
  lemma NotFoundOnlyAfterDeadline(cfg: Config, w: World, r: string)
    requires RowsKept(cfg, w) && cfg.timeoutMs <= cfg.retentionMs
    requires r in w.waiters && w.waiters[r].startedAt == w.waiters[r].insertedAt
    ensures var x := w.waiters[r];
            && (x.phase.Done? && x.phase.outcome == NotFound ==> x.phase.at > x.startedAt + cfg.timeoutMs)
            && (!x.phase.Done? && w.clock <= x.startedAt + cfg.timeoutMs ==> r in w.calls)
  {
    assert RowKept(cfg, w, r);
  }

  // All of it, over all runs.

  ghost predicate Sound(cfg: Config, w: World) {
    WaitersClosed(w) && LeasesHeld(cfg, w) && AnswersSigned(w) && AllOnSchedule(cfg, w) && RowsKept(cfg, w)
  }

  lemma SoundStep(cfg: Config, w: World, s: Step)
    requires ValidConfig(cfg) && Sound(cfg, w) && Enabled(cfg, w, s)
    ensures Sound(cfg, Next(cfg, w, s))
  {
    hide Next, Enabled, WaitersClosed, LeasesHeld, AnswersSigned, AllOnSchedule, RowKept;
    WaitersStayClosed(cfg, w, s);
    LeasesStayHeld(cfg, w, s);
    AnswersStaySigned(cfg, w, s);
    AllStayOnSchedule(cfg, w, s);
    forall r | r in Next(cfg, w, s).waiters
      ensures RowKept(cfg, Next(cfg, w, s), r)
    {
      RowStaysKept(cfg, w, s, r);
    }
  }

  lemma {:induction false} EveryRunIsSound(cfg: Config, w: World, steps: seq<Step>)
    requires ValidConfig(cfg) && Sound(cfg, w) && EnabledRun(cfg, w, steps)
    ensures Sound(cfg, Run(cfg, w, steps))
    decreases |steps|
  {
    hide Next, Enabled, Sound;
    if steps == [] {
    } else {
      SoundStep(cfg, w, steps[0]);
      EveryRunIsSound(cfg, Next(cfg, w, steps[0]), steps[1..]);
    }
  }

  /** From an empty relay, in every interleaving: a finished wait bounds the deliveries of its request
      and is never delivered again, and an answer it returned is signed by its own Pi. */
  lemma RelayGuarantees(cfg: Config, clock: int, before: seq<Step>, after: seq<Step>, r: string)
    requires ValidConfig(cfg) && EnabledRun(cfg, Start(clock), before)
    requires EnabledRun(cfg, Run(cfg, Start(clock), before), after)
    ensures var w := Run(cfg, Start(clock), before);
            var w' := Run(cfg, w, after);
            r in w.waiters && w.waiters[r].phase.Done? ==>
              var x := w.waiters[r];
              && r in w'.waiters && w'.waiters[r] == x && Times(w', r) == Times(w, r)
              && (Times(w, r) != [] ==>
                    (|Times(w, r)| - 1) * cfg.leaseMs <= x.phase.at - Times(w, r)[0])
              && (x.phase.outcome.Returned? ==> StoredBy(w', r, x.pi, x.phase.outcome.code, x.phase.outcome.body))
              && x.looks <= (cfg.timeoutMs + LOOK_PERIOD_MS - 1) / LOOK_PERIOD_MS
  {
    hide Next, Enabled, RowKept, StoredBy;
    var w := Run(cfg, Start(clock), before);
    assert Sound(cfg, Start(clock));
    EveryRunIsSound(cfg, Start(clock), before);
    EveryRunIsSound(cfg, w, after);
    if r in w.waiters && w.waiters[r].phase.Done? {
      NoDeliveryAfterExit(cfg, w, after, r);
      if r in w.handedOut {
        DeliveriesBounded(cfg, w, r);
      }
      LooksBounded(cfg, w, r);
    }
  }

  // Three runs that happen.

  const ONE_SECOND := Config(1000, 1000, 5000, 60000, "bootstrap")
  const THE_PI := Credentials("pi", "hash", Some("bootstrap"), "bag")

  lemma {:induction false} RunAppends(cfg: Config, w: World, steps: seq<Step>, step: Step)
    requires EnabledRun(cfg, w, steps) && Enabled(cfg, Run(cfg, w, steps), step)
    ensures EnabledRun(cfg, w, steps + [step])
    ensures Run(cfg, w, steps + [step]) == Next(cfg, Run(cfg, w, steps), step)
    decreases |steps|
  {
    hide Next, Enabled;
    if steps == [] {
      assert Run(cfg, Next(cfg, w, step), [step][1..]) == Next(cfg, w, step);
    } else {
      assert (steps + [step])[1..] == steps[1..] + [step];
      RunAppends(cfg, Next(cfg, w, steps[0]), steps[1..], step);
    }
  }

  const KNOWN_PI: Devices := map["pi" := Device("hash", "bag", 0, 0, 0)]
  const FRESH_CALL := NewCall("pi", "sync", "token", "rows", 0)

  const DELIVERED := World(
    KNOWN_PI, map["r" := Leased(FRESH_CALL, 0, ONE_SECOND)], 0, map["r" := Waiter("pi", 0, 0, 0, Enqueued)],
    {"r"}, map["r" := [0]], {})

  /** The Pi registers, a request is enqueued, and the Pi is handed it. */
  const TO_DELIVERY: seq<Step> := [
    PollStart(THE_PI), Enqueue("r", "pi", "sync", "token", "rows", 0), PollRound(THE_PI, Some("r"))]

  lemma RunOfThree(cfg: Config, w: World, steps: seq<Step>, w1: World, w2: World)
    requires |steps| == 3 && Enabled(cfg, w, steps[0]) && Next(cfg, w, steps[0]) == w1
    requires Enabled(cfg, w1, steps[1]) && Next(cfg, w1, steps[1]) == w2 && Enabled(cfg, w2, steps[2])
    ensures EnabledRun(cfg, w, steps) && Run(cfg, w, steps) == Next(cfg, w2, steps[2])
  {
    hide Next, Enabled;
    var none: seq<Step> := [];
    RunAppends(cfg, w, none, steps[0]);
    RunAppends(cfg, w, [steps[0]], steps[1]);
    RunAppends(cfg, w, [steps[0], steps[1]], steps[2]);
    assert none + [steps[0]] == [steps[0]] && [steps[0]] + [steps[1]] == [steps[0], steps[1]];
    assert [steps[0], steps[1]] + [steps[2]] == steps;
  }

  lemma DeliveryHappens()
    ensures EnabledRun(ONE_SECOND, Start(0), TO_DELIVERY)
    ensures Run(ONE_SECOND, Start(0), TO_DELIVERY) == DELIVERED
  {
    var cfg := ONE_SECOND;
    var registered := World(KNOWN_PI, map[], 0, map[], {}, map[], {});
    var enqueued := World(KNOWN_PI, map["r" := FRESH_CALL], 0, map["r" := Waiter("pi", 0, 0, 0, Enqueued)],
                          {"r"}, map[], {});
    assert Next(cfg, Start(0), TO_DELIVERY[0]) == registered;
    assert Next(cfg, registered, TO_DELIVERY[1]) == enqueued;
    assert SeenDevice(KNOWN_PI, THE_PI, 0) == KNOWN_PI;
    assert IsNextClaim(enqueued.calls, "pi", 0, Some("r"));
    assert Enabled(cfg, enqueued, TO_DELIVERY[2]);
    assert Times(enqueued, "r") + [0] == [0];
    assert AfterClaim(cfg, enqueued, "r").calls == DELIVERED.calls;
    assert AfterClaim(cfg, enqueued, "r").handedOut == DELIVERED.handedOut;
    assert AfterClaim(cfg, enqueued, "r") == DELIVERED;
    assert Next(cfg, enqueued, TO_DELIVERY[2]) == DELIVERED;
    RunOfThree(cfg, Start(0), TO_DELIVERY, registered, enqueued);
  }

  const OVERDUE := DELIVERED.(clock := 1000, waiters := map["r" := Waiter("pi", 0, 0, 0, GivingUp)])

  /** The waiter comes to its deadline without an answer. */
  const TO_DEADLINE: seq<Step> := [StartWait("r"), Tick(1000), Check("r")]

  lemma DeadlineHappens()
    ensures EnabledRun(ONE_SECOND, DELIVERED, TO_DEADLINE)
    ensures Run(ONE_SECOND, DELIVERED, TO_DEADLINE) == OVERDUE
  {
    var cfg := ONE_SECOND;
    var waiting := DELIVERED.(waiters := map["r" := Waiter("pi", 0, 0, 0, Checking)]);
    var later := waiting.(clock := 1000);
    assert Next(cfg, DELIVERED, TO_DEADLINE[0]) == waiting;
    assert Next(cfg, waiting, TO_DEADLINE[1]) == later;
    assert Next(cfg, later, TO_DEADLINE[2]) == OVERDUE;
    RunOfThree(cfg, DELIVERED, TO_DEADLINE, waiting, later);
  }

  lemma {:induction false} RunJoins(cfg: Config, w: World, a: seq<Step>, b: seq<Step>)
    requires EnabledRun(cfg, w, a) && EnabledRun(cfg, Run(cfg, w, a), b)
    ensures EnabledRun(cfg, w, a + b) && Run(cfg, w, a + b) == Run(cfg, Run(cfg, w, a), b)
    decreases |a|
  {
    hide Next, Enabled;
    if a == [] {
      assert a + b == b;
    } else {
      assert (a + b)[1..] == a[1..] + b;
      RunJoins(cfg, Next(cfg, w, a[0]), a[1..], b);
    }
  }

  /** From an empty relay, a request can be handed to its Pi once and reach its deadline unanswered. */
  lemma OverdueHappens()
    ensures EnabledRun(ONE_SECOND, Start(0), TO_DELIVERY + TO_DEADLINE)
    ensures Run(ONE_SECOND, Start(0), TO_DELIVERY + TO_DEADLINE) == OVERDUE
  {
    hide Next, Enabled;
    DeliveryHappens();
    DeadlineHappens();
    RunJoins(ONE_SECOND, Start(0), TO_DELIVERY, TO_DEADLINE);
  }

  const GAVE_UP := OVERDUE.(
    calls := WithExpired(OVERDUE.calls, "r", 1000), waiters := map["r" := Waiter("pi", 0, 0, 0, Done(TimedOut, 1000))])

  lemma GiveUpHappens()
    ensures Enabled(ONE_SECOND, OVERDUE, GiveUp("r")) && Next(ONE_SECOND, OVERDUE, GiveUp("r")) == GAVE_UP
    ensures !Delivers(ONE_SECOND, OVERDUE, GiveUp("r"), "r")
  {
  }

  const LATE_ANSWER := Respond(THE_PI.(bootstrap := None), "r", 200, "done")

  /** A row that has expired is answered after all: its waiter was told that it timed out. */
  lemma ExpiredRowAnswered()
    ensures var steps := [GiveUp("r"), LATE_ANSWER];
            && EnabledRun(ONE_SECOND, OVERDUE, steps)
            && Next(ONE_SECOND, OVERDUE, steps[0]) == GAVE_UP && GAVE_UP.calls["r"].status == Expired
            && var w := Run(ONE_SECOND, OVERDUE, steps);
               "r" in w.calls && w.calls["r"].status == Responded
  {
    GiveUpHappens();
    var none: seq<Step> := [];
    var answered := Next(ONE_SECOND, GAVE_UP, LATE_ANSWER);
    assert Enabled(ONE_SECOND, GAVE_UP, LATE_ANSWER);
    assert "r" in answered.calls && answered.calls["r"].status == Responded;
    hide Next, Enabled;
    RunAppends(ONE_SECOND, OVERDUE, none, GiveUp("r"));
    RunAppends(ONE_SECOND, OVERDUE, none + [GiveUp("r")], LATE_ANSWER);
    assert none + [GiveUp("r")] + [LATE_ANSWER] == [GiveUp("r"), LATE_ANSWER];
  }

  /** A row that has been answered expires: its waiter is told that it timed out. */
  lemma AnsweredRowExpires()
    ensures var steps := [LATE_ANSWER, GiveUp("r")];
            && EnabledRun(ONE_SECOND, OVERDUE, steps)
            && var w, w' := Next(ONE_SECOND, OVERDUE, steps[0]), Run(ONE_SECOND, OVERDUE, steps);
               && "r" in w.calls && w.calls["r"].status == Responded
               && "r" in w'.calls && w'.calls["r"].status == Expired && InPhase(w', "r", Done(TimedOut, 1000))
  {
    var none: seq<Step> := [];
    var answered := Next(ONE_SECOND, OVERDUE, LATE_ANSWER);
    assert Enabled(ONE_SECOND, OVERDUE, LATE_ANSWER) && Enabled(ONE_SECOND, answered, GiveUp("r"));
    assert "r" in answered.calls && answered.calls["r"].status == Responded;
    var expired := Next(ONE_SECOND, answered, GiveUp("r"));
    assert "r" in expired.calls && expired.calls["r"].status == Expired && InPhase(expired, "r", Done(TimedOut, 1000));
    hide Next, Enabled;
    RunAppends(ONE_SECOND, OVERDUE, none, LATE_ANSWER);
    RunAppends(ONE_SECOND, OVERDUE, none + [LATE_ANSWER], GiveUp("r"));
    assert none + [LATE_ANSWER] + [GiveUp("r")] == [LATE_ANSWER, GiveUp("r")];
  }
}
