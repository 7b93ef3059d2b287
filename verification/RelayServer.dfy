/** The relay server: its tables, its locked blocks, and the two polling loops. Whatever the other threads do
    in the gaps of a loop, everything that happens to the object is a run of the step relation in `RelayRuns`. */
module RelayServer {
  import opened Inventory
  import opened RelayBlocks
  import opened RelayRuns

  /** What the other threads do in one round of a loop: between reading the clock and the locked block, and
      between the block and reading the clock again. The sleep falls in the second. */
  datatype Gap = Gap(beforeBlock: seq<Step>, afterBlock: seq<Step>)

  function CeilDiv(n: int, d: int): int
    requires d > 0
  {
    (n + d - 1) / d
  }

  /** A step that is not the phone thread's waiting for `mine`. */
  predicate Foreign(step: Step, mine: Option<string>) {
    match step
    case StartWait(r) => mine != Some(r)
    case Check(r) => mine != Some(r)
    case Look(r) => mine != Some(r)
    case Wake(r) => mine != Some(r)
    case GiveUp(r) => mine != Some(r)
    case _ => true
  }

  lemma OthersLeaveAlone(cfg: Config, w: World, step: Step, r: string)
    requires WaitersClosed(w) && Enabled(cfg, w, step) && Foreign(step, Some(r)) && r in w.waiters
    ensures r in Next(cfg, w, step).waiters && Next(cfg, w, step).waiters[r] == w.waiters[r]
  {
    hide Authentic, SeenDevice, Online, IsNextClaim, LookOutcome, LookCalls;
  }

  lemma StillForeign(step: Step, taken: Step, mine: Option<string>)
    requires Foreign(step, mine) && (taken == step || (taken.PollRound? && step.PollRound?))
    ensures Foreign(taken, mine)
  {
  }

  // What a look and a poll round find, on the tables themselves.

  /** The row is there for the Pi, nothing has become of it yet, and the Pi has been seen lately. */
  predicate StillWaiting(cfg: Config, w: World, r: string, pi: string) {
    && r in w.calls && w.calls[r].pi == pi && w.calls[r].status == Pending
    && pi in w.devices && w.clock <= w.devices[pi].lastSeenAt + cfg.onlineWindowMs
  }

  /** The answer a look at these tables gives at once. */
  predicate Answers(cfg: Config, w: World, r: string, pi: string, outcome: Outcome) {
    match outcome
    case NotFound => r !in w.calls || w.calls[r].pi != pi
    case Returned(code, body) =>
      && r in w.calls && w.calls[r].pi == pi && w.calls[r].status == Responded
      && w.calls[r].code == code && w.calls[r].body == body
    case SawExpired => r in w.calls && w.calls[r].pi == pi && w.calls[r].status == Expired
    case WentOffline =>
      && r in w.calls && w.calls[r].pi == pi && w.calls[r].status == Pending
      && (pi !in w.devices || w.clock > w.devices[pi].lastSeenAt + cfg.onlineWindowMs)
    case TimedOut => false
  }

  lemma LookTells(cfg: Config, w: World, r: string, pi: string)
    ensures var seen := LookOutcome(w.devices, w.calls, r, pi, w.clock, cfg);
            && (seen.None? <==> StillWaiting(cfg, w, r, pi))
            && (forall outcome :: seen == Some(outcome) <==> Answers(cfg, w, r, pi, outcome))
  {
  }

  /** Registered with this secret, or not registered and presenting the bootstrap secret. */
  predicate MayAct(cfg: Config, w: World, cred: Credentials) {
    && cred.pi != "" && cred.secretHash != ""
    && (cred.pi in w.devices ==> w.devices[cred.pi].secretHash == cred.secretHash)
    && (cred.pi !in w.devices ==> cfg.bootstrapSecret != "" && cred.bootstrap == Some(cfg.bootstrapSecret))
  }

  /** The request is waiting for this Pi, and nobody holds a lease on it. */
  predicate Waits(calls: Calls, now: int, r: string, pi: string) {
    r in calls && calls[r].pi == pi && calls[r].status == Pending && calls[r].leaseExpiresAt <= now
  }

  lemma WaitingIsThere(calls: Calls, now: int, r: string, pi: string)
    requires Waits(calls, now, r, pi)
    ensures r in calls
  {
  }

  /** The looks `at`, in order, are steps of the run, and each of them found the request still waiting. */
  ghost predicate LooksWaited(cfg: Config, start: int, trace: seq<Step>, at: seq<nat>, r: string, pi: string) {
    && (forall i, j | 0 <= i < j < |at| :: at[i] < at[j])
    && (forall j | 0 <= j < |at| ::
          && at[j] < |trace| && trace[at[j]] == Look(r)
          && StillWaiting(cfg, Run(cfg, Start(start), trace[..at[j]]), r, pi))
  }

  /** The steps taken so far stay what they were. */
  lemma LooksStay(cfg: Config, start: int, trace: seq<Step>, longer: seq<Step>, at: seq<nat>, r: string, pi: string)
    requires LooksWaited(cfg, start, trace, at, r, pi) && trace <= longer
    ensures LooksWaited(cfg, start, longer, at, r, pi)
  {
    forall j | 0 <= j < |at|
      ensures trace[..at[j]] == longer[..at[j]]
    {
    }
  }

  lemma OneMoreLook(cfg: Config, start: int, trace: seq<Step>, at: seq<nat>, r: string, pi: string)
    requires LooksWaited(cfg, start, trace, at, r, pi)
    requires StillWaiting(cfg, Run(cfg, Start(start), trace), r, pi)
    ensures LooksWaited(cfg, start, trace + [Look(r)], at + [|trace|], r, pi)
  {
    var longer, more := trace + [Look(r)], at + [|trace|];
    LooksStay(cfg, start, trace, longer, at, r, pi);
    assert longer[..|trace|] == trace;
    forall j | 0 <= j < |more|
      ensures more[j] < |longer| && longer[more[j]] == Look(r)
      ensures StillWaiting(cfg, Run(cfg, Start(start), longer[..more[j]]), r, pi)
    {
      if j < |at| {
        assert more[j] == at[j];
      }
    }
  }

  /** The Pi may act, and there is nothing for it to be handed. */
  ghost predicate NothingToDo(cfg: Config, w: World, cred: Credentials) {
    MayAct(cfg, w, cred) && forall r :: !Waits(w.calls, w.clock, r, cred.pi)
  }

  /** The rounds `at`, in order, are steps of the run, and each of them had nothing to hand out. */
  ghost predicate RoundsIdle(cfg: Config, start: int, trace: seq<Step>, at: seq<nat>, cred: Credentials) {
    && (forall i, j | 0 <= i < j < |at| :: at[i] < at[j])
    && (forall j | 0 <= j < |at| ::
          && at[j] < |trace| && trace[at[j]] == PollRound(cred, None)
          && NothingToDo(cfg, Run(cfg, Start(start), trace[..at[j]]), cred))
  }

  lemma RoundsStay(cfg: Config, start: int, trace: seq<Step>, longer: seq<Step>, at: seq<nat>, cred: Credentials)
    requires RoundsIdle(cfg, start, trace, at, cred) && trace <= longer
    ensures RoundsIdle(cfg, start, longer, at, cred)
  {
    forall j | 0 <= j < |at|
      ensures trace[..at[j]] == longer[..at[j]]
    {
    }
  }

  lemma OneMoreRound(cfg: Config, start: int, trace: seq<Step>, at: seq<nat>, cred: Credentials)
    requires RoundsIdle(cfg, start, trace, at, cred)
    requires NothingToDo(cfg, Run(cfg, Start(start), trace), cred)
    ensures RoundsIdle(cfg, start, trace + [PollRound(cred, None)], at + [|trace|], cred)
  {
    var longer, more := trace + [PollRound(cred, None)], at + [|trace|];
    RoundsStay(cfg, start, trace, longer, at, cred);
    assert longer[..|trace|] == trace;
    forall j | 0 <= j < |more|
      ensures more[j] < |longer| && longer[more[j]] == PollRound(cred, None)
      ensures NothingToDo(cfg, Run(cfg, Start(start), longer[..more[j]]), cred)
    {
      if j < |at| {
        assert more[j] == at[j];
      }
    }
  }

  class Relay {
    var devices: Devices
    var calls: Calls
    var clock: int
    var waiters: map<string, Waiter>
    var used: set<string>
    ghost var handedOut: map<string, seq<int>>
    ghost var responses: set<Response>
    ghost var trace: seq<Step>
    const cfg: Config
    ghost const start: int

    constructor (cfg: Config, clock: int)
      ensures Valid() && trace == []
      ensures this.cfg == cfg && this.clock == clock && devices == map[] && calls == map[] && waiters == map[]
    {
      this.cfg, this.clock, devices, calls, waiters, used := cfg, clock, map[], map[], map[], {};
      handedOut, responses, trace, start := map[], {}, [], clock;
    }

    ghost function Seen(): World
      reads this
    {
      World(devices, calls, clock, waiters, used, handedOut, responses)
    }

    /** All that ever happened is a run of steps, from the empty relay. */
    ghost predicate Valid()
      reads this
    {
      EnabledRun(cfg, Start(start), trace) && Seen() == Run(cfg, Start(start), trace)
    }

    /** The relay as it was before its step `k`. */
    ghost function WorldAt(k: nat): World
      requires k <= |trace|
      reads this
    {
      Run(cfg, Start(start), trace[..k])
    }

    /** The block was just this step. */
    twostate predicate Took(step: Step)
      reads this
    {
      && Enabled(cfg, old(Seen()), step) && Valid()
      && trace == old(trace) + [step] && Seen() == Next(cfg, old(Seen()), step)
    }

    /** Notes the step that leads on from `before`, where the trace has led so far. */
    ghost method Note(before: World, step: Step)
      requires EnabledRun(cfg, Start(start), trace) && before == Run(cfg, Start(start), trace)
      requires Enabled(cfg, before, step)
      modifies this`trace
      ensures trace == old(trace) + [step]
      ensures EnabledRun(cfg, Start(start), trace) && Run(cfg, Start(start), trace) == Next(cfg, before, step)
    {
      hide Next, Enabled;
      RunAppends(cfg, Start(start), trace, step);
      trace := trace + [step];
    }

    lemma ValidIsSound()
      requires Valid() && ValidConfig(cfg)
      ensures Sound(cfg, Seen())
    {
      assert Sound(cfg, Start(start));
      EveryRunIsSound(cfg, Start(start), trace);
    }

    // Parts of blocks.

    /** Deletes the finished rows last touched longer ago than the retention time. */
    method CleanupOldRequests()
      modifies this`calls
      ensures calls == Cleanup(old(calls), clock, cfg)
      ensures forall r :: r in calls <==>
                r in old(calls)
                && (old(calls)[r].status == Pending || clock <= old(calls)[r].updatedAt + cfg.retentionMs)
      ensures forall r | r in calls :: calls[r] == old(calls)[r]
    {
      var cutoff := clock - cfg.retentionMs;
      var stale := set r | r in calls && calls[r].updatedAt < cutoff && calls[r].status != Pending;
      calls := calls - stale;
    }

    /** Lets in a Pi that is registered with this secret, or registers it if it presents the bootstrap secret;
        either way it is seen now. */
    method AuthenticatePi(cred: Credentials) returns (ok: bool)
      modifies this`devices
      ensures ok == Authentic(old(devices), cred, cfg)
      ensures ok == MayAct(cfg, old(Seen()), cred)
      ensures devices == if ok then SeenDevice(old(devices), cred, clock) else old(devices)
      ensures ok ==>
                && devices.Keys == old(devices).Keys + {cred.pi}
                && (forall pi | pi in devices && pi != cred.pi :: devices[pi] == old(devices)[pi])
                && devices[cred.pi].lastSeenAt == devices[cred.pi].updatedAt == clock
                && devices[cred.pi].secretHash == cred.secretHash
                && devices[cred.pi].createdAt == (if cred.pi in old(devices) then old(devices)[cred.pi].createdAt
                                                  else clock)
                && (cred.bootstrap.Some? ==> devices[cred.pi].name == cred.name)
                && (cred.bootstrap.None? ==> devices[cred.pi].name == old(devices)[cred.pi].name)
    {
      if cred.pi == "" || cred.secretHash == "" {
        return false;
      }
      if cred.pi in devices {
        if devices[cred.pi].secretHash != cred.secretHash {
          return false;
        }
        devices := devices[cred.pi := devices[cred.pi].(updatedAt := clock, lastSeenAt := clock)];
      } else {
        if cfg.bootstrapSecret == "" || cred.bootstrap != Some(cfg.bootstrapSecret) {
          return false;
        }
        devices := devices[cred.pi := Device(cred.secretHash, cred.name, clock, clock, clock)];
      }
      if cred.bootstrap.Some? {
        devices := devices[cred.pi := devices[cred.pi].(name := cred.name, updatedAt := clock, lastSeenAt := clock)];
      }
      ok := true;
    }

    /** Hands out the oldest pending request of this Pi whose lease has run out. */
    method ClaimPendingRequest(pi: string) returns (found: Option<string>)
      modifies this`calls
      ensures IsNextClaim(old(calls), pi, clock, found)
      ensures found.None? <==> forall r :: !Waits(old(calls), clock, r, pi)
      ensures found.None? ==> calls == old(calls)
      ensures found.Some? ==>
                && Waits(old(calls), clock, found.value, pi)
                && (forall r | Waits(old(calls), clock, r, pi) ::
                      old(calls)[found.value].createdAt <= old(calls)[r].createdAt)
                && calls == old(calls)[found.value := old(calls)[found.value].(
                     leaseExpiresAt := clock + cfg.leaseMs, updatedAt := clock)]
    {
      found := None;
      var todo := calls.Keys;
      while todo != {}
        invariant todo <= calls.Keys
        invariant found.Some? ==> Claimable(calls, found.value, pi, clock)
        invariant forall r | r !in todo && Claimable(calls, r, pi, clock) ::
                    found.Some? && calls[found.value].createdAt <= calls[r].createdAt
      {
        var r :| r in todo;
        todo := todo - {r};
        if Claimable(calls, r, pi, clock) {
          if found.None? || calls[r].createdAt < calls[found.value].createdAt {
            found := Some(r);
          }
        }
      }
      assert forall r :: Claimable(calls, r, pi, clock) <==> Waits(calls, clock, r, pi);
      if found.Some? {
        calls := calls[found.value := Leased(calls[found.value], clock, cfg)];
      }
    }

    // The blocks.

    method Elapse(ms: nat)
      requires Valid()
      modifies this`clock, this`trace
      ensures Took(Tick(ms)) && clock == old(clock) + ms
    {
      Note(Seen(), Tick(ms));
      clock := clock + ms;
    }

    /** Cleans up, and inserts a fresh request unless its Pi is offline. */
    method EnqueueRequest(r: string, pi: string, kind: string, authorization: string, payload: string, stamp: int)
      returns (accepted: bool)
      requires Valid() && r !in used && stamp <= clock
      modifies this`calls, this`waiters, this`used, this`trace
      ensures Took(Enqueue(r, pi, kind, authorization, payload, stamp))
      ensures accepted <==> pi in devices && clock <= devices[pi].lastSeenAt + cfg.onlineWindowMs
      ensures forall q | q != r :: q in calls <==>
                q in old(calls)
                && (old(calls)[q].status == Pending || clock <= old(calls)[q].updatedAt + cfg.retentionMs)
      ensures forall q | q in calls && q != r :: calls[q] == old(calls)[q]
      ensures accepted ==>
                && r in calls && calls[r].pi == pi && calls[r].kind == kind && calls[r].authorization == authorization
                && calls[r].payload == payload && calls[r].status == Pending
                && calls[r].createdAt == calls[r].updatedAt == stamp && calls[r].leaseExpiresAt == 0
      ensures accepted ==> InPhase(Seen(), r, Enqueued) && waiters[r].pi == pi
    {
      Note(Seen(), Enqueue(r, pi, kind, authorization, payload, stamp));
      CleanupOldRequests();
      used := used + {r};
      if !Online(devices, pi, clock, cfg) {
        return false;
      }
      calls := calls[r := NewCall(pi, kind, authorization, payload, stamp)];
      waiters := waiters[r := Waiter(pi, clock, clock, 0, Enqueued)];
      accepted := true;
    }

    /** Reads the deadline. */
    method BeginWait(r: string)
      requires Valid() && InPhase(Seen(), r, Enqueued)
      modifies this`waiters, this`trace
      ensures Took(StartWait(r))
      ensures r in waiters && waiters[r] == old(waiters)[r].(startedAt := clock, phase := Checking)
    {
      Note(Seen(), StartWait(r));
      waiters := waiters[r := waiters[r].(startedAt := clock, phase := Checking)];
    }

    /** The loop condition. */
    method CheckDeadline(r: string) returns (go: bool)
      requires Valid() && InPhase(Seen(), r, Checking)
      modifies this`waiters, this`trace
      ensures Took(Check(r))
      ensures go <==> clock < old(waiters)[r].startedAt + cfg.timeoutMs
      ensures r in waiters && waiters[r] == if go
                then old(waiters)[r].(looks := old(waiters)[r].looks + 1, phase := Looking)
                else old(waiters)[r].(phase := GivingUp)
    {
      Note(Seen(), Check(r));
      go := clock < waiters[r].startedAt + cfg.timeoutMs;
      waiters := waiters[r :=
        if go then waiters[r].(looks := waiters[r].looks + 1, phase := Looking) else waiters[r].(phase := GivingUp)];
    }

    /** One look at the row; `None` means that the thread goes to sleep and looks again. */
    method LookAtRow(r: string) returns (seen: Option<Outcome>)
      requires Valid() && InPhase(Seen(), r, Looking)
      modifies this`calls, this`waiters, this`trace
      ensures Took(Look(r))
      ensures seen.None? ==> StillWaiting(cfg, old(Seen()), r, old(waiters)[r].pi)
      ensures seen.Some? ==> Answers(cfg, old(Seen()), r, old(waiters)[r].pi, seen.value)
      ensures r in waiters && waiters[r] == old(waiters)[r].(
                phase := if seen.Some? then Done(seen.value, clock) else Sleeping(clock + 150))
      ensures calls == if seen == Some(WentOffline)
                       then old(calls)[r := old(calls)[r].(status := Expired, updatedAt := clock)] else old(calls)
    {
      Note(Seen(), Look(r));
      LookTells(cfg, Seen(), r, waiters[r].pi);
      var x := waiters[r];
      seen := ReadRow(r, x.pi);
      waiters := waiters[r := x.(phase := if seen.Some? then Done(seen.value, clock) else Sleeping(clock + 150))];
    }

    method ReadRow(r: string, pi: string) returns (seen: Option<Outcome>)
      modifies this`calls
      ensures seen == LookOutcome(devices, old(calls), r, pi, clock, cfg)
      ensures calls == LookCalls(devices, old(calls), r, pi, clock, cfg)
    {
      if r !in calls || calls[r].pi != pi {
        return Some(NotFound);
      }
      match calls[r].status {
        case Responded => return Some(Returned(calls[r].code, calls[r].body));
        case Expired => return Some(SawExpired);
        case Pending =>
          if !Online(devices, pi, clock, cfg) {
            calls := calls[r := calls[r].(status := Expired, updatedAt := clock)];
            return Some(WentOffline);
          }
          return None;
      }
    }

    method WakeUp(r: string)
      requires Valid() && r in waiters && waiters[r].phase.Sleeping? && waiters[r].phase.until <= clock
      modifies this`waiters, this`trace
      ensures Took(Wake(r))
      ensures r in waiters && waiters[r] == old(waiters)[r].(phase := Checking)
    {
      Note(Seen(), Wake(r));
      waiters := waiters[r := waiters[r].(phase := Checking)];
    }

    /** Past the deadline: the row, if it is there, expires. */
    method ExpireRow(r: string)
      requires Valid() && InPhase(Seen(), r, GivingUp)
      modifies this`calls, this`waiters, this`trace
      ensures Took(GiveUp(r))
      ensures calls == if r in old(calls) then old(calls)[r := old(calls)[r].(status := Expired, updatedAt := clock)]
                       else old(calls)
      ensures r in waiters && waiters[r] == old(waiters)[r].(phase := Done(TimedOut, clock))
    {
      Note(Seen(), GiveUp(r));
      if r in calls {
        calls := calls[r := calls[r].(status := Expired, updatedAt := clock)];
      }
      waiters := waiters[r := waiters[r].(phase := Done(TimedOut, clock))];
    }

    /** The first block of a poll. */
    method StartPoll(cred: Credentials) returns (ok: bool)
      requires Valid()
      modifies this`devices, this`calls, this`trace
      ensures Took(PollStart(cred))
      ensures ok == MayAct(cfg, old(Seen()), cred)
      ensures forall r :: r in calls <==>
                r in old(calls)
                && (!ok || old(calls)[r].status == Pending || clock <= old(calls)[r].updatedAt + cfg.retentionMs)
      ensures forall r | r in calls :: calls[r] == old(calls)[r]
    {
      Note(Seen(), PollStart(cred));
      ok := AuthenticatePi(cred);
      if ok {
        CleanupOldRequests();
      }
    }

    method ClaimForPi(cred: Credentials) returns (ok: bool, found: Option<string>)
      modifies this`devices, this`calls
      ensures ok == Authentic(old(devices), cred, cfg) == MayAct(cfg, old(Seen()), cred)
      ensures devices == if ok then SeenDevice(old(devices), cred, clock) else old(devices)
      ensures ok ==> IsNextClaim(old(calls), cred.pi, clock, found)
      ensures found.Some? ==> ok && Waits(old(calls), clock, found.value, cred.pi)
      ensures found.Some? ==> forall r | Waits(old(calls), clock, r, cred.pi) ::
                old(calls)[found.value].createdAt <= old(calls)[r].createdAt
      ensures found.None? ==> !ok || forall r :: !Waits(old(calls), clock, r, cred.pi)
      ensures found.Some? ==> calls == old(calls)[found.value := old(calls)[found.value].(
                                         leaseExpiresAt := clock + cfg.leaseMs, updatedAt := clock)]
      ensures found.None? ==> calls == old(calls)
    {
      hide SeenDevice, MayAct, Waits;
      found := None;
      ok := AuthenticatePi(cred);
      if ok {
        found := ClaimPendingRequest(cred.pi);
      }
    }

    /** Of the requests that wait for the Pi at `before`, the oldest has been handed out and leased, and no
        other row has changed. */
    ghost predicate HandedOut(before: World, pi: string, r: string)
      reads this
    {
      && Waits(before.calls, before.clock, r, pi) && clock == before.clock
      && (forall q | Waits(before.calls, before.clock, q, pi) :: before.calls[r].createdAt <= before.calls[q].createdAt)
      && calls == before.calls[r := before.calls[r].(leaseExpiresAt := clock + cfg.leaseMs, updatedAt := clock)]
    }

    /** One round of a poll: a request that waits is handed out, the oldest first. */
    method PollOnce(cred: Credentials) returns (ok: bool, found: Option<string>)
      requires Valid()
      modifies this`devices, this`calls, this`handedOut, this`trace
      ensures Took(PollRound(cred, found))
      ensures ok == MayAct(cfg, old(Seen()), cred)
      ensures found.Some? ==> ok && HandedOut(old(Seen()), cred.pi, found.value)
      ensures found.None? ==> calls == old(calls) && (ok ==> NothingToDo(cfg, old(Seen()), cred))
    {
      hide SeenDevice, MayAct, Waits, EnabledRun, Run, IsNextClaim, Authentic;
      ghost var before := Seen();
      ok, found := ClaimForPi(cred);
      if found.Some? {
        WaitingIsThere(before.calls, clock, found.value, cred.pi);
        handedOut := handedOut[found.value := Times(before, found.value) + [clock]];
      }
      Note(before, PollRound(cred, found));
    }

    method PiRespond(cred: Credentials, r: string, code: int, body: string) returns (stored: bool)
      requires Valid() && cred.bootstrap.None? && 100 <= code <= 599
      modifies this`devices, this`calls, this`responses, this`trace
      ensures Took(Respond(cred, r, code, body))
      ensures stored == (MayAct(cfg, old(Seen()), cred) && r in old(calls) && old(calls)[r].pi == cred.pi)
      ensures calls == if stored then old(calls)[r := old(calls)[r].(status := Responded, code := code, body := body,
                                                                     updatedAt := clock, leaseExpiresAt := 0)]
                       else old(calls)
    {
      Note(Seen(), Respond(cred, r, code, body));
      var ok := AuthenticatePi(cred);
      if !ok || r !in calls || calls[r].pi != cred.pi {
        return false;
      }
      calls := calls[r := Answered(calls[r], code, body, clock)];
      responses := responses + {Response(r, cred.pi, cred.secretHash, code, body)};
      stored := true;
    }

    // The other threads.

    /** Lets some other thread take the step, if it is there to be taken. */
    method TakeForeign(step: Step, mine: Option<string>)
      requires Valid() && ValidConfig(cfg)
      modifies this
      ensures Valid() && old(trace) <= trace && clock >= old(clock)
      ensures mine.Some? && mine.value in old(waiters) ==>
                mine.value in waiters && waiters[mine.value] == old(waiters)[mine.value]
    {
      hide Next, Enabled, EnabledRun, Run, LeasesHeld, AnswersSigned, AllOnSchedule, RowsKept, Foreign;
      ValidIsSound();
      ghost var before, taken := Seen(), step;
      if !Foreign(step, mine) {
        return;
      }
      match step {
        case Tick(ms) => Elapse(ms);
        case Enqueue(r, pi, kind, authorization, payload, stamp) =>
          if r !in used && stamp <= clock {
            var _ := EnqueueRequest(r, pi, kind, authorization, payload, stamp);
          }
        case StartWait(r) =>
          if r in waiters && waiters[r].phase == Enqueued {
            BeginWait(r);
          }
        case Check(r) =>
          if r in waiters && waiters[r].phase == Checking {
            var _ := CheckDeadline(r);
          }
        case Look(r) =>
          if r in waiters && waiters[r].phase == Looking {
            var _ := LookAtRow(r);
          }
        case Wake(r) =>
          if r in waiters && waiters[r].phase.Sleeping? && waiters[r].phase.until <= clock {
            WakeUp(r);
          }
        case GiveUp(r) =>
          if r in waiters && waiters[r].phase == GivingUp {
            ExpireRow(r);
          }
        case PollStart(cred) => var _ := StartPoll(cred);
        case PollRound(cred, _) =>
          var _, found := PollOnce(cred);
          taken := PollRound(cred, found);
        case Respond(cred, r, code, body) =>
          if cred.bootstrap.None? && 100 <= code <= 599 {
            var _ := PiRespond(cred, r, code, body);
          }
      }
      if mine.Some? && mine.value in before.waiters && |trace| > |old(trace)| {
        StillForeign(step, taken, mine);
        OthersLeaveAlone(cfg, before, taken, mine.value);
      }
    }

    method Others(steps: seq<Step>, mine: Option<string>)
      requires Valid() && ValidConfig(cfg)
      modifies this
      ensures Valid() && old(trace) <= trace && clock >= old(clock)
      ensures mine.Some? && mine.value in old(waiters) ==>
                mine.value in waiters && waiters[mine.value] == old(waiters)[mine.value]
      ensures steps == [] ==> Seen() == old(Seen()) && trace == old(trace)
    {
      for k := 0 to |steps|
        invariant Valid() && old(trace) <= trace && clock >= old(clock)
        invariant mine.Some? && mine.value in old(waiters) ==>
                    mine.value in waiters && waiters[mine.value] == old(waiters)[mine.value]
        invariant k == 0 ==> Seen() == old(Seen()) && trace == old(trace)
      {
        TakeForeign(steps[k], mine);
      }
    }

    // The loops.

    lemma NoLooksYet(r: string, pi: string)
      ensures LooksWaited(cfg, start, trace, [], r, pi)
    {
    }

    lemma StartsWithoutLooks(r: string)
      requires Valid() && ValidConfig(cfg) && InPhase(Seen(), r, Enqueued)
      ensures waiters[r].looks == 0
    {
      ValidIsSound();
      assert OnSchedule(cfg, clock, waiters[r]);
    }

    /** What a finished wait owes to the run: its looks are bounded, its row is no longer pending, and an answer
        it returns was stored by the Pi. */
    lemma WaitEnds(r: string)
      requires Valid() && ValidConfig(cfg) && r in waiters && waiters[r].phase.Done?
      ensures waiters[r].looks <= CeilDiv(cfg.timeoutMs, 150)
      ensures r in calls ==> calls[r].pi == waiters[r].pi && calls[r].status != Pending
      ensures waiters[r].phase.outcome.Returned? ==>
                StoredBy(Seen(), r, waiters[r].pi, waiters[r].phase.outcome.code, waiters[r].phase.outcome.body)
    {
      ValidIsSound();
      LooksBounded(cfg, Seen(), r);
      assert r in calls ==> ClosedRow(waiters[r], calls[r]);
    }

    /** Reads the deadline and compares it for the first time. */
    method FirstCheck(r: string, others: seq<Step>) returns (go: bool)
      requires Valid() && ValidConfig(cfg) && InPhase(Seen(), r, Enqueued)
      modifies this
      ensures Valid() && old(trace) <= trace
      ensures go <==> clock < old(clock) + cfg.timeoutMs
      ensures !go ==> others != []
      ensures r in waiters && waiters[r] == old(waiters)[r].(startedAt := old(clock), looks := if go then 1 else 0,
                                                             phase := if go then Looking else GivingUp)
    {
      hide EnabledRun, Run, Next, Enabled;
      StartsWithoutLooks(r);
      BeginWait(r);
      Others(others, Some(r));
      go := CheckDeadline(r);
    }

    /** Past the deadline: expires the row, after what the other threads do before that. */
    method LeaveAtDeadline(r: string, others: seq<Step>)
      requires Valid() && ValidConfig(cfg) && InPhase(Seen(), r, GivingUp)
      modifies this
      ensures Valid() && old(trace) <= trace && clock >= old(clock)
      ensures r in waiters && waiters[r] == old(waiters)[r].(phase := Done(TimedOut, clock))
      ensures r in calls ==> calls[r].status == Expired
    {
      hide EnabledRun, Run, Next, Enabled;
      Others(others, Some(r));
      ExpireRow(r);
    }

    /** The next look, after what the other threads do before it. */
    method LookNext(r: string, others: seq<Step>, ghost at: seq<nat>)
      returns (seen: Option<Outcome>, ghost more: seq<nat>)
      requires Valid() && ValidConfig(cfg) && InPhase(Seen(), r, Looking)
      requires LooksWaited(cfg, start, trace, at, r, waiters[r].pi)
      modifies this
      ensures Valid() && old(trace) <= trace && clock >= old(clock)
      ensures r in waiters && waiters[r] == old(waiters)[r].(
                phase := if seen.Some? then Done(seen.value, clock) else Sleeping(clock + 150))
      ensures |trace| > 0 && trace[|trace| - 1] == Look(r) && more == at + [|trace| - 1]
      ensures LooksWaited(cfg, start, trace, at, r, waiters[r].pi)
      ensures seen.None? ==> LooksWaited(cfg, start, trace, more, r, waiters[r].pi)
      ensures seen.Some? ==> Answers(cfg, WorldAt(|trace| - 1), r, waiters[r].pi, seen.value)
      ensures seen.Some? && seen.value.Returned? ==>
                r in calls && calls[r].pi == waiters[r].pi && calls[r].status == Responded
                && seen.value == Returned(calls[r].code, calls[r].body)
    {
      Others(others, Some(r));
      ghost var steps, x := trace, waiters[r];
      LooksStay(cfg, start, old(trace), steps, at, r, x.pi);
      ghost var before := Seen();
      seen := LookAtRow(r);
      more := at + [|steps|];
      LooksStay(cfg, start, steps, trace, at, r, x.pi);
      assert trace[..|trace| - 1] == steps;
      if seen.None? {
        OneMoreLook(cfg, start, steps, at, r, x.pi);
      }
    }

    /** Sleeps, while the other threads go on, and compares the deadline again. */
    method SleepOn(r: string, others: seq<Step>) returns (go: bool)
      requires Valid() && ValidConfig(cfg) && r in waiters && waiters[r].phase == Sleeping(clock + 150)
      modifies this
      ensures Valid() && old(trace) <= trace && clock >= old(clock) + 150
      ensures go <==> clock < old(waiters)[r].startedAt + cfg.timeoutMs
      ensures r in waiters && waiters[r] == if go
                then old(waiters)[r].(looks := old(waiters)[r].looks + 1, phase := Looking)
                else old(waiters)[r].(phase := GivingUp)
    {
      hide EnabledRun, Run, Next, Enabled;
      Others(others, Some(r));
      Elapse(150);
      WakeUp(r);
      go := CheckDeadline(r);
    }

    /** The phone thread's loop: look, then sleep 150 ms, until the deadline. `gaps[k]` is what the other
        threads do in round k, `atStart` what they do before the deadline is first compared, and `atEnd` what
        they do before the row is expired. `at` are the looks, as positions in the run; a thread that is kept
        from running until its deadline never looks. Whatever the others do, every look but the last found the
        request still waiting, and an answer, an expiry, a missing row or an offline Pi is returned from the
        first look that finds it. */
    method WaitForResponse(r: string, atStart: seq<Step>, gaps: seq<Gap>, atEnd: seq<Step>)
      returns (outcome: Outcome, ghost at: seq<nat>)
      requires Valid() && ValidConfig(cfg) && InPhase(Seen(), r, Enqueued)
      modifies this
      ensures Valid() && old(trace) <= trace
      ensures r in waiters && waiters[r].pi == old(waiters)[r].pi && waiters[r].phase == Done(outcome, clock)
      ensures |at| == waiters[r].looks <= CeilDiv(cfg.timeoutMs, 150)
      ensures at == [] ==> atStart != [] && outcome == TimedOut
      ensures outcome == TimedOut ==>
                && LooksWaited(cfg, start, trace, at, r, waiters[r].pi) && clock >= old(clock) + cfg.timeoutMs
                && (r in calls ==> calls[r].status == Expired)
      ensures outcome != TimedOut ==>
                && at != [] && LooksWaited(cfg, start, trace, at[..|at| - 1], r, waiters[r].pi)
                && at[|at| - 1] == |trace| - 1 && trace[|trace| - 1] == Look(r)
                && Answers(cfg, WorldAt(|trace| - 1), r, waiters[r].pi, outcome)
      ensures r in calls && calls[r].pi == waiters[r].pi ==> calls[r].status != Pending
      ensures outcome.Returned? ==> r in calls && calls[r].pi == waiters[r].pi && calls[r].status == Responded
                                    && outcome == Returned(calls[r].code, calls[r].body)
                                    && StoredBy(Seen(), r, waiters[r].pi, outcome.code, outcome.body)
    {
      hide LooksWaited, Answers, StillWaiting, Valid, StoredBy;
      at := [];
      var go := FirstCheck(r, atStart);
      ghost var x := waiters[r];
      NoLooksYet(r, x.pi);
      var round := 0;
      while go
        invariant 0 <= round && Valid() && old(trace) <= trace
        invariant r in waiters && waiters[r] == x.(looks := |at| + (if go then 1 else 0),
                                                   phase := if go then Looking else GivingUp)
        invariant go <==> clock < x.startedAt + cfg.timeoutMs
        invariant x.startedAt == old(clock) && x.pi == old(waiters)[r].pi
        invariant at == [] && !go ==> atStart != []
        invariant LooksWaited(cfg, start, trace, at, r, x.pi)
        decreases x.startedAt + cfg.timeoutMs - clock
      {
        var gap := if round < |gaps| then gaps[round] else Gap([], []);
        round := round + 1;
        ghost var waited := at;
        var seen;
        seen, at := LookNext(r, gap.beforeBlock, at);
        if seen.Some? {
          assert at[..|at| - 1] == waited;
          WaitEnds(r);
          return seen.value, at;
        }
        ghost var steps := trace;
        go := SleepOn(r, gap.afterBlock);
        LooksStay(cfg, start, steps, trace, at, r, x.pi);
      }
      ghost var steps := trace;
      LeaveAtDeadline(r, atEnd);
      LooksStay(cfg, start, steps, trace, at, r, x.pi);
      WaitEnds(r);
      outcome := TimedOut;
    }

    lemma NoRoundsYet(cred: Credentials)
      ensures RoundsIdle(cfg, start, trace, [], cred)
    {
    }

    /** The next round, after what the other threads do before it. */
    method PollNext(cred: Credentials, others: seq<Step>, ghost at: seq<nat>)
      returns (ok: bool, found: Option<string>, ghost more: seq<nat>)
      requires Valid() && ValidConfig(cfg) && RoundsIdle(cfg, start, trace, at, cred)
      modifies this
      ensures Valid() && old(trace) <= trace && clock >= old(clock)
      ensures |trace| > 0 && trace[|trace| - 1] == PollRound(cred, found) && more == at + [|trace| - 1]
      ensures RoundsIdle(cfg, start, trace, at, cred)
      ensures ok == MayAct(cfg, WorldAt(|trace| - 1), cred)
      ensures ok && found.None? ==> RoundsIdle(cfg, start, trace, more, cred)
      ensures found.Some? ==> ok && HandedOut(WorldAt(|trace| - 1), cred.pi, found.value)
    {
      hide MayAct, HandedOut, NothingToDo, RoundsIdle, Next, Enabled;
      Others(others, None);
      ghost var steps, before := trace, Seen();
      assert before == Run(cfg, Start(start), steps);
      RoundsStay(cfg, start, old(trace), steps, at, cred);
      ok, found := PollOnce(cred);
      more := at + [|steps|];
      RoundsStay(cfg, start, steps, trace, at, cred);
      assert trace[..|trace| - 1] == steps;
      if ok && found.None? {
        OneMoreRound(cfg, start, steps, at, cred);
      }
    }

    /** The Pi thread's loop: claim, or sleep 400 ms and try again, until the deadline. `at` are the rounds, as
        positions in the run. A request that waits in a round is handed out in that round, whatever the other
        threads do; without one the poll ends empty-handed only at once, when asked not to wait, or past its
        deadline. A Pi that may not act is turned away. */
    method PiPoll(cred: Credentials, timeoutMs: nat, atStart: seq<Step>, gaps: seq<Gap>)
      returns (found: Option<string>, ghost at: seq<nat>)
      requires Valid() && ValidConfig(cfg)
      modifies this
      ensures Valid() && old(trace) <= trace
      ensures |at| <= CeilDiv(timeoutMs, 400) + 1
      ensures at == [] ==>
                && found.None? && |trace| > 0 && trace[|trace| - 1] == PollStart(cred)
                && !MayAct(cfg, WorldAt(|trace| - 1), cred)
      ensures at != [] ==>
                && RoundsIdle(cfg, start, trace, at[..|at| - 1], cred)
                && at[|at| - 1] < |trace| && trace[at[|at| - 1]] == PollRound(cred, found)
      ensures found.Some? ==>
                && at[|at| - 1] == |trace| - 1 && MayAct(cfg, WorldAt(|trace| - 1), cred)
                && HandedOut(WorldAt(|trace| - 1), cred.pi, found.value)
      ensures at != [] && found.None? ==>
                || !MayAct(cfg, WorldAt(at[|at| - 1]), cred)
                || (RoundsIdle(cfg, start, trace, at, cred)
                    && (timeoutMs == 0 || clock >= old(clock) + timeoutMs))
    {
      hide MayAct, Waits, RoundsIdle, EnabledRun, Run, Next, Enabled, HandedOut;
      var deadline := clock + timeoutMs;
      at, found := [], None;
      Others(atStart, None);
      ghost var steps := trace;
      var ok := StartPoll(cred);
      if !ok {
        assert trace[..|trace| - 1] == steps;
        return;
      }
      NoRoundsYet(cred);
      var rounds := 0;
      while true
        invariant Valid() && old(trace) <= trace && rounds == |at| && clock >= old(clock)
        invariant rounds * 400 <= clock - old(clock) && rounds <= CeilDiv(timeoutMs, 400)
        invariant RoundsIdle(cfg, start, trace, at, cred)
        decreases deadline - clock
      {
        var gap := if rounds < |gaps| then gaps[rounds] else Gap([], []);
        rounds := rounds + 1;
        ghost var idle := at;
        ok, found, at := PollNext(cred, gap.beforeBlock, at);
        assert at[..|at| - 1] == idle;
        if !ok || found.Some? || timeoutMs == 0 {
          return;
        }
        steps := trace;
        Others(gap.afterBlock, None);
        RoundsStay(cfg, start, steps, trace, at, cred);
        RoundsStay(cfg, start, steps, trace, idle, cred);
        if clock >= deadline {
          return;
        }
        steps := trace;
        Elapse(400);
        RoundsStay(cfg, start, steps, trace, at, cred);
      }
    }
  }
}
