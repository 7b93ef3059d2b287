/** The relay may hand one sync request to the Pi several times, and the Pi runs each copy some time after
    it was handed over. The effect on the items is that of running it once. */
module ExactlyOnce {
  import opened Inventory
  import opened SyncMerge
  import opened RelayBlocks
  import opened RelayRuns
  import DB = PiDatabase

  /** The sync under study: the relay request that carries it, the phone rows it sends and its baseline. */
  datatype Job = Job(request: string, phone: Phone, lastSync: int)

  /** The relay, the Pi's item table, the copies handed over and not yet run, and how often the Pi ran the job. */
  datatype Joint = Joint(relay: World, items: Items, inFlight: nat, executions: nat)

  /** A relay step; the Pi running a copy it holds, or losing it; or an edit of the Pi's items. */
  datatype Move = RelayMove(step: Step) | Execute | Lose | PiEdit(id: string, row: Row)

  /** The Pi reports success only after it ran the job; edits after that carry the clock's stamp, which is
      past the baseline and not before the phone's row. */
  ghost predicate Possible(cfg: Config, job: Job, j: Joint, m: Move) {
    match m
    case RelayMove(s) =>
      && Enabled(cfg, j.relay, s)
      && (s.Respond? && s.request == job.request && s.code == 200 ==> j.executions > 0)
    case Execute => j.inFlight > 0
    case Lose => j.inFlight > 0
    case PiEdit(id, row) =>
      j.executions > 0 ==>
        row.updatedAt > job.lastSync && (id in job.phone ==> row.updatedAt >= job.phone[id].updatedAt)
  }

  /** With `limit` set, only the first execution takes effect. */
  function NextJoint(cfg: Config, job: Job, limit: bool, j: Joint, m: Move): Joint {
    match m
    case RelayMove(s) =>
      j.(relay := Next(cfg, j.relay, s),
         inFlight := j.inFlight + if Delivers(cfg, j.relay, s, job.request) then 1 else 0)
    case Execute =>
      if j.inFlight == 0 then j
      else j.(items := if limit && j.executions > 0 then j.items else Merged(j.items, job.phone, job.lastSync),
              inFlight := j.inFlight - 1, executions := j.executions + 1)
    case Lose => if j.inFlight == 0 then j else j.(inFlight := j.inFlight - 1)
    case PiEdit(id, row) => j.(items := j.items[id := row])
  }

  ghost predicate PossibleRun(cfg: Config, job: Job, j: Joint, moves: seq<Move>)
    decreases |moves|
  {
    moves == [] || (Possible(cfg, job, j, moves[0])
                    && PossibleRun(cfg, job, NextJoint(cfg, job, false, j, moves[0]), moves[1..]))
  }

  function RunJoint(cfg: Config, job: Job, limit: bool, j: Joint, moves: seq<Move>): Joint
    decreases |moves|
  {
    if moves == [] then j else RunJoint(cfg, job, limit, NextJoint(cfg, job, limit, j, moves[0]), moves[1..])
  }

  /** The table already reflects the job: merging it again would take nothing from the phone. */
  ghost predicate Absorbed(job: Job, items: Items) {
    forall id | id in job.phone :: id in items && !VerdictFor(items, job.phone, job.lastSync, id).TakePhone?
  }

  /** Once the job has been run, the items reflect it. */
  ghost predicate Reflects(job: Job, j: Joint) {
    j.executions > 0 ==> Absorbed(job, j.items)
  }

  lemma ExecutionAbsorbs(job: Job, items: Items)
    ensures Absorbed(job, Merged(items, job.phone, job.lastSync))
  {
    forall id | id in job.phone
      ensures var after := Merged(items, job.phone, job.lastSync);
              id in after && !VerdictFor(after, job.phone, job.lastSync, id).TakePhone?
    {
      ReplayTakesNothing(items, Merged(items, job.phone, job.lastSync), job.phone, job.lastSync, id);
    }
  }

  /** Merging the job changes nothing exactly when the table already reflects it. */
  lemma MergeChangesNothingExactly(job: Job, items: Items)
    ensures Merged(items, job.phone, job.lastSync) == items <==> Absorbed(job, items)
  {
    if Absorbed(job, items) {
      assert job.phone.Keys <= items.Keys;
    } else if Merged(items, job.phone, job.lastSync) == items {
      ExecutionAbsorbs(job, items);
      assert false;
    }
  }

  lemma EditKeepsAbsorbed(job: Job, items: Items, id: string, row: Row)
    requires Absorbed(job, items)
    requires row.updatedAt > job.lastSync && (id in job.phone ==> row.updatedAt >= job.phone[id].updatedAt)
    ensures Absorbed(job, items[id := row])
  {
    var after := items[id := row];
    forall k | k in job.phone
      ensures k in after && !VerdictFor(after, job.phone, job.lastSync, k).TakePhone?
    {
      if k != id {
        assert VerdictFor(after, job.phone, job.lastSync, k) == VerdictFor(items, job.phone, job.lastSync, k);
      }
    }
  }

  lemma SameMove(cfg: Config, job: Job, j: Joint, m: Move)
    requires Reflects(job, j) && Possible(cfg, job, j, m)
    ensures NextJoint(cfg, job, true, j, m) == NextJoint(cfg, job, false, j, m)
    ensures Reflects(job, NextJoint(cfg, job, false, j, m))
  {
    hide Next, Enabled, Merged, VerdictFor, Absorbed;
    ExecutionAbsorbs(job, j.items);
    MergeChangesNothingExactly(job, j.items);
    if m.PiEdit? && j.executions > 0 {
      EditKeepsAbsorbed(job, j.items, m.id, m.row);
    }
  }

  /** However often the job is delivered and run, with edits, losses and relay steps in between, the items
      end up as if only the first execution had taken effect. */
  lemma {:induction false} RedeliveryIsExactlyOnce(cfg: Config, job: Job, j: Joint, moves: seq<Move>)
    requires Reflects(job, j) && PossibleRun(cfg, job, j, moves)
    ensures RunJoint(cfg, job, false, j, moves) == RunJoint(cfg, job, true, j, moves)
    decreases |moves|
  {
    hide NextJoint, Possible, Reflects;
    if moves == [] {
    } else {
      SameMove(cfg, job, j, moves[0]);
      RedeliveryIsExactlyOnce(cfg, job, NextJoint(cfg, job, false, j, moves[0]), moves[1..]);
    }
  }

  // What a run does to the items.

  function OnlyEdits(items: Items, moves: seq<Move>): Items
    decreases |moves|
  {
    if moves == [] then items
    else OnlyEdits(if moves[0].PiEdit? then items[moves[0].id := moves[0].row] else items, moves[1..])
  }

  function FirstExecution(moves: seq<Move>): Option<nat>
    ensures FirstExecution(moves).Some? ==> FirstExecution(moves).value < |moves|
  {
    if moves == [] then None
    else if moves[0].Execute? then Some(0)
    else
      var later := FirstExecution(moves[1..]);
      if later.Some? then Some(later.value + 1) else None
  }

  /** The edits of the run, with the job merged in once, where it was first run. */
  function EditsAndFirstExecution(job: Job, items: Items, moves: seq<Move>): Items {
    match FirstExecution(moves)
    case None => OnlyEdits(items, moves)
    case Some(k) =>
      OnlyEdits(Merged(OnlyEdits(items, moves[..k]), job.phone, job.lastSync), moves[k + 1..])
  }

  lemma {:induction false} LimitedItems(cfg: Config, job: Job, j: Joint, moves: seq<Move>)
    requires Reflects(job, j) && PossibleRun(cfg, job, j, moves)
    ensures RunJoint(cfg, job, true, j, moves).items
            == if j.executions > 0 then OnlyEdits(j.items, moves) else EditsAndFirstExecution(job, j.items, moves)
    decreases |moves|
  {
    hide Merged, Next, Enabled, Reflects;
    if moves == [] {
    } else {
      var j', rest := NextJoint(cfg, job, true, j, moves[0]), moves[1..];
      SameMove(cfg, job, j, moves[0]);
      LimitedItems(cfg, job, j', rest);
      if j.executions == 0 && !moves[0].Execute? && FirstExecution(rest).Some? {
        var k := FirstExecution(rest).value;
        assert moves[..k + 1][1..] == rest[..k] && moves[k + 2..] == rest[k + 1..];
      }
    }
  }

  /** The items after any run: the Pi's edits in order, and the job merged in once, where it was first run,
      unless it had been run before. */
  lemma ItemsAfterRun(cfg: Config, job: Job, j: Joint, moves: seq<Move>)
    requires Reflects(job, j) && PossibleRun(cfg, job, j, moves)
    ensures RunJoint(cfg, job, false, j, moves).items
            == if j.executions > 0 then OnlyEdits(j.items, moves) else EditsAndFirstExecution(job, j.items, moves)
  {
    RedeliveryIsExactlyOnce(cfg, job, j, moves);
    LimitedItems(cfg, job, j, moves);
  }

  // How many copies there are.

  /** Every copy was handed over by the relay: run, held or lost. */
  ghost predicate CopiesCounted(job: Job, j: Joint) {
    j.inFlight + j.executions <= |Times(j.relay, job.request)|
  }

  lemma {:induction false} ExecutionsWereDelivered(cfg: Config, job: Job, j: Joint, moves: seq<Move>)
    requires CopiesCounted(job, j) && PossibleRun(cfg, job, j, moves)
    ensures CopiesCounted(job, RunJoint(cfg, job, false, j, moves))
    decreases |moves|
  {
    hide Next, Enabled, Merged, Delivers;
    if moves == [] {
    } else {
      var m := moves[0];
      if m.RelayMove? {
        TimesGrow(cfg, j.relay, m.step, job.request);
      }
      ExecutionsWereDelivered(cfg, job, NextJoint(cfg, job, false, j, m), moves[1..]);
    }
  }

  // What the phone may conclude from its answer.

  ghost predicate SuccessMeansExecuted(job: Job, j: Joint) {
    forall x: Response | x in j.relay.responses && x.request == job.request && x.code == 200 :: j.executions > 0
  }

  lemma MoveKeepsSuccessHonest(cfg: Config, job: Job, j: Joint, m: Move)
    requires ValidConfig(cfg) && Sound(cfg, j.relay) && SuccessMeansExecuted(job, j) && Possible(cfg, job, j, m)
    ensures var j' := NextJoint(cfg, job, false, j, m);
            Sound(cfg, j'.relay) && SuccessMeansExecuted(job, j')
  {
    hide Sound, Merged;
    if m.RelayMove? {
      SoundStep(cfg, j.relay, m.step);
    }
  }

  /** A phone that is told the sync succeeded can rely on it: the job has been run, and by
      `ItemsAfterRun` with the effect of one execution. */
  lemma {:induction false} SuccessfulAnswerMeansExecuted(cfg: Config, job: Job, j: Joint, moves: seq<Move>)
    requires ValidConfig(cfg) && Sound(cfg, j.relay) && SuccessMeansExecuted(job, j)
    requires PossibleRun(cfg, job, j, moves)
    ensures var j' := RunJoint(cfg, job, false, j, moves);
            var waiters := j'.relay.waiters;
            job.request in waiters && waiters[job.request].phase.Done?
            && waiters[job.request].phase.outcome.Returned? && waiters[job.request].phase.outcome.code == 200 ==>
              j'.executions > 0
    decreases |moves|
  {
    hide NextJoint, Possible;
    if moves == [] {
    } else {
      MoveKeepsSuccessHonest(cfg, job, j, moves[0]);
      SuccessfulAnswerMeansExecuted(cfg, job, NextJoint(cfg, job, false, j, moves[0]), moves[1..]);
    }
  }

  // After the phone has stopped waiting.

  ghost predicate WaitOver(job: Job, w: World) {
    WaitersClosed(w) && job.request in w.waiters && w.waiters[job.request].phase.Done?
  }

  lemma DoneIsNotDelivered(cfg: Config, w: World, s: Step, r: string)
    requires WaitersClosed(w) && Enabled(cfg, w, s)
    requires r in w.waiters && w.waiters[r].phase.Done?
    ensures !Delivers(cfg, w, s, r)
  {
  }

  lemma WaitStaysOver(cfg: Config, job: Job, j: Joint, m: Move)
    requires WaitOver(job, j.relay) && Possible(cfg, job, j, m)
    ensures var j' := NextJoint(cfg, job, false, j, m);
            WaitOver(job, j'.relay) && j'.inFlight + j'.executions <= j.inFlight + j.executions
            && j'.executions == j.executions + (if m.Execute? then 1 else 0)
  {
    hide Next, Enabled, Merged, WaitersClosed, Delivers;
    if m.RelayMove? {
      WaitersStayClosed(cfg, j.relay, m.step);
      FinishedWaitStays(cfg, j.relay, m.step, job.request);
      DoneIsNotDelivered(cfg, j.relay, m.step, job.request);
    }
  }

  /** Once the wait is over no copy is handed over any more, so only the copies then in flight can still be
      run; and with none in flight, none is. */
  lemma {:induction false} NoNewCopyAfterExit(cfg: Config, job: Job, j: Joint, moves: seq<Move>)
    requires WaitOver(job, j.relay) && PossibleRun(cfg, job, j, moves)
    ensures var j' := RunJoint(cfg, job, false, j, moves);
            WaitOver(job, j'.relay) && j'.inFlight + j'.executions <= j.inFlight + j.executions
    ensures j.inFlight == 0 ==> FirstExecution(moves).None?
    decreases |moves|
  {
    hide NextJoint, WaitOver;
    if moves == [] {
    } else {
      WaitStaysOver(cfg, job, j, moves[0]);
      NoNewCopyAfterExit(cfg, job, NextJoint(cfg, job, false, j, moves[0]), moves[1..]);
    }
  }

  /** After the wait is over: if the job had been run or no copy is in flight, the items change by the Pi's
      own edits only; otherwise at most one late execution takes effect, where it is first run. */
  lemma AfterExit(cfg: Config, job: Job, j: Joint, moves: seq<Move>)
    requires WaitOver(job, j.relay) && Reflects(job, j) && PossibleRun(cfg, job, j, moves)
    ensures var items := RunJoint(cfg, job, false, j, moves).items;
            items == if j.executions > 0 || j.inFlight == 0 then OnlyEdits(j.items, moves)
                     else EditsAndFirstExecution(job, j.items, moves)
  {
    ItemsAfterRun(cfg, job, j, moves);
    NoNewCopyAfterExit(cfg, job, j, moves);
  }

  ghost predicate NoEdits(moves: seq<Move>) {
    forall k | 0 <= k < |moves| :: !moves[k].PiEdit?
  }

  lemma {:induction false} NoEditsNoChange(items: Items, moves: seq<Move>)
    requires NoEdits(moves)
    ensures OnlyEdits(items, moves) == items
    decreases |moves|
  {
    if moves == [] {
    } else {
      NoEditsNoChange(items, moves[1..]);
    }
  }

  /** After the wait is over the items are safe from the job, in every run without edits, exactly when no
      copy is in flight or the items already reflect the job. */
  lemma SafeAfterExitExactly(cfg: Config, job: Job, j: Joint)
    requires WaitOver(job, j.relay) && Reflects(job, j)
    ensures (forall moves | PossibleRun(cfg, job, j, moves) && NoEdits(moves) ::
               RunJoint(cfg, job, false, j, moves).items == j.items)
            <==> j.inFlight == 0 || Absorbed(job, j.items)
  {
    hide Merged, WaitOver, Absorbed;
    MergeChangesNothingExactly(job, j.items);
    if j.inFlight == 0 || Absorbed(job, j.items) {
      forall moves | PossibleRun(cfg, job, j, moves) && NoEdits(moves)
        ensures RunJoint(cfg, job, false, j, moves).items == j.items
      {
        AfterExit(cfg, job, j, moves);
        NoEditsNoChange(j.items, moves);
        if FirstExecution(moves).Some? {
          var k := FirstExecution(moves).value;
          NoEditsNoChange(j.items, moves[..k]);
          NoEditsNoChange(j.items, moves[k + 1..]);
        }
      }
    } else {
      assert [Execute][1..] == [];
      assert PossibleRun(cfg, job, j, [Execute]) && NoEdits([Execute]);
      assert RunJoint(cfg, job, false, j, [Execute]).items == Merged(j.items, job.phone, job.lastSync);
    }
  }

  function RelayMoves(steps: seq<Step>): seq<Move> {
    if steps == [] then [] else [RelayMove(steps[0])] + RelayMoves(steps[1..])
  }

  /** Relay steps alone leave the items, and put a copy in flight for each delivery. */
  lemma {:induction false} RelayStepsOnly(cfg: Config, job: Job, j: Joint, steps: seq<Step>)
    requires EnabledRun(cfg, j.relay, steps) && forall k | 0 <= k < |steps| :: !steps[k].Respond?
    ensures PossibleRun(cfg, job, j, RelayMoves(steps))
    ensures var j' := RunJoint(cfg, job, false, j, RelayMoves(steps));
            && j'.relay == Run(cfg, j.relay, steps) && j'.items == j.items && j'.executions == j.executions
            && j'.inFlight - j.inFlight == |Times(j'.relay, job.request)| - |Times(j.relay, job.request)|
    decreases |steps|
  {
    hide Next, Enabled, Delivers;
    if steps == [] {
    } else {
      TimesGrow(cfg, j.relay, steps[0], job.request);
      RelayStepsOnly(cfg, job, NextJoint(cfg, job, false, j, RelayMove(steps[0])), steps[1..]);
      assert RelayMoves(steps)[1..] == RelayMoves(steps[1..]);
    }
  }

  /** From an empty relay and an empty table: a copy is handed over and its waiter comes to the deadline. */
  lemma CopyInFlightAtDeadline(job: Job)
    requires job.request == "r"
    ensures var start, moves := Joint(Start(0), map[], 0, 0), RelayMoves(TO_DELIVERY + TO_DEADLINE);
            && PossibleRun(ONE_SECOND, job, start, moves)
            && RunJoint(ONE_SECOND, job, false, start, moves) == Joint(OVERDUE, map[], 1, 0)
  {
    hide Next, Enabled;
    OverdueHappens();
    RelayStepsOnly(ONE_SECOND, job, Joint(Start(0), map[], 0, 0), TO_DELIVERY + TO_DEADLINE);
  }

  lemma RunOfTwo(cfg: Config, job: Job, j: Joint, first: Move, second: Move)
    requires Possible(cfg, job, j, first) && Possible(cfg, job, NextJoint(cfg, job, false, j, first), second)
    ensures PossibleRun(cfg, job, j, [first, second])
    ensures RunJoint(cfg, job, false, j, [first, second])
            == NextJoint(cfg, job, false, NextJoint(cfg, job, false, j, first), second)
  {
    hide Possible, NextJoint;
    assert [first, second][1..] == [second] && [second][1..] == [];
    var after := NextJoint(cfg, job, false, j, first);
    assert PossibleRun(cfg, job, after, [second]);
    assert RunJoint(cfg, job, false, after, [second]) == NextJoint(cfg, job, false, after, second);
  }

  lemma FirstRowMerged(item: Item, lastSync: int)
    ensures Merged(map[], map["i" := item], lastSync) == map["i" := UpsertItem(None, item)]
  {
    hide UpsertItem;
  }

  /** Then the late execution happens: the phone is told that it timed out, and after that the Pi runs its
      copy and the phone's row is stored. */
  lemma LateExecutionHappens(item: Item)
    requires item.id == "i"
    ensures var cfg, job := ONE_SECOND, Job("r", map["i" := item], 0);
            var moves, atDeadline := [RelayMove(GiveUp("r")), Execute], Joint(OVERDUE, map[], 1, 0);
            && PossibleRun(cfg, job, atDeadline, moves)
            && InPhase(NextJoint(cfg, job, false, atDeadline, moves[0]).relay, "r", Done(TimedOut, 1000))
            && NextJoint(cfg, job, false, atDeadline, moves[0]).items == map[]
            && RunJoint(cfg, job, false, atDeadline, moves).items == map["i" := UpsertItem(None, item)]
  {
    var cfg, job := ONE_SECOND, Job("r", map["i" := item], 0);
    var moves, atDeadline := [RelayMove(GiveUp("r")), Execute], Joint(OVERDUE, map[], 1, 0);
    hide Next, Enabled, UpsertItem, Merged, Delivers;
    GiveUpHappens();
    assert NextJoint(cfg, job, false, atDeadline, moves[0]) == Joint(GAVE_UP, map[], 1, 0);
    RunOfTwo(cfg, job, atDeadline, moves[0], moves[1]);
    FirstRowMerged(item, 0);
  }

  /** The same on the Pi itself: serving one sync request twice in a row changes no item the second
      time, even when the first run had to collapse or rename bags. */
  method ServeTwice(db: DB.Database, req: DB.SyncRequest, newBagId: string)
    returns (ghost once: Items, first: DB.SyncReply, second: DB.SyncReply)
    requires "" !in db.bags && newBagId != ""
    requires forall id | id in db.items :: db.items[id].bagId in db.bags
    modifies db
    ensures db.items == once
    ensures first.serverTime <= second.serverTime
  {
    hide Merged, ReplyMatches, DB.RequestedBagIds;
    var keep;
    ghost var start, startBag;
    first, keep, start, startBag := db.RunSync(req, newBagId);
    once := db.items;
    ghost var between := db.clock;
    var again;
    ghost var restart, restartBag;
    second, again, restart, restartBag := db.RunSync(req, newBagId);
    if |DB.RequestedBagIds(req)| == 1 {
      var b :| b in DB.RequestedBagIds(req);
      OnlyMember(DB.RequestedBagIds(req), b);
    }
    ReplayFromSameTable(start, once, restart, DB.PhoneItems(req.changedItems, keep, keep), req.lastSyncAt, keep,
                        db.author, between, db.clock);
  }

  lemma OnlyMember<T>(s: set<T>, x: T)
    requires |s| == 1 && x in s
    ensures s == {x}
  {
    assert |s - {x}| == 0;
  }

  lemma ReplayFromSameTable(start: Items, once: Items, restart: Items, phone: Phone, lastSync: int, keep: string,
                            author: string, lo: int, hi: int)
    requires once == Merged(start, phone, lastSync)
    requires DB.Rehomed(once, restart, {keep} - {keep}, keep, author, lo, hi)
    ensures Merged(restart, phone, lastSync) == once
  {
    assert once.Keys == restart.Keys;
    assert restart == once;
    ReplayWritesNothing(start, once, phone, lastSync);
  }
}
