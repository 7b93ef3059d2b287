/** USB camera sessions: capture workers may outlive their session, and every write they make is
    fenced by the session id under the lock. Each locked block, and each thing a worker does between
    two of them, is one step; `start` and `stop` are several, so they may interleave too. */
module Camera {
  import opened Inventory

  /** What the manager shows, apart from the device, the frame size, the times and the log text. */
  datatype SessionState = SessionState(
    sessionId: string, bagId: string, active: bool, running: bool, frameId: nat,
    image: string, decoded: string, error: Option<string>)

  const NO_SESSION := SessionState("", "", false, false, 0, "", "", None)

  function Started(sessionId: string, bagId: string): SessionState {
    NO_SESSION.(sessionId := sessionId, bagId := bagId, active := true, running := true)
  }

  function Deactivated(s: SessionState, clearState: bool): SessionState {
    if clearState then NO_SESSION else s.(active := false, running := false)
  }

  function WithFrame(s: SessionState, image: string): SessionState {
    s.(image := image, frameId := s.frameId + 1, error := None)
  }

  function WithDecoded(s: SessionState, text: string): SessionState {
    s.(decoded := text, running := false)
  }

  function WithError(s: SessionState, reason: string): SessionState {
    s.(error := Some(reason), running := false)
  }

  /** Where a capture worker is, with the values it carries to its next locked block. */
  datatype Phase =
    | AtTop
    | Admitted                              // saw its stop event unset
    | Capturing                             // passed the fence at the top of the loop
    | Captured(image: string)
    | Decoding(image: string)               // wrote the frame
    | Decoded(image: string, text: string)
    | Failed(reason: string)
    | Exited

  /** Something a worker made: an image, a text it read off an image, or an error. */
  datatype Product = Image(image: string) | Reading(image: string, text: string) | Fault(reason: string)

  /** A worker, with the history of what it made and of the frames it wrote. */
  datatype Worker = Worker(phase: Phase, made: set<Product>, frames: seq<string>)

  /** `current` is the session whose stop event the manager holds; `stopping` are the events some
      `stop` call holds and is about to set; `stopped` are the events that are set. */
  datatype World = World(
    state: SessionState, current: string, stopping: set<string>, stopped: set<string>, workers: map<string, Worker>)

  const START := World(NO_SESSION, "", {}, {}, map[])

  datatype Step =
    | StopBlock(clearState: bool)
    | SetStopEvent(id: string)
    | InstallBlock(id: string, bagId: string)
    | CheckStop(id: string)
    | Fence(id: string)
    | Capture(id: string, image: string)
    | WriteFrame(id: string)
    | DecodeNothing(id: string)
    | DecodeText(id: string, text: string)
    | WriteDecoded(id: string)
    | Fail(id: string, reason: string)
    | WriteError(id: string)

  /** The worker taking the step, if a worker takes it. */
  function Actor(step: Step): Option<string> {
    if step.StopBlock? || step.SetStopEvent? || step.InstallBlock? then None else Some(step.id)
  }

  predicate Enabled(w: World, step: Step) {
    match step
    case StopBlock(_) => true
    case SetStopEvent(id) => id in w.stopping
    case InstallBlock(id, _) => id != "" && id !in w.workers
    case _ =>
      && step.id in w.workers
      && var phase := w.workers[step.id].phase;
         match step
         case CheckStop(_) => phase.AtTop?
         case Fence(_) => phase.Admitted?
         case Capture(_, _) => phase.Capturing?
         case WriteFrame(_) => phase.Captured?
         case DecodeNothing(_) => phase.Decoding?
         case DecodeText(_, text) => phase.Decoding? && text != ""
         case WriteDecoded(_) => phase.Decoded?
         case Fail(_, _) => phase.Capturing? || phase.Decoding?
         case WriteError(_) => phase.Failed?
         case _ => false
  }

  function Moved(w: World, id: string, phase: Phase): World
    requires id in w.workers
  {
    w.(workers := w.workers[id := w.workers[id].(phase := phase)])
  }

  function Making(w: World, id: string, phase: Phase, product: Product): World
    requires id in w.workers
  {
    w.(workers := w.workers[id := w.workers[id].(phase := phase, made := w.workers[id].made + {product})])
  }

  function Next(w: World, step: Step): World
    requires Enabled(w, step)
  {
    match step
    case StopBlock(clearState) =>
      w.(state := Deactivated(w.state, clearState), stopping := w.stopping + {w.current}, current := "")
    case SetStopEvent(id) => w.(stopped := w.stopped + {id})
    case InstallBlock(id, bagId) =>
      w.(state := Started(id, bagId), current := id, workers := w.workers[id := Worker(AtTop, {}, [])])
    case CheckStop(id) => Moved(w, id, if id in w.stopped then Exited else Admitted)
    case Fence(id) => Moved(w, id, if w.state.sessionId != id || !w.state.active then Exited else Capturing)
    case Capture(id, image) => Making(w, id, Captured(image), Image(image))
    case WriteFrame(id) =>
      var image, worker := w.workers[id].phase.image, w.workers[id];
      if w.state.sessionId != id then Moved(w, id, Exited)
      else w.(state := WithFrame(w.state, image),
              workers := w.workers[id := worker.(phase := Decoding(image), frames := worker.frames + [image])])
    case DecodeNothing(id) => Moved(w, id, AtTop)
    case DecodeText(id, text) =>
      var image := w.workers[id].phase.image;
      Making(w, id, Decoded(image, text), Reading(image, text))
    case WriteDecoded(id) =>
      var w' := Moved(w, id, Exited);
      if w.state.sessionId != id then w' else w'.(state := WithDecoded(w.state, w.workers[id].phase.text))
    case Fail(id, reason) => Making(w, id, Failed(reason), Fault(reason))
    case WriteError(id) =>
      var w' := Moved(w, id, Exited);
      if w.state.sessionId != id then w' else w'.(state := WithError(w.state, w.workers[id].phase.reason))
  }

  predicate EnabledRun(w: World, steps: seq<Step>)
    decreases |steps|
  {
    steps == [] || (Enabled(w, steps[0]) && EnabledRun(Next(w, steps[0]), steps[1..]))
  }

  function Run(w: World, steps: seq<Step>): World
    requires EnabledRun(w, steps)
    decreases |steps|
  {
    if steps == [] then w else Run(Next(w, steps[0]), steps[1..])
  }

  lemma {:induction false} RunAppends(w: World, steps: seq<Step>, step: Step)
    requires EnabledRun(w, steps) && Enabled(Run(w, steps), step)
    ensures EnabledRun(w, steps + [step]) && Run(w, steps + [step]) == Next(Run(w, steps), step)
    decreases |steps|
  {
    if steps == [] {
      assert Run(Next(w, step), [step][1..]) == Next(w, step);
    } else {
      assert (steps + [step])[1..] == steps[1..] + [step];
      RunAppends(Next(w, steps[0]), steps[1..], step);
    }
  }

  /** What the shown state owes to the worker of its session: its frame count is the number of
      frames that worker wrote, its image the last of them, its decoded text was read off the image
      still shown, and its error was raised by that worker. */
  predicate OwnedBy(s: SessionState, worker: Worker) {
    && s.frameId == |worker.frames|
    && s.image == (if worker.frames == [] then "" else worker.frames[|worker.frames| - 1])
    && (forall k | 0 <= k < |worker.frames| :: Image(worker.frames[k]) in worker.made)
    && (s.decoded != "" ==> worker.phase.Exited? && Reading(s.image, s.decoded) in worker.made)
    && (s.error.Some? ==> worker.phase.Exited? && s.decoded == "" && Fault(s.error.value) in worker.made)
  }

  predicate PhaseFits(worker: Worker) {
    var last := if worker.frames == [] then "" else worker.frames[|worker.frames| - 1];
    match worker.phase
    case Captured(image) => Image(image) in worker.made
    case Decoding(image) => last == image && worker.frames != []
    case Decoded(image, text) =>
      last == image && worker.frames != [] && text != "" && Reading(image, text) in worker.made
    case Failed(reason) => Fault(reason) in worker.made
    case _ => true
  }

  ghost predicate PhasesFit(w: World) {
    && "" !in w.workers
    && forall id | id in w.workers :: PhaseFits(w.workers[id])
  }

  /** The event of the session whose worker may still run is not set, nor about to be. */
  ghost predicate EventsFit(w: World) {
    && w.stopped <= w.stopping
    && (forall id | id in w.stopping :: id == "" || id in w.workers)
    && (w.current == "" || (w.current in w.workers && w.current !in w.stopping))
    && (w.state.sessionId != "" ==> w.state.sessionId in w.workers)
    && (w.state.active ==> w.current == w.state.sessionId != "")
  }

  predicate ShownFits(w: World) {
    if w.state.sessionId == "" then w.state == NO_SESSION
    else
      && w.state.sessionId in w.workers
      && OwnedBy(w.state, w.workers[w.state.sessionId])
      && (w.state.running ==> w.state.active && !w.workers[w.state.sessionId].phase.Exited?)
  }

  ghost predicate Sound(w: World) {
    PhasesFit(w) && EventsFit(w) && ShownFits(w)
  }

  lemma PhasesStayFit(w: World, step: Step)
    requires PhasesFit(w) && Enabled(w, step)
    ensures PhasesFit(Next(w, step))
  {
    var w' := Next(w, step);
    forall id | id in w'.workers
      ensures PhaseFits(w'.workers[id])
    {
      if id in w.workers {
        assert PhaseFits(w.workers[id]);
      }
    }
  }

  lemma EventsStayFit(w: World, step: Step)
    requires "" !in w.workers && EventsFit(w) && Enabled(w, step)
    ensures EventsFit(Next(w, step))
  {
  }

  lemma ShownStaysFit(w: World, step: Step)
    requires Sound(w) && Enabled(w, step)
    ensures ShownFits(Next(w, step))
  {
    if Actor(step).Some? {
      assert PhaseFits(w.workers[step.id]);
    }
  }

  lemma StepStaysSound(w: World, step: Step)
    requires Sound(w) && Enabled(w, step)
    ensures Sound(Next(w, step))
  {
    PhasesStayFit(w, step);
    EventsStayFit(w, step);
    ShownStaysFit(w, step);
  }

  lemma {:induction false} EveryRunStaysSound(w: World, steps: seq<Step>)
    requires Sound(w) && EnabledRun(w, steps)
    ensures Sound(Run(w, steps))
    decreases |steps|
  {
    if steps == [] {
    } else {
      StepStaysSound(w, steps[0]);
      EveryRunStaysSound(Next(w, steps[0]), steps[1..]);
    }
  }

  /** In every interleaving of starts, stops and workers, what is shown was made by the worker of the
      session shown, and while it says it is running that worker has not ended or been told to. */
  lemma ShownBelongsToItsSession(steps: seq<Step>)
    requires EnabledRun(START, steps)
    ensures var w := Run(START, steps);
            var s := w.state;
            && (s.sessionId == "" ==> s == NO_SESSION)
            && (s.sessionId != "" ==>
                  && s.sessionId in w.workers
                  && OwnedBy(s, w.workers[s.sessionId])
                  && (s.running ==> s.sessionId !in w.stopped && !w.workers[s.sessionId].phase.Exited?))
  {
    EveryRunStaysSound(START, steps);
  }

  function Without(steps: seq<Step>, id: string): seq<Step> {
    if steps == [] then []
    else (if Actor(steps[0]) == Some(id) then [] else [steps[0]]) + Without(steps[1..], id)
  }

  /** Two worlds that differ at most in how far the worker `id` has got, which is not shown. */
  ghost predicate SameButFor(id: string, a: World, b: World) {
    && id != "" && id != a.state.sessionId
    && a.(workers := b.workers) == b
    && id in a.workers && a.workers.Keys == b.workers.Keys
    && forall k | k in a.workers && k != id :: a.workers[k] == b.workers[k]
  }

  lemma OtherStepsMatch(id: string, a: World, b: World, step: Step)
    requires SameButFor(id, a, b) && Enabled(a, step) && Actor(step) != Some(id)
    ensures Enabled(b, step) && SameButFor(id, Next(a, step), Next(b, step))
  {
  }

  lemma OwnStepIsInvisible(id: string, a: World, b: World, step: Step)
    requires SameButFor(id, a, b) && Enabled(a, step) && Actor(step) == Some(id)
    ensures SameButFor(id, Next(a, step), b)
  {
  }

  lemma {:induction false} StepsMatch(id: string, a: World, b: World, steps: seq<Step>)
    requires SameButFor(id, a, b) && EnabledRun(a, steps)
    ensures EnabledRun(b, Without(steps, id))
    ensures SameButFor(id, Run(a, steps), Run(b, Without(steps, id)))
    decreases |steps|
  {
    hide Next, Enabled, SameButFor;
    if steps == [] {
    } else {
      var step, rest := steps[0], Without(steps[1..], id);
      if Actor(step) == Some(id) {
        OwnStepIsInvisible(id, a, b, step);
        StepsMatch(id, Next(a, step), b, steps[1..]);
        assert Without(steps, id) == rest;
      } else {
        OtherStepsMatch(id, a, b, step);
        StepsMatch(id, Next(a, step), Next(b, step), steps[1..]);
        assert Without(steps, id)[1..] == rest;
      }
    }
  }

  /** Once a worker's session is superseded it is never shown again, and every later run shows exactly
      what it would have shown had the worker taken no further step. */
  lemma SupersededWorkerIsInvisible(w: World, id: string, steps: seq<Step>)
    requires Sound(w) && id in w.workers && w.state.sessionId != id && EnabledRun(w, steps)
    ensures EnabledRun(w, Without(steps, id))
    ensures Run(w, steps).state == Run(w, Without(steps, id)).state
    ensures Run(w, steps).state.sessionId != id
  {
    StepsMatch(id, w, w, steps);
  }

  predicate SameFrame(s: SessionState, t: SessionState) {
    t.frameId == s.frameId && t.image == s.image && t.decoded == s.decoded && t.error == s.error
  }

  lemma DecodedStepIsFrozen(w: World, step: Step)
    requires Sound(w) && w.state.decoded != "" && Enabled(w, step)
    requires Next(w, step).state.sessionId == w.state.sessionId
    ensures SameFrame(w.state, Next(w, step).state)
  {
  }

  /** After a successful decode, the session's frame count, image, text and lack of an error stay as
      they are for as long as that session is the one shown. */
  lemma {:induction false} DecodedSessionIsFrozen(w: World, steps: seq<Step>)
    requires Sound(w) && w.state.decoded != "" && EnabledRun(w, steps)
    requires Run(w, steps).state.sessionId == w.state.sessionId
    ensures SameFrame(w.state, Run(w, steps).state)
    decreases |steps|
  {
    hide Next, Enabled, PhasesFit, EventsFit;
    if steps == [] {
    } else {
      SessionStays(w, steps);
      DecodedStepIsFrozen(w, steps[0]);
      DecodedSessionIsFrozen(Next(w, steps[0]), steps[1..]);
    }
  }

  /** Ids are fresh, so a session shown before and after a run was shown all along. */
  lemma SessionStays(w: World, steps: seq<Step>)
    requires Sound(w) && w.state.sessionId != "" && EnabledRun(w, steps) && steps != []
    requires Run(w, steps).state.sessionId == w.state.sessionId
    ensures Sound(Next(w, steps[0])) && Next(w, steps[0]).state.sessionId == w.state.sessionId
  {
    var w', id := Next(w, steps[0]), w.state.sessionId;
    StepStaysSound(w, steps[0]);
    assert id in w'.workers;
    if w'.state.sessionId != id {
      SupersededWorkerIsInvisible(w', id, steps[1..]);
      assert false;
    }
  }

  /** Frames the worker of the shown session may still write once the session is inactive. */
  function FramesLeft(w: World): nat {
    if w.state.sessionId !in w.workers then 0
    else
      var phase := w.workers[w.state.sessionId].phase;
      if phase.Capturing? || phase.Captured? then 1 else 0
  }

  lemma StepAfterStop(w: World, step: Step)
    requires Sound(w) && !w.state.active && w.state.sessionId != "" && Enabled(w, step)
    requires Next(w, step).state.sessionId == w.state.sessionId
    ensures var w' := Next(w, step);
            && !w'.state.active && w'.state.frameId >= w.state.frameId
            && w'.state.frameId + FramesLeft(w') <= w.state.frameId + FramesLeft(w)
  {
  }

  /** A session stopped without clearing may show one more frame, if its worker was past the fence at
      the top of its loop, and never two. */
  lemma {:induction false} AtMostOneFrameAfterStop(w: World, steps: seq<Step>)
    requires Sound(w) && !w.state.active && w.state.sessionId != "" && EnabledRun(w, steps)
    requires Run(w, steps).state.sessionId == w.state.sessionId
    ensures w.state.frameId <= Run(w, steps).state.frameId <= w.state.frameId + FramesLeft(w) <= w.state.frameId + 1
    decreases |steps|
  {
    hide Next, Enabled, Sound;
    if steps == [] {
    } else {
      SessionStays(w, steps);
      StepAfterStop(w, steps[0]);
      AtMostOneFrameAfterStop(Next(w, steps[0]), steps[1..]);
    }
  }

  /** The bound is met: a stopped session whose worker was past the fence can still show one more frame. */
  lemma OneFrameAfterStopHappens(w: World, image: string)
    requires Sound(w) && !w.state.active && w.state.sessionId != "" && FramesLeft(w) == 1
    ensures var id := w.state.sessionId;
            var steps := if w.workers[id].phase.Captured? then [WriteFrame(id)]
                         else [Capture(id, image), WriteFrame(id)];
            && EnabledRun(w, steps) && !Run(w, steps).state.active
            && Run(w, steps).state.sessionId == id && Run(w, steps).state.frameId == w.state.frameId + 1
  {
    var id := w.state.sessionId;
    var captured := if w.workers[id].phase.Captured? then w else Next(w, Capture(id, image));
    assert [Capture(id, image), WriteFrame(id)][1..] == [WriteFrame(id)] && [WriteFrame(id)][1..] == [];
    assert EnabledRun(captured, [WriteFrame(id)]);
    assert Run(captured, [WriteFrame(id)]) == Next(captured, WriteFrame(id));
  }

  /** A session started, its worker let past the fence, and the session stopped without clearing. */
  const STOPPED_LATE: seq<Step> := [InstallBlock("s", "bag"), CheckStop("s"), Fence("s"), StopBlock(false)]

  /** Such a session is reached from the start, so the extra frame is real. */
  lemma StoppedLateHappens()
    ensures EnabledRun(START, STOPPED_LATE)
    ensures var w := Run(START, STOPPED_LATE);
            Sound(w) && !w.state.active && w.state.sessionId == "s" && w.state.frameId == 0 && FramesLeft(w) == 1
  {
    var a, b, c, d := STOPPED_LATE[0], STOPPED_LATE[1], STOPPED_LATE[2], STOPPED_LATE[3];
    var none: seq<Step> := [];
    RunAppends(START, none, a);
    RunAppends(START, [a], b);
    RunAppends(START, [a, b], c);
    RunAppends(START, [a, b, c], d);
    assert none + [a] == [a] && [a] + [b] == [a, b] && [a, b] + [c] == [a, b, c];
    assert [a, b, c] + [d] == STOPPED_LATE;
    EveryRunStaysSound(START, STOPPED_LATE);
  }
}
