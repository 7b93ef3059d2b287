/** The session manager itself: `start`, `stop` and the capture loop. Whatever the other threads do in
    their gaps, everything that happens to the object is a run of the step relation in `Camera`. */
module CameraManager {
  import opened Inventory
  import opened Camera

  /** What a camera or decoder call comes back with; a decoder that sees no code answers "". */
  datatype Attempt = Got(value: string) | Raised(reason: string)

  /** One pass of the capture loop: the two calls, and what other threads do before the fence, during
      the capture, during the decode, and before the next block or during the wait. */
  datatype Turn = Turn(
    shot: Attempt, reading: Attempt,
    beforeFence: seq<Step>, duringCapture: seq<Step>, duringDecode: seq<Step>, afterDecode: seq<Step>)

  predicate Foreign(step: Step, id: string) {
    Actor(step) != Some(id) && !(step.InstallBlock? && step.id == id)
  }

  lemma OthersLeaveAlone(w: World, step: Step, id: string)
    requires Enabled(w, step) && Foreign(step, id)
    ensures id in Next(w, step).workers <==> id in w.workers
    ensures id in w.workers ==> Next(w, step).workers[id] == w.workers[id]
    ensures w.stopping <= Next(w, step).stopping
  {
  }

  class UsbCameraSessionManager {
    var state: SessionState
    var current: string
    var stopping: set<string>
    var stopped: set<string>
    var workers: map<string, Worker>
    ghost var trace: seq<Step>

    ghost function Seen(): World
      reads this
    {
      World(state, current, stopping, stopped, workers)
    }

    /** All that ever happened is a run of steps, from the state with no session. */
    ghost predicate Valid()
      reads this
    {
      EnabledRun(START, trace) && Seen() == Run(START, trace)
    }

    constructor ()
      ensures Valid() && trace == []
    {
      state, current, stopping, stopped, workers, trace := NO_SESSION, "", {}, {}, map[], [];
    }

    lemma ValidIsSound()
      requires Valid()
      ensures Sound(Seen())
    {
      EveryRunStaysSound(START, trace);
    }

    /** Notes the step about to be taken. */
    ghost method Take(step: Step)
      requires Valid() && Enabled(Seen(), step)
      modifies this`trace
      ensures trace == old(trace) + [step]
      ensures EnabledRun(START, trace) && Run(START, trace) == Next(old(Seen()), step)
    {
      RunAppends(START, trace, step);
      trace := trace + [step];
    }

    /** The other threads, while the worker or caller of session `id` is between two of its steps. */
    method Others(id: string, steps: seq<Step>)
      requires Valid()
      modifies this
      ensures Valid()
      ensures id in workers <==> id in old(workers)
      ensures id in workers ==> workers[id] == old(workers)[id]
      ensures old(stopping) <= stopping && old(trace) <= trace
      ensures steps == [] ==> Seen() == old(Seen())
    {
      for k := 0 to |steps|
        invariant Valid()
        invariant id in workers <==> id in old(workers)
        invariant id in workers ==> workers[id] == old(workers)[id]
        invariant old(stopping) <= stopping && old(trace) <= trace
        invariant k == 0 ==> Seen() == old(Seen())
      {
        var w := World(state, current, stopping, stopped, workers);
        if Enabled(w, steps[k]) && Foreign(steps[k], id) {
          hide Next, Enabled, Foreign;
          OthersLeaveAlone(w, steps[k], id);
          Take(steps[k]);
          var w' := Next(w, steps[k]);
          state, current, stopping, stopped, workers := w'.state, w'.current, w'.stopping, w'.stopped, w'.workers;
        }
      }
    }

    /** `drawn` is the id of the session the caller is about to install, or "". On return the worker of
        the session that was current when the lock was taken has been told to stop. */
    method Stop(clearState: bool, drawn: string, gap: seq<Step>)
      requires Valid()
      modifies this
      ensures Valid()
      ensures old(current) in stopped
      ensures drawn in workers <==> drawn in old(workers)
      ensures old(trace) + [StopBlock(clearState)] <= trace && trace[|trace| - 1] == SetStopEvent(old(current))
      ensures gap == [] ==>
                && state == (if clearState then SessionState("", "", false, false, 0, "", "", None)
                             else old(state).(active := false, running := false))
                && current == "" && workers == old(workers) && stopped == old(stopped) + {old(current)}
    {
      var stopEvent := current;
      Take(StopBlock(clearState));
      if clearState {
        state := NO_SESSION;
      } else {
        state := state.(active := false, running := false);
      }
      current := "";
      stopping := stopping + {stopEvent};
      Others(drawn, gap);
      Take(SetStopEvent(stopEvent));
      stopped := stopped + {stopEvent};
    }

    /** `id` is the fresh session id drawn before the old session is stopped. */
    method Start(id: string, bagId: string, duringStop: seq<Step>, beforeInstall: seq<Step>)
      requires Valid()
      requires id != "" && id !in workers
      modifies this
      ensures Valid()
      ensures state == SessionState(id, bagId, true, true, 0, "", "", None) && current == id
      ensures id in workers && workers[id] == Worker(AtTop, {}, [])
    {
      Stop(true, id, duringStop);
      Others(id, beforeInstall);
      Take(InstallBlock(id, bagId));
      state := SessionState(id, bagId, true, true, 0, "", "", None);
      current := id;
      workers := workers[id := Worker(AtTop, {}, [])];
    }

    /** The loop condition. */
    method SeesStop(id: string) returns (told: bool)
      requires Valid() && Enabled(Seen(), CheckStop(id))
      modifies this`workers, this`trace
      ensures Valid() && told == (id in stopped)
      ensures id in workers && workers[id] == old(workers)[id].(phase := if told then Exited else Admitted)
    {
      Take(CheckStop(id));
      told := id in stopped;
      workers := workers[id := workers[id].(phase := if told then Exited else Admitted)];
    }

    /** The fence at the top of the loop: only the shown session, and only while it is active. */
    method PassFence(id: string) returns (ok: bool)
      requires Valid() && Enabled(Seen(), Fence(id))
      modifies this`workers, this`trace
      ensures Valid()
      ensures ok <==> state.sessionId == id && state.active
      ensures id in workers && workers[id] == old(workers)[id].(phase := if ok then Capturing else Exited)
    {
      Take(Fence(id));
      ok := !(state.sessionId != id || !state.active);
      workers := workers[id := workers[id].(phase := if ok then Capturing else Exited)];
    }

    /** What the worker `id` does outside the lock. */
    method Work(id: string, step: Step)
      requires step.Capture? || step.DecodeNothing? || step.DecodeText? || step.Fail?
      requires Valid() && Enabled(Seen(), step) && step.id == id
      modifies this`workers, this`trace
      ensures Valid()
      ensures id in workers && workers[id].frames == old(workers)[id].frames
      ensures workers[id].phase == match step
                case Capture(_, image) => Captured(image)
                case DecodeText(_, text) => Decoded(old(workers)[id].phase.image, text)
                case Fail(_, reason) => Failed(reason)
                case _ => AtTop
      ensures workers[id].made == old(workers)[id].made + match step
                case Capture(_, image) => {Image(image)}
                case DecodeText(_, text) => {Reading(old(workers)[id].phase.image, text)}
                case Fail(_, reason) => {Fault(reason)}
                case _ => {}
    {
      Take(step);
      var worker := workers[id];
      var worker' := match step
        case Capture(_, image) => worker.(phase := Captured(image), made := worker.made + {Image(image)})
        case DecodeText(_, text) =>
          worker.(phase := Decoded(worker.phase.image, text), made := worker.made + {Reading(worker.phase.image, text)})
        case Fail(_, reason) => worker.(phase := Failed(reason), made := worker.made + {Fault(reason)})
        case _ => worker.(phase := AtTop);
      workers := workers[id := worker'];
    }

    method PutFrame(id: string, image: string) returns (ok: bool)
      requires Valid() && Enabled(Seen(), WriteFrame(id)) && workers[id].phase == Captured(image)
      modifies this`state, this`workers, this`trace
      ensures Valid()
      ensures ok <==> old(state).sessionId == id
      ensures state == if ok then old(state).(image := image, frameId := old(state).frameId + 1, error := None)
                       else old(state)
      ensures id in workers && workers[id] == if ok
                then old(workers)[id].(phase := Decoding(image), frames := old(workers)[id].frames + [image])
                else old(workers)[id].(phase := Exited)
    {
      Take(WriteFrame(id));
      if state.sessionId != id {
        workers := workers[id := workers[id].(phase := Exited)];
        return false;
      }
      state := state.(image := image, frameId := state.frameId + 1, error := None);
      workers := workers[id := workers[id].(phase := Decoding(image), frames := workers[id].frames + [image])];
      ok := true;
    }

    method PutDecoded(id: string, text: string)
      requires Valid() && Enabled(Seen(), WriteDecoded(id)) && workers[id].phase.text == text
      modifies this`state, this`workers, this`trace
      ensures Valid()
      ensures state == if old(state).sessionId == id then old(state).(decoded := text, running := false) else old(state)
      ensures id in workers && workers[id] == old(workers)[id].(phase := Exited)
    {
      Take(WriteDecoded(id));
      if state.sessionId == id {
        state := state.(decoded := text, running := false);
      }
      workers := workers[id := workers[id].(phase := Exited)];
    }

    method PutError(id: string, reason: string)
      requires Valid() && Enabled(Seen(), WriteError(id)) && workers[id].phase.reason == reason
      modifies this`state, this`workers, this`trace
      ensures Valid()
      ensures state == if old(state).sessionId == id then old(state).(error := Some(reason), running := false)
                       else old(state)
      ensures id in workers && workers[id] == old(workers)[id].(phase := Exited)
    {
      Take(WriteError(id));
      if state.sessionId == id {
        state := state.(error := Some(reason), running := false);
      }
      workers := workers[id := workers[id].(phase := Exited)];
    }

    /** What the decoder came back with has been put down for the image, and is shown if the session still
        is: the text read, or the error raised. */
    ghost predicate TellsReading(id: string, image: string, reading: Attempt)
      requires id in workers
      reads this
    {
      match reading
      case Got(text) =>
        text != "" ==>
          Reading(image, text) in workers[id].made
          && (state.sessionId == id ==> state.decoded == text && !state.running)
      case Raised(reason) =>
        Fault(reason) in workers[id].made
        && (state.sessionId == id ==> state.error == Some(reason) && !state.running)
    }

    /** The part of the loop body after the frame is written. */
    method ReadCode(id: string, turn: Turn) returns (go: bool)
      requires Valid() && id in workers && workers[id].phase.Decoding?
      modifies this
      ensures Valid()
      ensures id in workers && workers[id].phase == if go then AtTop else Exited
      ensures go <==> turn.reading == Got("")
      ensures workers[id].frames == old(workers)[id].frames
      ensures TellsReading(id, old(workers)[id].phase.image, turn.reading)
    {
      hide Valid, Next;
      go := false;
      Others(id, turn.duringDecode);
      if turn.reading.Raised? {
        Work(id, Fail(id, turn.reading.reason));
        Others(id, turn.afterDecode);
        PutError(id, turn.reading.reason);
        return;
      }
      if turn.reading.value != "" {
        Work(id, DecodeText(id, turn.reading.value));
        Others(id, turn.afterDecode);
        PutDecoded(id, turn.reading.value);
        return;
      }
      Work(id, DecodeNothing(id));
      Others(id, turn.afterDecode);
      go := true;
    }

    /** One pass of the loop body; `go` says whether the loop comes round again. */
    method Pass(id: string, turn: Turn) returns (go: bool)
      requires Valid() && id in workers && workers[id].phase.AtTop?
      modifies this
      ensures Valid()
      ensures id in workers && workers[id].phase == if go then AtTop else Exited
      ensures go ==> turn.shot.Got? && turn.reading == Got("")
      ensures workers[id].frames == old(workers)[id].frames
              || (turn.shot.Got? && workers[id].frames == old(workers)[id].frames + [turn.shot.value]
                  && TellsReading(id, turn.shot.value, turn.reading))
      ensures turn.shot.Raised? ==>
                workers[id] == old(workers)[id].(phase := Exited)
                || (workers[id].made == old(workers)[id].made + {Fault(turn.shot.reason)}
                    && (state.sessionId == id ==> state.error == Some(turn.shot.reason) && !state.running))
    {
      hide Valid, Next;
      go := false;
      var told := SeesStop(id);
      if told {
        return;
      }
      Others(id, turn.beforeFence);
      var ok := PassFence(id);
      if !ok {
        return;
      }
      Others(id, turn.duringCapture);
      if turn.shot.Raised? {
        Work(id, Fail(id, turn.shot.reason));
        Others(id, turn.afterDecode);
        PutError(id, turn.shot.reason);
        return;
      }
      Work(id, Capture(id, turn.shot.value));
      ok := PutFrame(id, turn.shot.value);
      if !ok {
        return;
      }
      go := ReadCode(id, turn);
    }

    /** The capture loop over the given turns: it comes round again only while nothing is decoded,
        nothing is raised, the fences let it pass and its stop event is unset. */
    method CaptureLoop(id: string, turns: seq<Turn>) returns (go: bool)
      requires Valid() && id in workers && workers[id].phase.AtTop?
      modifies this
      ensures Valid()
      ensures id in workers && workers[id].phase == if go then AtTop else Exited
      ensures go ==> forall k | 0 <= k < |turns| :: turns[k].shot.Got? && turns[k].reading == Got("")
    {
      go := true;
      var k := 0;
      while k < |turns| && go
        invariant 0 <= k <= |turns| && Valid()
        invariant id in workers && workers[id].phase == if go then AtTop else Exited
        invariant go ==> forall j | 0 <= j < k :: turns[j].shot.Got? && turns[j].reading == Got("")
      {
        go := Pass(id, turns[k]);
        k := k + 1;
      }
    }

    /** The image served for the preview; `None` is the error answer. A served image was captured by the
        worker of the session shown. */
    method FrameResponse() returns (image: Option<string>)
      requires Valid()
      ensures image.None? <==> state.sessionId == "" || state.image == ""
      ensures image.Some? ==> image.value == state.image && state.sessionId in workers
                              && Image(image.value) in workers[state.sessionId].made
    {
      if state.sessionId == "" || state.image == "" {
        return None;
      }
      ValidIsSound();
      image := Some(state.image);
    }
  }
}
