/** The sensor snapshot: its transitions, and what every sequence of events keeps. Each transition reads
    the clock once. The texts shown to people and the raw payload are not part of the snapshot here. */
module Sensor {
  import opened Inventory
  import opened Percent
  import opened TextFrame

  datatype Connection = Connecting | Live | Stale | Disconnected

  datatype Snapshot = Snapshot(
    connection: Connection, available: bool, connected: bool, lastReadAt: int, lastLiveAt: int, updatedAt: int,
    total: Option<int>, exact: Option<real>, sections: seq<Section>)

  function Initial(cfg: Config, now: int): Snapshot {
    Snapshot(Disconnected, false, false, 0, 0, now, None, None, EmptySections(cfg))
  }

  function Reading(cfg: Config, weights: Weights, now: int): Snapshot {
    var sections := MeasuredSections(cfg, weights);
    Snapshot(Live, true, true, now, now, now, Some(Total(sections)), Some(Exact(sections)), sections)
  }

  /** The last reading carried over into another connection state. */
  function Carried(cfg: Config, s: Snapshot, connection: Connection, now: int): Snapshot {
    Snapshot(connection, connection.Live?, !connection.Disconnected?, s.lastReadAt, s.lastLiveAt, now, s.total, s.exact,
             if s.total.Some? && s.sections != [] then s.sections else EmptySections(cfg))
  }

  predicate TurnsStale(s: Snapshot, now: int, timeoutMs: int) {
    var reference := if s.connection.Live? then s.lastReadAt else s.updatedAt;
    (s.connection.Live? || s.connection.Connecting?) && reference != 0 && now - reference >= timeoutMs
  }

  function AfterParseError(cfg: Config, s: Snapshot, clearPayload: bool, now: int): Snapshot {
    var next := if clearPayload then Connecting
                else if s.connection.Live? || s.connection.Stale? then s.connection else Connecting;
    Carried(cfg, s, next, now)
  }

  /** What a new process shows: the stored reading if there is one, and nothing live. */
  function Restored(cfg: Config, stored: Option<Snapshot>, now: int): Snapshot {
    if stored.None? || stored.value.total.None? || stored.value.sections == [] then Initial(cfg, now)
    else stored.value.(connection := Disconnected, available := false, connected := false, updatedAt := now)
  }

  /** A serial line once its pattern is known, in the order the patterns are tried. A payload is what
      the JSON and plain-number parsers make of a line no other pattern took. */
  datatype Payload = NotPayload | BadPayload | Readings(weights: Weights)
  datatype SerialLine = Blank | Status | Text(line: Line, payload: Payload)

  /** `stored` tells whether the database accepted a live snapshot. */
  datatype Event =
    | Elapse(ms: nat)
    | Ingest(line: SerialLine, stored: bool)
    | PortLost
    | PortOpened
    | SilentRead
    | SilentTooLong
    | Restart(cfg: Config)

  datatype World = World(cfg: Config, clock: int, snapshot: Snapshot, stored: Option<Snapshot>, frame: Frame)

  /** The weights a line brings in, if it brings in a reading. */
  function WeightsFrom(f: Frame, line: SerialLine): Option<Weights> {
    if !line.Text? then None
    else
      var outcome := Consume(f, line.line).1;
      if outcome.Complete? then Some(outcome.weights)
      else if outcome.NotConsumed? && line.payload.Readings? then Some(line.payload.weights)
      else None
  }

  function IngestLine(w: World, line: SerialLine, stored: bool): World {
    match line
    case Blank => w
    case Status => w.(snapshot := Carried(w.cfg, w.snapshot, Connecting, w.clock))
    case Text(text, payload) =>
      var (frame, outcome) := Consume(w.frame, text);
      var reading := WeightsFrom(w.frame, line);
      var w' := w.(frame := frame);
      if reading.Some? then
        var snapshot := Reading(w.cfg, reading.value, w.clock);
        w'.(snapshot := snapshot, stored := if stored then Some(snapshot) else w.stored)
      else if outcome.Broken? then w'.(snapshot := AfterParseError(w.cfg, w.snapshot, true, w.clock))
      else if outcome.NotConsumed? && payload.BadPayload? then
        w'.(snapshot := AfterParseError(w.cfg, w.snapshot, false, w.clock))
      else w'
  }

  function Handle(w: World, e: Event, timeoutMs: int): World {
    match e
    case Elapse(ms) => w.(clock := w.clock + ms)
    case Ingest(line, stored) => IngestLine(w, line, stored)
    case PortLost => w.(snapshot := Carried(w.cfg, w.snapshot, Disconnected, w.clock))
    case PortOpened => w.(snapshot := Carried(w.cfg, w.snapshot, Connecting, w.clock))
    case SilentRead =>
      if TurnsStale(w.snapshot, w.clock, timeoutMs) then w.(snapshot := Carried(w.cfg, w.snapshot, Stale, w.clock))
      else w
    case SilentTooLong => w.(snapshot := Carried(w.cfg, w.snapshot, Connecting, w.clock))
    case Restart(cfg) => World(cfg, w.clock, Restored(cfg, w.stored, w.clock), w.stored, NO_FRAME)
  }

  function Run(w: World, events: seq<Event>, timeoutMs: int): World
    decreases |events|
  {
    if events == [] then w else Run(Handle(w, events[0], timeoutMs), events[1..], timeoutMs)
  }

  function Booted(cfg: Config, clock: int): World {
    World(cfg, clock, Initial(cfg, clock), None, NO_FRAME)
  }

  /** A section shown with a reading is what its own weight, full weight and threshold make it. */
  predicate FaithfulSection(s: Section) {
    && s.scale.fullKg > 0.0 && s.weightKg.Some? && s.weightKg.value >= 0.0
    && s == Measured(s.index, s.scale, s.weightKg.value)
  }

  predicate Blankish(s: Section) {
    s.weightKg.None? && !s.detected && s.fill.None? && s.percent.None?
  }

  /** What every snapshot satisfies: the flags follow the state, the two times agree, and a percentage
      is the rounded capped sum of the shares of the sections shown with it. */
  predicate Consistent(s: Snapshot) {
    && (s.available <==> s.connection.Live?)
    && (s.connected <==> !s.connection.Disconnected?)
    && s.lastReadAt == s.lastLiveAt
    && |s.sections| == SECTION_COUNT
    && (forall k | 0 <= k < SECTION_COUNT :: s.sections[k].index == k + 1)
    && (s.exact.Some? <==> s.total.Some?)
    && (s.connection.Live? ==> s.total.Some?)
    && (s.total.Some? ==> s.total == Some(Total(s.sections)) && s.exact == Some(Exact(s.sections)))
    && (s.total.Some? ==> forall k | 0 <= k < SECTION_COUNT :: FaithfulSection(s.sections[k]))
    && (s.total.None? ==> s.lastReadAt == 0 && forall k | 0 <= k < SECTION_COUNT :: Blankish(s.sections[k]))
  }

  predicate Sound(w: World) {
    && Consistent(w.snapshot)
    && (w.snapshot.total.Some? ==> 0 <= w.snapshot.lastReadAt <= w.clock)
    && w.clock >= 0
    && match w.stored
       case None => true
       case Some(s) => Consistent(s) && s.total.Some? && w.snapshot.total.Some?
                       && 0 <= s.lastReadAt <= w.snapshot.lastReadAt
  }

  lemma ReadingIsConsistent(cfg: Config, weights: Weights, now: int)
    ensures Consistent(Reading(cfg, weights, now))
  {
    var sections := MeasuredSections(cfg, weights);
    forall k | 0 <= k < SECTION_COUNT
      ensures FaithfulSection(sections[k])
    {
    }
  }

  lemma HandleKeepsSound(w: World, e: Event, timeoutMs: int)
    requires Sound(w)
    ensures Sound(Handle(w, e, timeoutMs))
  {
    hide Total, Exact, Measured, MeasuredSections, Consume;
    if e.Ingest? && WeightsFrom(w.frame, e.line).Some? {
      ReadingIsConsistent(w.cfg, WeightsFrom(w.frame, e.line).value, w.clock);
    }
  }

  lemma {:induction false} RunKeepsSound(w: World, events: seq<Event>, timeoutMs: int)
    requires Sound(w)
    ensures Sound(Run(w, events, timeoutMs))
    decreases |events|
  {
    hide Sound, Handle;
    if events == [] {
    } else {
      HandleKeepsSound(w, events[0], timeoutMs);
      RunKeepsSound(Handle(w, events[0], timeoutMs), events[1..], timeoutMs);
    }
  }

  lemma FaithfulTotalInRange(s: Snapshot)
    requires Consistent(s) && s.total.Some?
    ensures 0 <= s.total.value <= 100 && 0.0 <= s.exact.value <= 100.0
  {
    forall k | 0 <= k < SECTION_COUNT
      ensures 0.0 <= Share(s.sections[k]) <= SECTION_PERCENT
    {
      var section := s.sections[k];
      FillIsMonotone(section.scale, section.weightKg.value, section.weightKg.value);
    }
    SharesOrdered(s.sections, s.sections);
    RoundIsMonotone(0.0, Exact(s.sections));
    RoundIsMonotone(Exact(s.sections), 100.0);
  }

  /** Through any readings, errors, disconnects, reconnects, stale checks and restarts: the flags follow
      the state, and a percentage is the rounded capped sum, in 0..100, of the sections shown with it. */
  lemma SnapshotsStayConsistent(cfg: Config, clock: int, events: seq<Event>, timeoutMs: int)
    requires clock >= 0
    ensures var s := Run(Booted(cfg, clock), events, timeoutMs).snapshot;
            Consistent(s) && (s.total.Some? ==> 0 <= s.total.value <= 100)
  {
    RunKeepsSound(Booted(cfg, clock), events, timeoutMs);
    var s := Run(Booted(cfg, clock), events, timeoutMs).snapshot;
    if s.total.Some? {
      FaithfulTotalInRange(s);
    }
  }

  predicate IsReading(w: World, e: Event) {
    e.Ingest? && WeightsFrom(w.frame, e.line).Some?
  }

  /** What the flags and the stamp are after a transition into a connection state. */
  predicate Shows(s: Snapshot, connection: Connection, now: int) {
    && s.connection == connection && s.updatedAt == now
    && (s.available <==> connection == Live) && (s.connected <==> connection != Disconnected)
  }

  /** What each event shows. A silent read turns a live state stale once the timeout has passed since the
      last reading, and a connecting one once it has passed since the last change; before that it changes
      nothing. A lost port shows as disconnected; an opened port, a status line and a port silent for too long
      show as connecting. A line that looks like a payload and is none keeps a live or stale state. */
  lemma EventsInPlainTerms(w: World, e: Event, timeoutMs: int)
    ensures var s, w' := w.snapshot, Handle(w, e, timeoutMs);
            && w'.clock == (if e.Elapse? then w.clock + e.ms else w.clock)
            && (e.Elapse? ==> w'.snapshot == s)
            && (e.PortLost? ==> Shows(w'.snapshot, Disconnected, w.clock))
            && (e.PortOpened? || e.SilentTooLong? ==> Shows(w'.snapshot, Connecting, w.clock))
            && (e.Ingest? && e.line.Status? ==> Shows(w'.snapshot, Connecting, w.clock))
            && (e.Ingest? && e.line.Blank? ==> w'.snapshot == s)
            && (e.SilentRead? ==>
                  if (s.connection == Live && s.lastReadAt != 0 && w.clock >= s.lastReadAt + timeoutMs)
                     || (s.connection == Connecting && s.updatedAt != 0 && w.clock >= s.updatedAt + timeoutMs)
                  then Shows(w'.snapshot, Stale, w.clock) else w'.snapshot == s)
            && (IsReading(w, e) ==> Shows(w'.snapshot, Live, w.clock) && w'.snapshot.lastReadAt == w.clock)
            && (e.Restart? ==> Shows(w'.snapshot, Disconnected, w.clock))
  {
    hide Consume, MeasuredSections, EmptySections;
  }

  /** As long as nothing has been read, each change shows the five sections as configured, without weights. */
  lemma NothingReadNothingShown(w: World, e: Event, timeoutMs: int)
    ensures var w' := Handle(w, e, timeoutMs);
            w'.snapshot != w.snapshot && w'.snapshot.total.None? ==>
              w'.snapshot.sections == [
                Section(1, w'.cfg[0], None, false, None, None), Section(2, w'.cfg[1], None, false, None, None),
                Section(3, w'.cfg[2], None, false, None, None), Section(4, w'.cfg[3], None, false, None, None),
                Section(5, w'.cfg[4], None, false, None, None)]
  {
    hide Consume, MeasuredSections;
  }

  /** What a line of text shows when it brings no reading: a frame given up shows as connecting, and so does
      a bad payload unless the state is live or stale, which it keeps; any other line shows nothing new. */
  lemma LinesInPlainTerms(w: World, lines: seq<Line>, line: Line, payload: Payload, stored: bool, timeoutMs: int)
    requires w.frame == FrameAfter(lines) && !IsReading(w, Ingest(Text(line, payload), stored))
    ensures var s, s' := w.snapshot, Handle(w, Ingest(Text(line, payload), stored), timeoutMs).snapshot;
            if (line.Footer? && IsOpen(lines))
               || (line.SectionLine? && Indices(Closed(lines + [line])) == ALL)
            then Shows(s', Connecting, w.clock)
            else if (line.Footer? || line.OtherText?) && !IsOpen(lines) && payload.BadPayload?
            then Shows(s', if s.connection in {Live, Stale} then s.connection else Connecting, w.clock)
            else s' == s
  {
    var all := lines + [line];
    assert all[..|all| - 1] == lines && all[|all| - 1] == line;
    CompletesExactly(all);
    BrokenExactly(all);
    hide Consume, FrameAfter, Closed, Indices, EmptySections;
    assert Consume(w.frame, line).1 == OutcomeOf(all);
    if line.SectionLine? && Indices(Closed(all)) == ALL && !OutcomeOf(all).Complete? {
      var e :| e in Closed(all) && !e.1.Weight?;
    }
  }

  predicate SameReading(s: Snapshot, t: Snapshot) {
    t.total == s.total && t.exact == s.exact && t.lastReadAt == s.lastReadAt
    && (s.total.Some? ==> t.sections == s.sections)
  }

  /** A step that is neither a reading nor a restart shows the same reading as before, and never turns
      a state that is not live into a live one. */
  lemma OnlyReadingsChangeWhatIsShown(w: World, e: Event, timeoutMs: int)
    requires Sound(w) && !e.Restart? && !IsReading(w, e)
    ensures var w' := Handle(w, e, timeoutMs);
            && SameReading(w.snapshot, w'.snapshot) && w'.stored == w.stored
            && (w'.snapshot.connection.Live? ==> w.snapshot.connection.Live?)
  {
    hide Total, Exact, Consume;
  }

  ghost predicate NoReadings(w: World, events: seq<Event>, timeoutMs: int)
    decreases |events|
  {
    events == [] || (!events[0].Restart? && !IsReading(w, events[0])
                     && NoReadings(Handle(w, events[0], timeoutMs), events[1..], timeoutMs))
  }

  lemma {:induction false} WithoutReadingsNothingNewIsShown(w: World, events: seq<Event>, timeoutMs: int)
    requires Sound(w) && NoReadings(w, events, timeoutMs)
    ensures var w' := Run(w, events, timeoutMs);
            && SameReading(w.snapshot, w'.snapshot)
            && (w'.snapshot.connection.Live? ==> w.snapshot.connection.Live?)
    decreases |events|
  {
    hide Sound, Handle, IsReading;
    if events == [] {
    } else {
      OnlyReadingsChangeWhatIsShown(w, events[0], timeoutMs);
      HandleKeepsSound(w, events[0], timeoutMs);
      WithoutReadingsNothingNewIsShown(Handle(w, events[0], timeoutMs), events[1..], timeoutMs);
    }
  }

  /** A silent read made once the timeout has passed since the last reading ends the live state, and
      only a new reading or a restart brings it back. */
  lemma StaleUntilNextReading(w: World, ms: nat, events: seq<Event>, timeoutMs: int)
    requires Sound(w) && w.snapshot.lastReadAt > 0
    requires w.clock + ms - w.snapshot.lastReadAt >= timeoutMs
    requires var quiet := Run(w, [Elapse(ms), SilentRead], timeoutMs); NoReadings(quiet, events, timeoutMs)
    ensures var w' := Run(Run(w, [Elapse(ms), SilentRead], timeoutMs), events, timeoutMs);
            !w'.snapshot.connection.Live? && SameReading(w.snapshot, w'.snapshot)
  {
    var later := Handle(w, Elapse(ms), timeoutMs);
    var quiet := Handle(later, SilentRead, timeoutMs);
    assert [Elapse(ms), SilentRead][1..] == [SilentRead] && [SilentRead][1..] == [];
    assert Run(w, [Elapse(ms), SilentRead], timeoutMs) == Run(later, [SilentRead], timeoutMs) == quiet;
    HandleKeepsSound(w, Elapse(ms), timeoutMs);
    HandleKeepsSound(later, SilentRead, timeoutMs);
    OnlyReadingsChangeWhatIsShown(w, Elapse(ms), timeoutMs);
    OnlyReadingsChangeWhatIsShown(later, SilentRead, timeoutMs);
    WithoutReadingsNothingNewIsShown(quiet, events, timeoutMs);
  }

  /** Within one process the time of the last reading never goes back. */
  lemma {:induction false} LastReadNeverGoesBack(w: World, events: seq<Event>, timeoutMs: int)
    requires Sound(w) && forall k | 0 <= k < |events| :: !events[k].Restart?
    ensures w.snapshot.lastReadAt <= Run(w, events, timeoutMs).snapshot.lastReadAt
    decreases |events|
  {
    hide Total, Exact, Consume;
    if events == [] {
    } else {
      if !IsReading(w, events[0]) {
        OnlyReadingsChangeWhatIsShown(w, events[0], timeoutMs);
      }
      HandleKeepsSound(w, events[0], timeoutMs);
      LastReadNeverGoesBack(Handle(w, events[0], timeoutMs), events[1..], timeoutMs);
    }
  }

  /** A restart shows the reading from before exactly when that reading had been stored, or nothing had
      been read; otherwise it shows an older one. */
  lemma RestartKeepsReadingExactly(w: World, cfg: Config, timeoutMs: int)
    requires Sound(w)
    ensures var w' := Handle(w, Restart(cfg), timeoutMs);
            && w'.snapshot.connection.Disconnected?
            && w'.snapshot.lastReadAt <= w.snapshot.lastReadAt
            && (SameReading(w.snapshot, w'.snapshot) <==>
                  if w.stored.None? then w.snapshot.total.None? else SameReading(w.snapshot, w.stored.value))
  {
  }

  /** The stored reading is the one shown, or nothing has been read. */
  predicate ShownIsStored(w: World) {
    match w.stored
    case None => w.snapshot.total.None?
    case Some(s) => SameReading(s, w.snapshot)
  }

  predicate Stores(e: Event) {
    e.Ingest? ==> e.stored
  }

  lemma StoringKeepsShown(w: World, e: Event, timeoutMs: int)
    requires Sound(w) && ShownIsStored(w) && Stores(e)
    ensures ShownIsStored(Handle(w, e, timeoutMs))
    ensures w.snapshot.lastReadAt <= Handle(w, e, timeoutMs).snapshot.lastReadAt
  {
    hide Total, Exact, Consume;
    if !e.Restart? && !IsReading(w, e) {
      OnlyReadingsChangeWhatIsShown(w, e, timeoutMs);
    }
  }

  /** Through restarts as well, the time of the last reading never goes back, as long as the database
      accepts every live reading. */
  lemma {:induction false} LastReadSurvivesRestarts(w: World, events: seq<Event>, timeoutMs: int)
    requires Sound(w) && ShownIsStored(w) && forall k | 0 <= k < |events| :: Stores(events[k])
    ensures w.snapshot.lastReadAt <= Run(w, events, timeoutMs).snapshot.lastReadAt
    decreases |events|
  {
    hide Handle, Sound, ShownIsStored, Stores;
    if events == [] {
    } else {
      StoringKeepsShown(w, events[0], timeoutMs);
      HandleKeepsSound(w, events[0], timeoutMs);
      LastReadSurvivesRestarts(Handle(w, events[0], timeoutMs), events[1..], timeoutMs);
    }
  }

  /** The text lines received since the last restart, after `lines` already received. */
  function TextLines(lines: seq<Line>, events: seq<Event>): seq<Line>
    decreases |events|
  {
    if events == [] then lines
    else
      var e := events[0];
      TextLines(if e.Restart? then [] else if e.Ingest? && e.line.Text? then lines + [e.line.line] else lines,
                events[1..])
  }

  lemma {:induction false} FrameFollowsLines(w: World, lines: seq<Line>, events: seq<Event>, timeoutMs: int)
    requires w.frame == FrameAfter(lines)
    ensures Run(w, events, timeoutMs).frame == FrameAfter(TextLines(lines, events))
    decreases |events|
  {
    hide Consume;
    if events == [] {
    } else {
      var e := events[0];
      if e.Ingest? && e.line.Text? {
        assert (lines + [e.line.line])[..|lines|] == lines;
      }
      var lines' := if e.Restart? then [] else if e.Ingest? && e.line.Text? then lines + [e.line.line] else lines;
      FrameFollowsLines(Handle(w, e, timeoutMs), lines', events[1..], timeoutMs);
    }
  }

  lemma {:induction false} LastKgNotNegative(p: Reports, i: Index)
    ensures LastKg(p, i).Some? ==> LastKg(p, i).value >= 0.0
  {
    if p == [] {
    } else {
      LastKgNotNegative(p[..|p| - 1], i);
    }
  }

  /** In any run, a live reading made from text lines shows for each section the weight it last reported
      since the frame was last reset; every section reported one, and none reported a problem. */
  lemma TextReadingsAreSound(cfg: Config, clock: int, events: seq<Event>, line: Line, stored: bool, timeoutMs: int)
    ensures var w := Run(Booted(cfg, clock), events, timeoutMs);
            var lines := TextLines([], events) + [line];
            var s := Handle(w, Ingest(Text(line, NotPayload), stored), timeoutMs).snapshot;
            WeightsFrom(w.frame, Text(line, NotPayload)).Some? ==>
              && s.connection.Live? && s.lastReadAt == w.clock && line.SectionLine?
              && Indices(Closed(lines)) == ALL
              && (forall e | e in Closed(lines) :: e.1.Weight?)
              && (forall i: Index :: s.sections[i - 1].weightKg == LastKg(Closed(lines), i))
  {
    var w := Run(Booted(cfg, clock), events, timeoutMs);
    var before := TextLines([], events);
    var lines := before + [line];
    FrameFollowsLines(Booted(cfg, clock), [], events, timeoutMs);
    assert lines[..|lines| - 1] == before && lines[|lines| - 1] == line;
    CompletesExactly(lines);
    if WeightsFrom(w.frame, Text(line, NotPayload)).Some? {
      hide Consume, FrameAfter, Run, LastKg, Closed, Indices;
      var ws := OutcomeOf(lines).weights;
      forall i: Index
        ensures Reading(w.cfg, ws, w.clock).sections[i - 1].weightKg == LastKg(Closed(lines), i)
      {
        LastKgNotNegative(Closed(lines), i);
      }
    }
  }
}
