/** The sensor manager in the form the server runs it, its fields updated in place, proved against the
    transitions in `Sensor`. */
module SensorManager {
  import opened Inventory
  import opened Percent
  import opened TextFrame
  import opened Sensor

  class Esp32SensorSerialManager {
    var cfg: Config
    var clock: int
    var snapshot: Snapshot
    var stored: Option<Snapshot>
    var active: bool
    var seen: set<Index>
    var weights: map<Index, real>
    var errors: set<Index>

    ghost function TextFrame(): Frame
      reads this
    {
      Frame(active, seen, weights, errors)
    }

    ghost function State(): World
      reads this
    {
      World(cfg, clock, snapshot, stored, TextFrame())
    }

    constructor (cfg: Config, clock: int)
      ensures State() == Booted(cfg, clock)
    {
      this.cfg, this.clock, snapshot, stored := cfg, clock, Initial(cfg, clock), None;
      active, seen, weights, errors := false, {}, map[], {};
    }

    method LoadPersistedSnapshot()
      modifies this`snapshot
      ensures snapshot == if stored.None? || stored.value.total.None? || stored.value.sections == [] then old(snapshot)
                          else Restored(cfg, stored, clock)
    {
      if stored.None? {
        return;
      }
      if stored.value.total.None? || stored.value.sections == [] {
        return;
      }
      snapshot := stored.value.(connection := Disconnected, available := false, connected := false, updatedAt := clock);
    }

    method BuildSnapshot(connection: Connection, sections: seq<Section>) returns (s: Snapshot)
      ensures s == snapshot.(connection := connection, available := connection.Live?,
                             connected := !connection.Disconnected?, updatedAt := clock,
                             sections := if sections == [] then EmptySections(cfg) else sections)
    {
      s := Snapshot(connection, connection == Live, connection != Disconnected, snapshot.lastReadAt,
                    snapshot.lastLiveAt, clock, snapshot.total, snapshot.exact,
                    if sections != [] then sections else EmptySections(cfg));
    }

    method Carry(connection: Connection)
      modifies this`snapshot
      ensures snapshot == Carried(cfg, old(snapshot), connection, clock)
    {
      var sections := EmptySections(cfg);
      if snapshot.total.Some? {
        sections := snapshot.sections;
      }
      snapshot := BuildSnapshot(connection, sections);
    }

    /** The section states of five weights, one section at a time, and the sum of their shares. */
    method MeasureSections(weightsKg: Weights) returns (sections: seq<Section>, sum: real)
      ensures sections == MeasuredSections(cfg, weightsKg) && sum == TotalShare(sections)
    {
      sections, sum := [], 0.0;
      for k := 0 to SECTION_COUNT
        invariant |sections| == k && sections == MeasuredSections(cfg, weightsKg)[..k]
        invariant sum == TotalShare(sections)
      {
        var full := if cfg[k].fullKg != 0.0 then cfg[k].fullKg else 1.0;
        var threshold := cfg[k].thresholdKg;
        var current := if weightsKg[k] > 0.0 then weightsKg[k] else 0.0;
        var detected := current >= threshold;
        var effective := if detected then current else 0.0;
        var fill := if effective / full < 1.0 then effective / full else 1.0;
        var share := fill * SECTION_PERCENT;
        sum := sum + share;
        sections := sections + [
          Section(k + 1, Scale(full, threshold), Some(current), detected, Some(fill), Some(share))];
        assert sections[..k] == MeasuredSections(cfg, weightsKg)[..k];
      }
      assert sections == MeasuredSections(cfg, weightsKg);
    }

    /** Turns five weights into a live snapshot. */
    method SnapshotFromWeights(weightsKg: Weights, canStore: bool)
      modifies this`snapshot, this`stored
      ensures snapshot == Reading(cfg, weightsKg, clock)
      ensures snapshot.connection.Live? && snapshot.available && snapshot.connected
      ensures snapshot.lastReadAt == snapshot.lastLiveAt == snapshot.updatedAt == clock
      ensures snapshot.exact.Some? && ShowsWeights(cfg, weightsKg, snapshot.sections, snapshot.exact.value)
      ensures snapshot.total.Some? && -0.5 <= snapshot.total.value as real - snapshot.exact.value <= 0.5
      ensures stored == if canStore then Some(snapshot) else old(stored)
    {
      hide ShowsWeights, MeasuredSections, TotalShare, Round;
      var sections, sum := MeasureSections(weightsKg);
      var exact := if sum < 100.0 then sum else 100.0;
      var total := Round(exact);
      if total > 100 {
        total := 100;
      }
      MeasuredShowsWeights(cfg, weightsKg);
      TotalIsNearExact(cfg, weightsKg);
      snapshot := Snapshot(Live, true, true, clock, clock, clock, Some(total), Some(exact), sections);
      if canStore {
        stored := Some(snapshot);
      }
    }

    method RecordParseError(clearPayload: bool)
      modifies this`snapshot
      ensures snapshot == AfterParseError(cfg, old(snapshot), clearPayload, clock)
    {
      var next := Connecting;
      if !clearPayload && (snapshot.connection == Live || snapshot.connection == Stale) {
        next := snapshot.connection;
      }
      Carry(next);
    }

    method MarkStaleIfNeeded(timeoutMs: int)
      modifies this`snapshot
      ensures State() == Handle(old(State()), SilentRead, timeoutMs)
    {
      if snapshot.connection != Live && snapshot.connection != Connecting {
        return;
      }
      var reference := if snapshot.connection == Live then snapshot.lastReadAt else snapshot.updatedAt;
      if reference == 0 || clock - reference < timeoutMs {
        return;
      }
      Carry(Stale);
    }

    method ResetTextFrame()
      modifies this`active, this`seen, this`weights, this`errors
      ensures TextFrame() == NO_FRAME
    {
      active, seen, weights, errors := false, {}, map[], {};
    }

    method FinalizeTextFrame(canStore: bool)
      modifies this`snapshot, this`stored
      ensures var outcome := Finalized(TextFrame());
              && (outcome.Complete? ==> snapshot == Reading(cfg, outcome.weights, clock)
                                        && stored == if canStore then Some(snapshot) else old(stored))
              && (!outcome.Complete? ==> stored == old(stored))
              && (outcome.Broken? ==> snapshot == AfterParseError(cfg, old(snapshot), true, clock))
              && (outcome.Consumed? ==> snapshot == old(snapshot))
    {
      if !active {
        return;
      }
      if errors != {} {
        RecordParseError(true);
        return;
      }
      if weights.Keys != ALL {
        RecordParseError(true);
        return;
      }
      SnapshotFromWeights(InOrder(weights), canStore);
    }

    method AddSectionLine(index: Index, report: Report)
      modifies this`active, this`seen, this`weights, this`errors
      ensures TextFrame() == WithSection(old(TextFrame()), index, report)
    {
      if !active {
        ResetTextFrame();
        active := true;
      }
      seen := seen + {index};
      match report {
        case Problem => errors := errors + {index};
        case Weight(kg) => weights := weights[index := if kg > 0.0 then kg else 0.0];
      }
    }

    method ConsumeTextStatusLine(line: Line, canStore: bool) returns (consumed: bool)
      modifies this`snapshot, this`stored, this`active, this`seen, this`weights, this`errors
      ensures State() == IngestLine(old(State()), Text(line, NotPayload), canStore)
      ensures consumed == !Consume(old(TextFrame()), line).1.NotConsumed?
    {
      hide WithSection, Usable, Reading, AfterParseError;
      match line {
        case Header =>
          ResetTextFrame();
          active := true;
          return true;
        case SectionLine(index, report) =>
          AddSectionLine(index, report);
          if |seen| == SECTION_COUNT {
            FinalizeTextFrame(canStore);
            ResetTextFrame();
          }
          return true;
        case Footer =>
          if active {
            FinalizeTextFrame(canStore);
            ResetTextFrame();
            return true;
          }
          return false;
        case OtherText =>
          return active;
      }
    }

    method IngestSerialLine(line: SerialLine, canStore: bool)
      modifies this
      ensures State() == IngestLine(old(State()), line, canStore)
    {
      match line {
        case Blank => return;
        case Status => Carry(Connecting);
        case Text(text, payload) =>
          var consumed := ConsumeTextStatusLine(text, canStore);
          if consumed {
            return;
          }
          match payload {
            case NotPayload => return;
            case BadPayload => RecordParseError(false);
            case Readings(weightsKg) => SnapshotFromWeights(weightsKg, canStore);
          }
      }
    }

    /** A new process: its own fields start afresh, and the database keeps what was stored. */
    method Reboot(newCfg: Config, timeoutMs: int)
      modifies this
      ensures State() == Handle(old(State()), Restart(newCfg), timeoutMs)
    {
      cfg := newCfg;
      snapshot := Initial(newCfg, clock);
      ResetTextFrame();
      LoadPersistedSnapshot();
    }
  }
}
