/** One phone and one Pi: what a sync makes agree, exactly, and what every run of edits, syncs and
    lost replies keeps. */
module Convergence {
  import opened Inventory
  import opened SyncMerge

  /** The rows the phone sends: those stamped after the baseline it syncs from. */
  function ChangedRows(phone: Phone, baseline: int): Phone {
    map id | id in phone && phone[id].updatedAt > baseline :: phone[id]
  }

  function Decision(items: Items, phone: Phone, baseline: int, id: string): Verdict {
    VerdictFor(items, ChangedRows(phone, baseline), baseline, id)
  }

  function SentBack(items: Items, phone: Phone, baseline: int): set<string> {
    set id | id in items && Decision(items, phone, baseline, id).SendServer?
  }

  function ServerAfter(items: Items, phone: Phone, baseline: int): Items {
    Merged(items, ChangedRows(phone, baseline), baseline)
  }

  /** The phone applies a returned row only over a local row it has not changed since the baseline. */
  function PhoneAfter(items: Items, phone: Phone, baseline: int): Phone {
    map id | id in phone.Keys + SentBack(items, phone, baseline) ::
      if id in SentBack(items, phone, baseline) && !PhoneChanged(phone, id, baseline)
      then RowToItem(id, items[id])
      else phone[id]
  }

  predicate Faithful(item: Item) {
    item.category.Named? && item.expiryDate.None?
  }

  /** Rows the phone app writes: a checklist category, and an expiry given in milliseconds only. */
  ghost predicate FaithfulPhone(phone: Phone) {
    forall id | id in phone :: Faithful(phone[id])
  }

  /** Both sides hold the id with the same nine diff fields, or neither holds it. */
  predicate Agree(items: Items, phone: Phone, id: string) {
    && (id in items <==> id in phone)
    && (id in items ==> ContentOf(RowToItem(id, items[id])) == ContentOf(phone[id]))
  }

  predicate Quiet(items: Items, phone: Phone, baseline: int, id: string) {
    !Changed(items, id, baseline) && !PhoneChanged(phone, id, baseline)
  }

  /** Both copies changed and differ, and it is not the case that packed status is the one
      difference and the phone's copy is newer. */
  predicate Clash(items: Items, phone: Phone, baseline: int, id: string) {
    && Changed(items, id, baseline) && PhoneChanged(phone, id, baseline)
    && var s, p := ContentOf(RowToItem(id, items[id])), ContentOf(phone[id]);
       && s != p
       && !(s == p.(packed := s.packed) && phone[id].updatedAt > items[id].updatedAt)
  }

  /** After a sync whose reply arrives, an id agrees unless it was left alone while disagreeing, or
      it clashed. Both conditions can be read off before the sync. */
  lemma SyncAgreesExactly(items: Items, phone: Phone, baseline: int, id: string)
    requires FaithfulPhone(phone)
    ensures Agree(ServerAfter(items, phone, baseline), PhoneAfter(items, phone, baseline), id)
            <==> !(Quiet(items, phone, baseline, id) && !Agree(items, phone, id))
                 && !Clash(items, phone, baseline, id)
  {
    var sent := ChangedRows(phone, baseline);
    var v := Decision(items, phone, baseline, id);
    assert id in sent <==> PhoneChanged(phone, id, baseline);
    if v.TakePhone? {
      assert ServerAfter(items, phone, baseline)[id] == UpsertItem(Find(items, id), phone[id]);
    }
  }

  /** When the reply is lost, an id agrees exactly if it agreed before or the Pi took the phone's row. */
  lemma LostReplyAgreesExactly(items: Items, phone: Phone, baseline: int, id: string)
    requires FaithfulPhone(phone)
    ensures Agree(ServerAfter(items, phone, baseline), phone, id)
            <==> Agree(items, phone, id) || Decision(items, phone, baseline, id).TakePhone?
  {
    var sent := ChangedRows(phone, baseline);
    assert id in sent <==> PhoneChanged(phone, id, baseline);
    if Decision(items, phone, baseline, id).TakePhone? {
      assert ServerAfter(items, phone, baseline)[id] == UpsertItem(Find(items, id), phone[id]);
    }
  }

  /** When both sides changed only the packed status and the Pi's copy is not older, the Pi reports
      the id as resolved and returns its row, but the phone keeps its own changed row. */
  lemma NewerPiPackedStatusNeverReachesPhone(items: Items, phone: Phone, baseline: int, id: string)
    requires Changed(items, id, baseline) && PhoneChanged(phone, id, baseline)
    requires items[id].packed != phone[id].packed
    requires ContentOf(RowToItem(id, items[id])) == ContentOf(phone[id]).(packed := items[id].packed)
    requires items[id].updatedAt >= phone[id].updatedAt
    ensures Decision(items, phone, baseline, id) == SendServer(true)
    ensures PhoneAfter(items, phone, baseline)[id] == phone[id]
    ensures !Agree(ServerAfter(items, phone, baseline), PhoneAfter(items, phone, baseline), id)
  {
    assert ChangedRows(phone, baseline)[id] == phone[id];
  }

  /** A concrete pair of rows of that kind, one millisecond apart. */
  lemma PackedStatusExample()
    ensures var row := Row("bag", "Radio", Named(LightCommunication), 1.0, "pcs", true, "", None, false,
                           21, "pi", None, false, 0.0, "good", None);
            var item := Item("i", "bag", "Radio", Named(LightCommunication), 1.0, "pcs", false, "", None, None,
                             false, 20, "phone");
            && !Agree(ServerAfter(map["i" := row], map["i" := item], 10),
                      PhoneAfter(map["i" := row], map["i" := item], 10), "i")
            && Agree(ServerAfter(map["i" := row], map["i" := item.(updatedAt := 22)], 10),
                     PhoneAfter(map["i" := row], map["i" := item.(updatedAt := 22)], 10), "i")
  {
    var row := Row("bag", "Radio", Named(LightCommunication), 1.0, "pcs", true, "", None, false,
                   21, "pi", None, false, 0.0, "good", None);
    var item := Item("i", "bag", "Radio", Named(LightCommunication), 1.0, "pcs", false, "", None, None,
                     false, 20, "phone");
    NewerPiPackedStatusNeverReachesPhone(map["i" := row], map["i" := item], 10, "i");
    SyncAgreesExactly(map["i" := row], map["i" := item.(updatedAt := 22)], 10, "i");
  }

  // Whole runs.

  /** `doubtful` holds the ids that may disagree although neither side has changed them since the
      baseline; `conflicts` is the phone's conflict table with the server versions it was sent. */
  datatype World = World(
    server: Items, phone: Phone, phoneLastSync: int, piLastSync: int,
    conflicts: map<string, Item>, doubtful: set<string>)

  datatype Event =
    | PhoneEdit(id: string, item: Item)
    | PiEdit(id: string, row: Row)
    | Sync(time: int)
    | SyncReplyLost(time: int)
    | KeepPi(id: string)

  /** Before each sync the phone adopts the Pi's last sync time, unless it has never synced. */
  function Adopted(w: World): int {
    if w.phoneLastSync > 0 then w.piLastSync else 0
  }

  /** The baseline actually used: zero when the phone holds no rows or has none to start from. */
  function BaselineFor(phone: Phone, adopted: int): int {
    if adopted <= 0 || phone == map[] then 0 else adopted
  }

  function Baseline(w: World): int {
    BaselineFor(w.phone, Adopted(w))
  }

  /** The phone's rows are faithful and sync times positive. Edits may carry any stamp. */
  predicate Enabled(w: World, e: Event) {
    match e
    case PhoneEdit(id, item) => Faithful(item) && item.id == id
    case PiEdit(_, _) => true
    case Sync(time) => time > 0
    case SyncReplyLost(time) => time > 0
    case KeepPi(id) => id in w.conflicts
  }

  /** An edit is on time if its stamp is past the sync time the phone will use as its baseline. */
  predicate OnTime(w: World, e: Event) {
    match e
    case PhoneEdit(_, item) => item.updatedAt > Adopted(w)
    case PiEdit(_, row) => row.updatedAt > Adopted(w)
    case _ => true
  }

  /** The ids a sync from this world leaves disagreeing, read off before the sync. */
  function Stuck(w: World): set<string> {
    set id | id in w.server.Keys + w.phone.Keys &&
      ((Quiet(w.server, w.phone, Baseline(w), id) && !Agree(w.server, w.phone, id))
       || Clash(w.server, w.phone, Baseline(w), id))
  }

  function LostStuck(w: World): set<string> {
    set id | id in w.server.Keys + w.phone.Keys &&
      !Agree(w.server, w.phone, id) && !Decision(w.server, w.phone, Baseline(w), id).TakePhone?
  }

  function Reported(w: World): map<string, Item> {
    map id | id in w.server && Decision(w.server, w.phone, Baseline(w), id).Conflict? :: RowToItem(id, w.server[id])
  }

  function Step(w: World, e: Event): World
    requires Enabled(w, e)
  {
    match e
    case PhoneEdit(id, item) =>
      w.(phone := w.phone[id := item], doubtful := if OnTime(w, e) then w.doubtful else w.doubtful + {id})
    case PiEdit(id, row) =>
      w.(server := w.server[id := row], doubtful := if OnTime(w, e) then w.doubtful else w.doubtful + {id})
    case Sync(time) =>
      World(ServerAfter(w.server, w.phone, Baseline(w)), PhoneAfter(w.server, w.phone, Baseline(w)),
            time, time, Reported(w), Stuck(w))
    case SyncReplyLost(time) =>
      w.(server := ServerAfter(w.server, w.phone, Baseline(w)), piLastSync := time,
         phoneLastSync := if w.phoneLastSync > 0 then w.piLastSync else w.phoneLastSync,
         doubtful := w.doubtful + LostStuck(w) + w.conflicts.Keys)
    case KeepPi(id) =>
      w.(phone := w.phone[id := w.conflicts[id]], conflicts := w.conflicts - {id})
  }

  ghost predicate EnabledRun(w: World, events: seq<Event>)
    decreases |events|
  {
    events == [] || (Enabled(w, events[0]) && EnabledRun(Step(w, events[0]), events[1..]))
  }

  function Run(w: World, events: seq<Event>): World
    requires EnabledRun(w, events)
    decreases |events|
  {
    if events == [] then w else Run(Step(w, events[0]), events[1..])
  }

  /** Outside the doubtful ids, whatever neither side changed since the baseline agrees. */
  ghost predicate Settled(w: World) {
    && w.piLastSync >= 0
    && FaithfulPhone(w.phone)
    && (forall id | id in w.conflicts :: Faithful(w.conflicts[id]) && id in w.doubtful)
    && forall id | id !in w.doubtful && Quiet(w.server, w.phone, Adopted(w), id) :: Agree(w.server, w.phone, id)
  }

  lemma QuietSinceBaseline(w: World, id: string)
    requires Settled(w) && id !in w.doubtful && Quiet(w.server, w.phone, Baseline(w), id)
    ensures Agree(w.server, w.phone, id)
  {
    assert Quiet(w.server, w.phone, Adopted(w), id);
  }

  /** A sync leaves exactly the stuck ids disagreeing, and outside the doubtful ids an id is stuck
      only by a clash. */
  lemma SyncSettlesExactly(w: World, time: int)
    requires Settled(w) && time > 0
    ensures var w' := Step(w, Sync(time));
            && (forall id :: Agree(w'.server, w'.phone, id) <==> id !in Stuck(w))
            && (forall id | id in Stuck(w) && id !in w.doubtful :: Clash(w.server, w.phone, Baseline(w), id))
  {
    forall id
      ensures Agree(Step(w, Sync(time)).server, Step(w, Sync(time)).phone, id) <==> id !in Stuck(w)
    {
      SyncAgreesExactly(w.server, w.phone, Baseline(w), id);
    }
    forall id | id in Stuck(w) && id !in w.doubtful
      ensures Clash(w.server, w.phone, Baseline(w), id)
    {
      if Quiet(w.server, w.phone, Baseline(w), id) {
        QuietSinceBaseline(w, id);
      }
    }
  }

  /** The phone's rows stay faithful whatever the Pi sends back. */
  lemma SyncKeepsPhoneFaithful(w: World, time: int)
    requires FaithfulPhone(w.phone) && time > 0
    ensures FaithfulPhone(Step(w, Sync(time)).phone)
  {
  }

  lemma ConflictsAreStuck(w: World)
    requires FaithfulPhone(w.phone)
    ensures forall id | id in Reported(w) :: Faithful(Reported(w)[id]) && id in Stuck(w)
  {
  }

  lemma LostReplySettles(w: World, time: int)
    requires Settled(w) && time > 0
    ensures Settled(Step(w, SyncReplyLost(time)))
  {
    var w' := Step(w, SyncReplyLost(time));
    forall id | id !in w'.doubtful && Quiet(w'.server, w'.phone, Adopted(w'), id)
      ensures Agree(w'.server, w'.phone, id)
    {
      LostReplyAgreesExactly(w.server, w.phone, Baseline(w), id);
      assert id !in LostStuck(w);
    }
  }

  lemma EditSettles(w: World, e: Event)
    requires Settled(w) && Enabled(w, e) && (e.PhoneEdit? || e.PiEdit? || e.KeepPi?)
    ensures Settled(Step(w, e))
  {
    var w' := Step(w, e);
    forall id | id !in w'.doubtful && Quiet(w'.server, w'.phone, Adopted(w'), id)
      ensures Agree(w'.server, w'.phone, id)
    {
      assert Quiet(w.server, w.phone, Adopted(w), id);
    }
  }

  lemma StepStaysSettled(w: World, e: Event)
    requires Settled(w) && Enabled(w, e)
    ensures Settled(Step(w, e))
  {
    match e {
      case Sync(time) =>
        SyncSettlesExactly(w, time);
        SyncKeepsPhoneFaithful(w, time);
        ConflictsAreStuck(w);
      case SyncReplyLost(time) => LostReplySettles(w, time);
      case _ => EditSettles(w, e);
    }
  }

  /** The invariant of every run: edits, syncs, lost replies and conflict choices all keep it. */
  lemma {:induction false} EveryRunStaysSettled(w: World, events: seq<Event>)
    requires Settled(w) && EnabledRun(w, events)
    ensures Settled(Run(w, events))
    decreases |events|
  {
    if events == [] {
    } else {
      StepStaysSettled(w, events[0]);
      EveryRunStaysSettled(Step(w, events[0]), events[1..]);
    }
  }

  /** Right after pairing nothing has been synced and every row has a positive stamp. From there, after
      any run, the next sync leaves disagreeing exactly the stuck ids, and of those only the doubtful
      ones can be stuck without a clash. */
  lemma SyncAfterAnyRun(server: Items, phone: Phone, events: seq<Event>, time: int)
    requires FaithfulPhone(phone) && time > 0
    requires forall id | id in server :: server[id].updatedAt > 0
    requires forall id | id in phone :: phone[id].updatedAt > 0
    requires EnabledRun(World(server, phone, 0, 0, map[], {}), events)
    ensures var w := Run(World(server, phone, 0, 0, map[], {}), events);
            var w' := Step(w, Sync(time));
            && (forall id :: Agree(w'.server, w'.phone, id) <==> id !in Stuck(w))
            && (forall id | id in Stuck(w) && id !in w.doubtful :: Clash(w.server, w.phone, Baseline(w), id))
  {
    var start := World(server, phone, 0, 0, map[], {});
    assert Settled(start);
    EveryRunStaysSettled(start, events);
    SyncSettlesExactly(Run(start, events), time);
  }

  /** No edit is late, no reply is lost, and whenever the run syncs no id clashes. */
  ghost predicate CleanRun(w: World, events: seq<Event>)
    requires EnabledRun(w, events)
    decreases |events|
  {
    events != [] ==>
      && OnTime(w, events[0]) && !events[0].SyncReplyLost?
      && (events[0].Sync? ==> forall id :: !Clash(w.server, w.phone, Baseline(w), id))
      && CleanRun(Step(w, events[0]), events[1..])
  }

  lemma CleanSync(w: World, time: int)
    requires Settled(w) && w.doubtful == {} && time > 0
    requires forall id :: !Clash(w.server, w.phone, Baseline(w), id)
    ensures var w' := Step(w, Sync(time));
            w'.doubtful == {} && forall id :: Agree(w'.server, w'.phone, id)
  {
    SyncSettlesExactly(w, time);
    assert Stuck(w) == {};
  }

  lemma {:induction false} CleanRunStaysClean(w: World, events: seq<Event>)
    requires Settled(w) && w.doubtful == {} && EnabledRun(w, events) && CleanRun(w, events)
    ensures Run(w, events).doubtful == {}
    decreases |events|
  {
    hide Clash, Agree, Quiet;
    if events == [] {
    } else {
      if events[0].Sync? {
        CleanSync(w, events[0].time);
      }
      StepStaysSettled(w, events[0]);
      CleanRunStaysClean(Step(w, events[0]), events[1..]);
    }
  }

  /** The plain case: from first pairing, after any run in which no edit is late, no reply is lost and no
      sync clashes, a sync without a clash leaves every id agreeing. */
  lemma CleanRunsAgree(server: Items, phone: Phone, events: seq<Event>, time: int)
    requires FaithfulPhone(phone) && time > 0
    requires forall id | id in server :: server[id].updatedAt > 0
    requires forall id | id in phone :: phone[id].updatedAt > 0
    requires var start := World(server, phone, 0, 0, map[], {});
             && EnabledRun(start, events) && CleanRun(start, events)
             && var w := Run(start, events);
                forall id :: !Clash(w.server, w.phone, Baseline(w), id)
    ensures var w' := Step(Run(World(server, phone, 0, 0, map[], {}), events), Sync(time));
            forall id :: Agree(w'.server, w'.phone, id)
  {
    var start := World(server, phone, 0, 0, map[], {});
    assert Settled(start);
    hide Settled, Agree, Clash, Quiet, Step;
    EveryRunStaysSettled(start, events);
    CleanRunStaysClean(start, events);
    CleanSync(Run(start, events), time);
  }

  /** A phone that has lost its rows gets all of the Pi's back at the next sync, however long ago it
      last synced. */
  lemma EmptyPhoneIsRefilled(w: World, id: string, time: int)
    requires w.phone == map[] && time > 0
    requires forall k | k in w.server :: w.server[k].updatedAt > 0
    ensures var w' := Step(w, Sync(time));
            Agree(w'.server, w'.phone, id) && w'.conflicts == map[]
  {
    hide DiffOf, UpsertItem, ServerAfter, PhoneAfter;
    SyncAgreesExactly(w.server, w.phone, Baseline(w), id);
    assert Reported(w) == map[];
  }

  predicate IsEdit(e: Event) {
    e.PhoneEdit? || e.PiEdit?
  }

  predicate Edits(e: Event, id: string) {
    IsEdit(e) && e.id == id
  }

  /** `id` is edited at least once, always on the same side, and on time. */
  ghost predicate EditedOnlyBy(w: World, onPhone: bool, id: string, events: seq<Event>) {
    && (forall k | 0 <= k < |events| :: IsEdit(events[k]))
    && (forall k | 0 <= k < |events| && Edits(events[k], id) :: OnTime(w, events[k]))
    && (forall k | 0 <= k < |events| && Edits(events[k], id) :: events[k].PhoneEdit? == onPhone)
    && (exists k | 0 <= k < |events| :: Edits(events[k], id))
  }

  lemma {:induction false} OneSidedEdits(w: World, id: string, events: seq<Event>, onPhone: bool)
    requires EnabledRun(w, events)
    requires forall k | 0 <= k < |events| :: IsEdit(events[k])
    requires forall k | 0 <= k < |events| && Edits(events[k], id) :: OnTime(w, events[k])
    requires forall k | 0 <= k < |events| && Edits(events[k], id) :: events[k].PhoneEdit? == onPhone
    ensures var w' := Run(w, events);
            var edited := exists k | 0 <= k < |events| :: Edits(events[k], id);
            && Adopted(w') == Adopted(w) && (w.phone != map[] ==> w'.phone != map[])
            && (edited && onPhone ==> PhoneChanged(w'.phone, id, Adopted(w)))
            && (edited && !onPhone ==> Changed(w'.server, id, Adopted(w)))
            && (!(edited && onPhone) ==> Find(w'.phone, id) == Find(w.phone, id))
            && (!(edited && !onPhone) ==> Find(w'.server, id) == Find(w.server, id))
    decreases |events|
  {
    if events == [] {
    } else {
      var rest := events[1..];
      OneSidedEdits(Step(w, events[0]), id, rest, onPhone);
      var editedLater := exists k | 0 <= k < |rest| :: Edits(rest[k], id);
      assert (exists k | 0 <= k < |events| :: Edits(events[k], id)) <==> Edits(events[0], id) || editedLater by {
        assert forall k | 0 <= k < |rest| :: rest[k] == events[k + 1];
        assert forall k | 1 <= k < |events| :: events[k] == rest[k - 1];
      }
    }
  }

  /** An id left disagreeing closes at the next sync when exactly one side edits it again. */
  lemma OneSidedEditCloses(w: World, id: string, events: seq<Event>, onPhone: bool, time: int)
    requires Settled(w) && EnabledRun(w, events) && time > 0
    requires Quiet(w.server, w.phone, Adopted(w), id)
    requires EditedOnlyBy(w, onPhone, id, events)
    ensures var w' := Step(Run(w, events), Sync(time));
            Agree(w'.server, w'.phone, id)
  {
    EveryRunStaysSettled(w, events);
    OneSidedEdits(w, id, events, onPhone);
    var before := Run(w, events);
    SyncAgreesExactly(before.server, before.phone, Baseline(before), id);
  }

  lemma ConflictLeavesBothCopies(items: Items, phone: Phone, baseline: int, id: string)
    requires id in items && Decision(items, phone, baseline, id).Conflict?
    ensures Clash(items, phone, baseline, id) && !Agree(items, phone, id)
    ensures id in phone
    ensures id in ServerAfter(items, phone, baseline) && ServerAfter(items, phone, baseline)[id] == items[id]
    ensures id in PhoneAfter(items, phone, baseline) && PhoneAfter(items, phone, baseline)[id] == phone[id]
  {
  }

  lemma QuietDisagreementIsIgnored(items: Items, phone: Phone, baseline: int, id: string)
    requires id in items && id in phone && Quiet(items, phone, baseline, id)
    ensures Decision(items, phone, baseline, id) == Untouched
  {
  }

  lemma ConflictVerdictExactly(server: Item, phone: Item, baseline: int)
    ensures Judge(Some(server), Some(phone), baseline).Conflict? <==>
              && server.updatedAt > baseline && phone.updatedAt > baseline
              && ContentOf(server) != ContentOf(phone).(packed := server.packed)
  {
  }

  /** After a sync the phone's conflict table holds an id exactly when both copies changed since the baseline
      and differ in more than packed status, whatever the table held before. */
  lemma ConflictReportedExactly(w: World, id: string, time: int)
    requires time > 0
    ensures id in Step(w, Sync(time)).conflicts <==>
              && Changed(w.server, id, Baseline(w)) && PhoneChanged(w.phone, id, Baseline(w))
              && var s, p := ContentOf(RowToItem(id, w.server[id])), ContentOf(w.phone[id]);
                 s != p.(packed := s.packed)
  {
    assert id in ChangedRows(w.phone, Baseline(w)) <==> PhoneChanged(w.phone, id, Baseline(w));
    assert !Judge(ServerItem(w.server, id), None, Baseline(w)).Conflict?;
    hide Judge, ServerAfter, PhoneAfter, RowToItem, Stuck;
    if id in w.server && id in w.phone {
      ConflictVerdictExactly(RowToItem(id, w.server[id]), w.phone[id], Baseline(w));
      RowStampKept(id, w.server[id]);
    }
  }

  lemma RowStampKept(id: string, row: Row)
    ensures var item := RowToItem(id, row);
            item.updatedAt == row.updatedAt && ContentOf(item).packed == item.packed
  {
  }

  /** A reported conflict that nobody resolves is dropped from the phone's conflict table by the next
      sync, while the two copies go on disagreeing. */
  lemma UnresolvedConflictIsForgotten(w: World, id: string, first: int, second: int)
    requires FaithfulPhone(w.phone) && first > 0 && second > 0
    requires id in Reported(w)
    requires w.server[id].updatedAt <= first && w.phone[id].updatedAt <= first
    ensures var once := Step(w, Sync(first));
            var twice := Step(once, Sync(second));
            id in once.conflicts && id !in twice.conflicts && !Agree(twice.server, twice.phone, id)
  {
    hide Judge, UpsertItem, Clash;
    ConflictLeavesBothCopies(w.server, w.phone, Baseline(w), id);
    SyncKeepsPhoneFaithful(w, first);
    var once := Step(w, Sync(first));
    assert once.server[id] == w.server[id] && once.phone[id] == w.phone[id];
    DisagreementOutlivesSync(once, id, second);
  }

  lemma DisagreementOutlivesSync(w: World, id: string, time: int)
    requires FaithfulPhone(w.phone) && time > 0
    requires id in w.server && id in w.phone && !Agree(w.server, w.phone, id)
    requires Quiet(w.server, w.phone, Baseline(w), id)
    ensures id !in Reported(w)
    ensures !Agree(Step(w, Sync(time)).server, Step(w, Sync(time)).phone, id)
  {
    QuietDisagreementIsIgnored(w.server, w.phone, Baseline(w), id);
    SyncAgreesExactly(w.server, w.phone, Baseline(w), id);
  }

  /** A row the Pi is sending back stays as it was on the Pi. */
  lemma SentRowStays(items: Items, phone: Phone, baseline: int, id: string)
    requires Changed(items, id, baseline) && !PhoneChanged(phone, id, baseline)
    ensures Changed(ServerAfter(items, phone, baseline), id, baseline)
    ensures ServerAfter(items, phone, baseline)[id] == items[id]
  {
  }

  /** What a lost reply costs: a row the Pi was sending back agrees after the next sync exactly if the
      phone still syncs from zero, having nothing to adopt or no rows. Otherwise it has adopted the Pi's
      later sync time, and the row is quiet and not sent again, though asking from the old baseline would
      have fetched it. */
  lemma LostReplyHidesPiRow(w: World, id: string, first: int, second: int)
    requires FaithfulPhone(w.phone) && 0 < first && 0 < second
    requires Changed(w.server, id, Baseline(w)) && !PhoneChanged(w.phone, id, Baseline(w))
    requires w.server[id].updatedAt <= first && (id in w.phone ==> w.phone[id].updatedAt <= first)
    requires !Agree(w.server, w.phone, id)
    ensures var lost := Step(w, SyncReplyLost(first));
            var w' := Step(lost, Sync(second));
            && (Agree(w'.server, w'.phone, id) <==> w.phone == map[] || Adopted(w) <= 0)
            && Agree(ServerAfter(lost.server, w.phone, Baseline(w)), PhoneAfter(lost.server, w.phone, Baseline(w)), id)
  {
    hide ServerAfter, PhoneAfter, Decision;
    var lost := Step(w, SyncReplyLost(first));
    SentRowStays(w.server, w.phone, Baseline(w), id);
    SyncAgreesExactly(lost.server, lost.phone, Baseline(lost), id);
    SyncAgreesExactly(lost.server, w.phone, Baseline(w), id);
  }

  /** Choosing the Pi's version makes the id agree at once, if the Pi's row is still that version. */
  lemma KeepPiCloses(w: World, id: string)
    requires Enabled(w, KeepPi(id))
    ensures id in w.server && ContentOf(RowToItem(id, w.server[id])) == ContentOf(w.conflicts[id])
            <==> Agree(Step(w, KeepPi(id)).server, Step(w, KeepPi(id)).phone, id)
  {
  }

  /** The events can happen in turn, and after them the id agrees. */
  ghost predicate Closes(w: World, events: seq<Event>, id: string) {
    EnabledRun(w, events) && Agree(Run(w, events).server, Run(w, events).phone, id)
  }

  lemma AfterConflict(w: World, id: string, time: int)
    requires FaithfulPhone(w.phone) && time > 0
    requires id in w.server && id in w.phone && Decision(w.server, w.phone, Baseline(w), id).Conflict?
    ensures var once := Step(w, Sync(time));
            && FaithfulPhone(once.phone) && Adopted(once) == time
            && id in once.server && once.server[id] == w.server[id]
            && id in once.conflicts && once.conflicts[id] == RowToItem(id, w.server[id])
  {
    ConflictLeavesBothCopies(w.server, w.phone, Baseline(w), id);
    SyncKeepsPhoneFaithful(w, time);
    hide ServerAfter, PhoneAfter, Decision, Clash;
  }

  lemma PiRowCloses(w: World, id: string)
    requires Enabled(w, KeepPi(id)) && id in w.server && w.conflicts[id] == RowToItem(id, w.server[id])
    ensures Closes(w, [KeepPi(id)], id)
  {
    var keepPi := KeepPi(id);
    KeepPiCloses(w, id);
    hide Step, Agree, Enabled;
    assert [keepPi][1..] == [];
    assert EnabledRun(Step(w, keepPi), []) && Run(w, [keepPi]) == Step(w, keepPi);
  }

  lemma KeptRowCloses(w: World, id: string, kept: Item, time: int)
    requires FaithfulPhone(w.phone) && Faithful(kept) && kept.id == id && time > 0 && Adopted(w) > 0
    requires kept.updatedAt > Adopted(w) && !Changed(w.server, id, Adopted(w))
    ensures Closes(w, [PhoneEdit(id, kept), Sync(time)], id)
  {
    var edit, sync := PhoneEdit(id, kept), Sync(time);
    var edited := Step(w, edit);
    assert Baseline(edited) == Adopted(w);
    OneSidedIsNoClash(edited, id);
    SyncAgreesExactly(edited.server, edited.phone, Baseline(edited), id);
    hide ServerAfter, PhoneAfter, Agree, Quiet, Clash;
    assert [edit, sync][1..] == [sync] && [sync][1..] == [];
    assert EnabledRun(edited, [sync]) && Run(edited, [sync]) == Step(edited, sync);
  }

  /** Both choices close a reported conflict: taking the Pi's version at once, and keeping the phone's, which
      stamps it anew, at the next sync. */
  lemma ChoicesCloseConflicts(w: World, id: string, first: int, kept: Item, second: int)
    requires FaithfulPhone(w.phone) && 0 < first < kept.updatedAt && 0 < second
    requires id in w.server && id in w.phone && Decision(w.server, w.phone, Baseline(w), id).Conflict?
    requires w.server[id].updatedAt <= first && kept == w.phone[id].(id := id, updatedAt := kept.updatedAt)
    ensures var once := Step(w, Sync(first));
            && id in once.conflicts
            && Closes(once, [KeepPi(id)], id)
            && Closes(once, [PhoneEdit(id, kept), Sync(second)], id)
  {
    hide Closes, Decision, RowToItem;
    AfterConflict(w, id, first);
    var once := Step(w, Sync(first));
    hide Step;
    PiRowCloses(once, id);
    KeptRowCloses(once, id, kept, second);
  }

  lemma OneSidedIsNoClash(w: World, id: string)
    requires PhoneChanged(w.phone, id, Baseline(w)) && !Changed(w.server, id, Baseline(w))
    ensures !Clash(w.server, w.phone, Baseline(w), id) && !Quiet(w.server, w.phone, Baseline(w), id)
  {
  }

  lemma UnsentRow(items: Items, phone: Phone, baseline: int, id: string)
    requires id in phone && !PhoneChanged(phone, id, baseline)
    ensures Find(ServerAfter(items, phone, baseline), id) == Find(items, id)
    ensures id in PhoneAfter(items, phone, baseline)
    ensures PhoneAfter(items, phone, baseline)[id]
            == if Changed(items, id, baseline) then RowToItem(id, items[id]) else phone[id]
  {
    hide UpsertItem, DiffOf;
    assert id !in ChangedRows(phone, baseline);
  }

  /** What a lagging phone clock costs: an edit stamped no later than the baseline is not sent. The Pi's row
      stays as it was; if that row had changed, it overwrites the edit, and otherwise the edit stays on the
      phone alone, disagreeing unless it agreed with the Pi's row anyway. */
  lemma LateEditIsNotCarried(w: World, id: string, item: Item, time: int)
    requires FaithfulPhone(w.phone) && Enabled(w, PhoneEdit(id, item)) && time > 0
    requires item.updatedAt <= Baseline(Step(w, PhoneEdit(id, item)))
    ensures var edited := Step(w, PhoneEdit(id, item));
            var w', carried := Step(edited, Sync(time)), Changed(w.server, id, Baseline(edited));
            && Find(w'.server, id) == Find(w.server, id) && id in w'.phone
            && w'.phone[id] == (if carried then RowToItem(id, w.server[id]) else item)
            && (Agree(w'.server, w'.phone, id) <==> carried || Agree(edited.server, edited.phone, id))
  {
    var edited := Step(w, PhoneEdit(id, item));
    hide ServerAfter, PhoneAfter;
    UnsentRow(edited.server, edited.phone, Baseline(edited), id);
    SyncAgreesExactly(edited.server, edited.phone, Baseline(edited), id);
  }
}
