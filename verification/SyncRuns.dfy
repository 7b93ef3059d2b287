/** A phone and a Pi over a whole life: item and bag requests served by the Pi, edits and choices made on the
    phone, and syncs whose replies arrive or are lost. */
module SyncRuns {
  import opened Inventory
  import opened SyncMerge
  import opened Batches
  import opened Convergence
  import opened PhoneStore
  import IR = InventoryRuns
  import DB = PiDatabase
  import B = Bags

  datatype Action =
    | OnPi(request: DB.Request)
    | EditItem(item: Item)
    | EditBag(bag: B.Bag)
    | TakePiVersion(id: string)
    | SyncPhone(replyArrives: bool)

  /** The two objects as a world of the run model. */
  ghost function Seen(db: DB.Database, phone: PhoneTable, doubtful: set<string>): World
    reads db, phone
  {
    World(db.items, phone.items, phone.lastSyncAt, db.lastSyncTime, phone.conflicts, doubtful)
  }

  /** Rows a phone could take. */
  ghost predicate Takeable(rows: map<string, Item>, bagId: string) {
    forall id | id in rows :: Faithful(rows[id]) && rows[id].id == id && rows[id].bagId == bagId
  }

  /** One bag on both sides, and conflict rows that the phone can take. */
  ghost predicate Paired(db: DB.Database, phone: PhoneTable)
    reads db, phone
  {
    && phone.Valid() && db.OneBag(phone.bagId) && db.clock > 0
    && Takeable(phone.conflicts, phone.bagId)
  }

  lemma {:induction false} RunsJoin(w: World, a: seq<Event>, b: seq<Event>)
    requires EnabledRun(w, a) && EnabledRun(Run(w, a), b)
    ensures EnabledRun(w, a + b) && Run(w, a + b) == Run(Run(w, a), b)
    decreases |a|
  {
    hide Step, Enabled;
    if a == [] {
      assert a + b == b;
    } else {
      assert (a + b)[1..] == a[1..] + b;
      RunsJoin(Step(w, a[0]), a[1..], b);
    }
  }

  lemma OneEvent(w: World, e: Event)
    requires Enabled(w, e)
    ensures EnabledRun(w, [e]) && Run(w, [e]) == Step(w, e)
  {
    hide Step, Enabled;
    assert [e][1..] == [];
    assert Run(Step(w, e), []) == Step(w, e);
  }

  /** The row edits that an item event amounts to: one, or two when a row is folded into another. */
  function PiEdits(items: Items, e: ItemEvent): seq<Event> {
    match e
    case Remove(id, now, author) => if id in items then [PiEdit(id, Retired(items[id], now, author))] else []
    case Put(w) =>
      var written := items[TargetId(w) := TargetRow(items, w)];
      var first := PiEdit(TargetId(w), TargetRow(items, w));
      if w.found.Some? && w.itemId.Some? && w.itemId.value in written
      then [first, PiEdit(w.itemId.value, Retired(written[w.itemId.value], w.later, w.author))] else [first]
  }

  lemma PiEditsAct(w: World, e: ItemEvent)
    ensures var events := PiEdits(w.server, e);
            EnabledRun(w, events)
            && Run(w, events) == w.(server := AfterItemEvent(w.server, e), doubtful := Run(w, events).doubtful)
  {
    hide TargetRow, OnTime;
    var events := PiEdits(w.server, e);
    if events != [] {
      OneEvent(w, events[0]);
      if |events| == 2 {
        OneEvent(Step(w, events[0]), events[1]);
        RunsJoin(w, [events[0]], [events[1]]);
        assert [events[0]] + [events[1]] == events;
      } else {
        assert events == [events[0]];
      }
    }
  }

  /** One action of the two objects is a run of the model, and keeps them paired. */
  method Act(db: DB.Database, phone: PhoneTable, action: Action, ghost doubtful: set<string>, newBagId: string,
             freshId: Items -> string)
    returns (ghost events: seq<Event>)
    requires Paired(db, phone) && newBagId != "" && forall items :: freshId(items) !in items
    requires action.OnPi? ==> !action.request.SyncRows?
    requires action.EditItem? ==> Faithful(action.item) && action.item.bagId == phone.bagId
    requires action.EditBag? ==> action.bag.bagId == phone.bagId
    modifies db, phone
    ensures Paired(db, phone)
    ensures var w := old(Seen(db, phone, doubtful));
            EnabledRun(w, events) && Run(w, events) == Seen(db, phone, Run(w, events).doubtful)
    ensures action == SyncPhone(true) ==> events == [Sync(db.lastSyncTime)]
  {
    ghost var w := Seen(db, phone, doubtful);
    events := [];
    match action {
      case OnPi(request) =>
        ghost var done := IR.ServeItem(db, request, phone.bagId, newBagId, freshId);
        if done.Some? {
          events := PiEdits(w.server, done.value);
          PiEditsAct(w, done.value);
        }
      case EditItem(item) =>
        phone.UpsertItem(item);
        events := [PhoneEdit(item.id, item)];
        OneEvent(w, events[0]);
      case EditBag(bag) =>
        phone.UpsertBag(bag);
      case TakePiVersion(id) =>
        if id in phone.conflicts {
          phone.ResolveConflictKeepPi(id);
          events := [KeepPi(id)];
          OneEvent(w, events[0]);
        }
      case SyncPhone(replyArrives) =>
        events := SyncBoth(db, phone, replyArrives, doubtful, newBagId);
    }
  }

  lemma NothingMoved(bags: DB.BagTable, keep: string, before: Items, start: Items, author: string, lo: int, hi: int)
    requires bags.Keys == {keep} && DB.Rehomed(before, start, bags.Keys - {keep}, keep, author, lo, hi)
    ensures start == before
  {
  }

  lemma ReportsAreTakeable(w: World, time: int, bagId: string)
    requires time > 0 && forall id | id in w.server :: w.server[id].bagId == bagId
    ensures Takeable(Step(w, Sync(time)).conflicts, bagId)
  {
    hide Decision, ServerAfter, PhoneAfter;
  }

  method SyncBoth(db: DB.Database, phone: PhoneTable, replyArrives: bool, ghost doubtful: set<string>, newBagId: string)
    returns (ghost events: seq<Event>)
    requires Paired(db, phone) && newBagId != ""
    modifies db, phone
    ensures Paired(db, phone)
    ensures var w := old(Seen(db, phone, doubtful));
            EnabledRun(w, events) && Run(w, events) == Seen(db, phone, Run(w, events).doubtful)
    ensures events == [if replyArrives then Sync(db.lastSyncTime) else SyncReplyLost(db.lastSyncTime)]
  {
    hide DB.Rehomed, DB.AlignedToRequest, Takeable, ServerAfter, PhoneAfter, Step, Agree, Shows, OwnRows, Resolves;
    ghost var w := Seen(db, phone, doubtful);
    ghost var start, startBag, req;
    var keep;
    start, startBag, req, keep := phone.RunSyncNow(db, newBagId, replyArrives);
    NothingMoved(old(db.bags), keep, w.server, start, db.author, old(db.clock), db.clock);
    events := [if replyArrives then Sync(db.lastSyncTime) else SyncReplyLost(db.lastSyncTime)];
    OneEvent(w, events[0]);
    StepIgnoresDoubts(w, events[0]);
    if replyArrives {
      ReportsAreTakeable(w, db.lastSyncTime, phone.bagId);
    }
  }

  /** Which ids are in doubt says nothing about what a sync does to the tables. */
  lemma StepIgnoresDoubts(w: World, e: Event)
    requires Enabled(w, e) && (e.Sync? || e.SyncReplyLost?)
    ensures Step(w, e) == Step(w.(doubtful := {}), e).(doubtful := Step(w, e).doubtful)
  {
    hide ServerAfter, PhoneAfter, Decision, Stuck;
  }

  /** Whatever the Pi serves, the phone edits and the two sync, the two objects go through a run of the model,
      so the invariant of all runs holds of them; and if they sync last and the reply arrives, an id agrees
      exactly outside the doubtful ids, which are the stuck ones of that sync. */
  method RunTogether(db: DB.Database, phone: PhoneTable, actions: seq<Action>, newBagId: string,
                     freshId: Items -> string)
    returns (ghost events: seq<Event>)
    requires Paired(db, phone) && newBagId != "" && forall items :: freshId(items) !in items
    requires Settled(Seen(db, phone, {}))
    requires forall k | 0 <= k < |actions| ::
               var a := actions[k];
               && (a.OnPi? ==> !a.request.SyncRows?)
               && (a.EditItem? ==> Faithful(a.item) && a.item.bagId == phone.bagId)
               && (a.EditBag? ==> a.bag.bagId == phone.bagId)
    modifies db, phone
    ensures Paired(db, phone)
    ensures var w := old(Seen(db, phone, {}));
            EnabledRun(w, events) && Run(w, events) == Seen(db, phone, Run(w, events).doubtful)
            && Settled(Run(w, events))
            && (actions != [] && actions[|actions| - 1] == SyncPhone(true) ==>
                  forall id :: Agree(db.items, phone.items, id) <==> id !in Run(w, events).doubtful)
  {
    hide Settled, Agree, Step, Enabled;
    ghost var w := Seen(db, phone, {});
    events := [];
    for k := 0 to |actions|
      invariant Paired(db, phone)
      invariant EnabledRun(w, events) && Run(w, events) == Seen(db, phone, Run(w, events).doubtful)
      invariant Settled(Run(w, events))
      invariant k > 0 && actions[k - 1] == SyncPhone(true) ==>
                  forall id :: Agree(db.items, phone.items, id) <==> id !in Run(w, events).doubtful
    {
      ghost var before := Run(w, events);
      ghost var more := Act(db, phone, actions[k], before.doubtful, newBagId, freshId);
      RunsJoin(w, events, more);
      EveryRunStaysSettled(before, more);
      if actions[k] == SyncPhone(true) {
        SyncSettles(before, db.lastSyncTime);
      }
      events := events + more;
    }
  }

  lemma SyncSettles(w: World, time: int)
    requires Settled(w) && EnabledRun(w, [Sync(time)])
    ensures var w' := Run(w, [Sync(time)]);
            w'.doubtful == Stuck(w) && forall id :: Agree(w'.server, w'.phone, id) <==> id !in w'.doubtful
  {
    OneEvent(w, Sync(time));
    SyncSettlesExactly(w, time);
  }
}
