/** The inventory end to end: item and bag requests served by the Pi from an empty table, and the grouped
    view of what they leave. */
module InventoryRuns {
  import opened Text
  import opened Inventory
  import opened SyncMerge
  import opened Batches
  import opened Groups
  import opened PiDatabase

  /** The live rows of a bag, as the listing query returns them, in any order. */
  method ListRows(items: Items, bagId: string) returns (rows: seq<Entry>)
    ensures ListsLiveRows(rows, items, bagId)
  {
    rows := [];
    var todo := items.Keys;
    while todo != {}
      invariant todo <= items.Keys
      invariant forall i, j | 0 <= i < j < |rows| :: rows[i].id != rows[j].id
      invariant forall id, row :: Entry(id, row) in rows <==>
                  id in items && id !in todo && items[id] == row && !row.deleted && row.bagId == bagId
    {
      var id :| id in todo;
      assert forall k | 0 <= k < |rows| :: Entry(rows[k].id, rows[k].row) in rows;
      if !items[id].deleted && items[id].bagId == bagId {
        rows := rows + [Entry(id, items[id])];
      }
      todo := todo - {id};
    }
  }

  // Requests.

  predicate ValidPayload(p: Payload) {
    Strip(p.name) != "" && Strip(p.unit) != "" && p.category.Some? && !p.expiry.Malformed?
  }

  /** Whether the request changes the items: a valid item for the bag, or an item that exists. */
  predicate Accepted(items: Items, keep: string, request: Request) {
    match request
    case PostItem(bagId, payload) => ValidPayload(payload) && bagId == keep
    case PutItem(itemId, payload) => ValidPayload(payload) && itemId in items
    case DropItem(itemId) => itemId in items
    case _ => false
  }

  /** What a served request did to the items: nothing if it was not accepted, else the one event it
      asked for. */
  ghost predicate Answers(items: Items, keep: string, request: Request, done: Option<ItemEvent>) {
    match done
    case None => !Accepted(items, keep, request)
    case Some(Put(w)) =>
      Accepted(items, keep, request) && (
      || (request.PostItem? && w.itemId == None && w.payload == request.payload)
      || (request.PutItem? && w.itemId == Some(request.itemId) && w.payload == request.payload))
    case Some(Remove(id, _, _)) => Accepted(items, keep, request) && request.DropItem? && id == request.itemId
  }

  function Events(done: seq<Option<ItemEvent>>): seq<ItemEvent> {
    if done == [] then []
    else Events(done[..|done| - 1]) + match done[|done| - 1] case None => [] case Some(e) => [e]
  }

  lemma {:induction false} OneMoreEvent(items: Items, events: seq<ItemEvent>, e: ItemEvent)
    requires CanApplyAll(items, events) && CanApply(AfterItemEvents(items, events), e)
    ensures CanApplyAll(items, events + [e])
    ensures AfterItemEvents(items, events + [e]) == AfterItemEvent(AfterItemEvents(items, events), e)
    decreases |events|
  {
    hide CanApply, AfterItemEvent;
    if events == [] {
      assert [e][1..] == [] && events + [e] == [e];
      assert AfterItemEvents(AfterItemEvent(items, e), []) == AfterItemEvent(items, e);
    } else {
      assert (events + [e])[1..] == events[1..] + [e];
      OneMoreEvent(AfterItemEvent(items, events[0]), events[1..], e);
    }
  }

  /** Serves one item or bag request; `done` is what it did to the items. */
  method ServeItem(db: Database, request: Request, keep: string, newBagId: string, freshId: Items -> string)
    returns (ghost done: Option<ItemEvent>)
    requires db.OneBag(keep) && keep != "" && newBagId != "" && !request.SyncRows?
    requires forall items :: freshId(items) !in items
    modifies db
    ensures db.OneBag(keep) && Answers(old(db.items), keep, request, done)
    ensures db.clock >= old(db.clock) && db.lastSyncTime == old(db.lastSyncTime)
    ensures done.None? ==> db.items == old(db.items)
    ensures done.Some? ==> CanApply(old(db.items), done.value) && db.items == AfterItemEvent(old(db.items), done.value)
  {
    hide WrittenRow, Combined, AfterWrite, IsExactMatch;
    done := None;
    match request {
      case PostItem(bagId, payload) =>
        ghost var before := db.items;
        var r, w := db.CreateItem(bagId, payload, freshId(db.items));
        if r.Ok? {
          WriteKeepsOneBag(before, w);
          done := Some(Put(w));
        }
      case PutItem(itemId, payload) =>
        ghost var before := db.items;
        var r, w := db.UpdateItem(itemId, payload);
        if r.Ok? {
          WriteKeepsOneBag(before, w);
          done := Some(Put(w));
        }
      case DropItem(itemId) =>
        var r, now := db.DeleteItem(itemId);
        if r.Ok? {
          done := Some(Remove(itemId, now, db.author));
        }
      case PutBag(wanted, name, size, lastChecked) =>
        ghost var survivor;
        var r;
        r, survivor := db.UpdateBag(wanted, name, size, lastChecked, newBagId);
    }
  }

  /** From an empty table, any item and bag requests keep at most one live row per batch and move the live
      total by what the accepted requests asked for; and the groups built from the table hold all of it. */
  method ServeInventory(db: Database, requests: seq<Request>, keep: string, newBagId: string, freshId: Items -> string)
    returns (groups: seq<Group>, keys: seq<IdentityKey>, rows: seq<Entry>, ghost done: seq<Option<ItemEvent>>)
    requires db.OneBag(keep) && keep != "" && newBagId != "" && db.items == map[]
    requires forall k | 0 <= k < |requests| :: !requests[k].SyncRows?
    requires forall items :: freshId(items) !in items
    modifies db
    ensures db.OneBag(keep)
    ensures |done| == |requests|
    ensures forall k | 0 <= k < |done| ::
              Answers(AfterItemEvents(map[], Events(done[..k])), keep, requests[k], done[k])
    ensures CanApplyAll(map[], Events(done)) && db.items == AfterItemEvents(map[], Events(done))
    ensures UniqueBatches(db.items) && Total(db.items) == NetQuantities(map[], Events(done))
    ensures ListsLiveRows(rows, db.items, keep) && ListsKeysOf(keys, rows) && |groups| == |keys|
    ensures forall k | 0 <= k < |keys| :: Bucket(rows, keys[k]) != [] && groups[k] == GroupOf(Bucket(rows, keys[k]))
    ensures SortedGroups(groups) && Totals(groups) == Total(db.items)
  {
    hide CanApplyAll, AfterItemEvents, AfterItemEvent, CanApply, Answers, ListsKeysOf, GroupOf, Bucket, SortedGroups;
    done := [];
    assert CanApplyAll(map[], []) && AfterItemEvents(map[], []) == map[] by {
      NothingApplied();
    }
    for k := 0 to |requests|
      invariant db.OneBag(keep) && |done| == k
      invariant forall j | 0 <= j < k ::
                  Answers(AfterItemEvents(map[], Events(done[..j])), keep, requests[j], done[j])
      invariant CanApplyAll(map[], Events(done)) && db.items == AfterItemEvents(map[], Events(done))
    {
      ghost var one := ServeItem(db, requests[k], keep, newBagId, freshId);
      if one.Some? {
        OneMoreEvent(map[], Events(done), one.value);
      }
      assert forall j | 0 <= j <= k :: (done + [one])[..j] == done[..j];
      assert done[..k] == done;
      assert Events(done) + [] == Events(done);
      done := done + [one];
    }
    EmptyTable();
    EveryItemRun(map[], Events(done));
    rows := ListRows(db.items, keep);
    groups, keys := BuildInventoryGroups(rows);
    ListedQuantityIsTotal(rows, db.items, keep);
  }

  lemma NothingApplied()
    ensures CanApplyAll(map[], []) && AfterItemEvents(map[], []) == map[]
  {
  }

  lemma EmptyTable()
    ensures UniqueBatches(map[]) && Total(map[]) == 0.0
  {
  }
}
