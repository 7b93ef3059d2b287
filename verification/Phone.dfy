/** The phone's item table and its side of a sync. */
module PhoneStore {
  import opened Text
  import opened Inventory
  import opened SyncMerge
  import opened Bags
  import opened PiDatabase
  import opened Convergence

  /** The phone's table after the returned rows with ids in `done` have been applied. */
  function PhoneAfterOver(items: Items, phone: Phone, baseline: int, done: set<string>): Phone {
    map id | id in phone.Keys + SentBack(items, phone, baseline) * done ::
      if id in done && id in SentBack(items, phone, baseline) && !PhoneChanged(phone, id, baseline)
      then RowToItem(id, items[id])
      else phone[id]
  }

  lemma NothingApplied(items: Items, phone: Phone, baseline: int)
    ensures PhoneAfterOver(items, phone, baseline, {}) == phone
    ensures PhoneAfterOver(items, phone, baseline, SentBack(items, phone, baseline))
            == PhoneAfter(items, phone, baseline)
  {
    hide VerdictFor;
    assert phone.Keys + SentBack(items, phone, baseline) * {} == phone.Keys;
  }

  lemma PhoneAfterOneMore(items: Items, phone: Phone, baseline: int, done: set<string>, id: string)
    requires id !in done && id in SentBack(items, phone, baseline)
    ensures Find(PhoneAfterOver(items, phone, baseline, done), id) == Find(phone, id)
    ensures PhoneAfterOver(items, phone, baseline, done + {id})
            == if PhoneChanged(phone, id, baseline) then PhoneAfterOver(items, phone, baseline, done)
               else PhoneAfterOver(items, phone, baseline, done)[id := RowToItem(id, items[id])]
  {
    hide VerdictFor;
  }

  /** Listing a table row by row and reading the list back gives the table. */
  lemma PhoneItemsOfOneMore(rows: seq<Item>, table: Phone, row: Item, bagId: string)
    requires PhoneItems(rows, bagId, bagId) == table
    requires row.bagId == bagId
    ensures PhoneItems(rows + [row], bagId, bagId) == table[row.id := row]
  {
    assert (rows + [row])[..|rows|] == rows;
    assert row.(bagId := bagId) == row;
  }

  lemma SentBackIsVisited(items: Items, phone: Phone, baseline: int)
    ensures SentBack(items, phone, baseline) <= Visited(items, ChangedRows(phone, baseline), baseline)
  {
  }

  /** Every item belongs to a bag that exists. */
  predicate NoOrphans(items: Items, bags: BagTable) {
    forall id | id in items :: items[id].bagId in bags
  }

  /** The rows of one bag: what the phone looks at in a reply. */
  function OwnRows(items: Items, bagId: string): Items {
    map id | id in items && items[id].bagId == bagId :: items[id]
  }

  lemma OwnRowsAreJudgedAlike(items: Items, phone: Phone, baseline: int, bagId: string)
    ensures var own := OwnRows(items, bagId);
            && (forall id | id in own :: Decision(own, phone, baseline, id) == Decision(items, phone, baseline, id))
            && SentBack(own, phone, baseline) <= Visited(items, ChangedRows(phone, baseline), baseline)
  {
    hide Judge, RowToItem;
    var own := OwnRows(items, bagId);
    forall id | id in own
      ensures Decision(own, phone, baseline, id) == Decision(items, phone, baseline, id)
    {
      assert ServerItem(own, id) == ServerItem(items, id);
    }
    SentBackIsVisited(items, phone, baseline);
  }

  /** Rows taken from the Pi keep the phone's table well formed. */
  lemma PhoneAfterKeepsRows(start: Items, phone: Phone, baseline: int, bagId: string)
    requires FaithfulPhone(phone) && forall id | id in phone :: phone[id].id == id && phone[id].bagId == bagId
    ensures var after := PhoneAfter(OwnRows(start, bagId), phone, baseline);
            FaithfulPhone(after) && forall id | id in after :: after[id].id == id && after[id].bagId == bagId
  {
    hide VerdictFor;
  }

  /** The phone's table gets the same row for an id, whether it looks at all rows or only at its own bag's,
      if that id's row is its own or the Pi has none. */
  lemma OwnIdsAlike(start: Items, phone: Phone, baseline: int, bagId: string, id: string)
    requires id in start ==> start[id].bagId == bagId
    ensures Find(PhoneAfter(OwnRows(start, bagId), phone, baseline), id) == Find(PhoneAfter(start, phone, baseline), id)
  {
    hide VerdictFor;
    OwnRowsAreJudgedAlike(start, phone, baseline, bagId);
  }

  lemma AgreeSeesOneRow(items: Items, a: Phone, b: Phone, id: string)
    requires Find(a, id) == Find(b, id)
    ensures Agree(items, a, id) <==> Agree(items, b, id)
  {
  }

  /** The id was neither left alone while disagreeing nor did it clash. */
  predicate Resolves(start: Items, phone: Phone, baseline: int, id: string) {
    !(Quiet(start, phone, baseline, id) && !Agree(start, phone, id)) && !Clash(start, phone, baseline, id)
  }

  lemma AgreesAfterReply(start: Items, phone: Phone, baseline: int, bagId: string)
    requires FaithfulPhone(phone)
    ensures forall id | id in start ==> start[id].bagId == bagId ::
              Agree(ServerAfter(start, phone, baseline), PhoneAfter(OwnRows(start, bagId), phone, baseline), id)
              <==> Resolves(start, phone, baseline, id)
  {
    hide VerdictFor, Clash, Agree, Quiet, PhoneAfter, ServerAfter, Faithful, OwnRows;
    forall id | id in start ==> start[id].bagId == bagId
      ensures Agree(ServerAfter(start, phone, baseline), PhoneAfter(OwnRows(start, bagId), phone, baseline), id)
              <==> Resolves(start, phone, baseline, id)
    {
      SyncAgreesExactly(start, phone, baseline, id);
      OwnIdsAlike(start, phone, baseline, bagId, id);
      AgreeSeesOneRow(ServerAfter(start, phone, baseline), PhoneAfter(OwnRows(start, bagId), phone, baseline),
                      PhoneAfter(start, phone, baseline), id);
    }
  }

  /** When the collapse left one bag, either all its rows are this phone's or none is. */
  lemma AllOrNoneOwn(bags: BagTable, before: Items, start: Items, keep: string, bagId: string, author: string,
                     lo: int, hi: int)
    requires Rehomed(before, start, bags.Keys - {keep}, keep, author, lo, hi)
    requires NoOrphans(before, bags)
    ensures OwnRows(start, bagId) == if keep == bagId then start else map[]
  {
    CollapseHomesEveryItemExactly(bags, before, start, keep, author, lo, hi);
  }

  lemma NothingToTake(phone: Phone, baseline: int)
    ensures PhoneAfter(map[], phone, baseline) == phone
  {
    assert SentBack(map[], phone, baseline) == {};
    assert phone.Keys + {} == phone.Keys;
  }

  // The bag row.

  /** The bag row the phone sends: its own, in its usual form, if stamped after the baseline. */
  function SentBag(local: Option<Bag>, baseline: int): Option<Bag> {
    if local.Some? && local.value.updatedAt > baseline then Some(RemoteBag(local.value)) else None
  }

  /** The bag as the Pi then reads it, and as the phone then holds it, from the Pi's row `start`. */
  function BagOnPi(start: BagRow, local: Option<Bag>, baseline: int, bagId: string): Bag {
    var sent := SentBag(local, baseline);
    if TakesPhoneBag(start, sent, baseline) then sent.value else RowToBag(bagId, start)
  }

  function BagOnPhone(start: BagRow, local: Option<Bag>, baseline: int, bagId: string): Option<Bag> {
    var sent := SentBag(local, baseline);
    if ReturnsServerBag(start, sent, baseline) && sent.None? then Some(RemoteBag(RowToBag(bagId, start))) else local
  }

  /** The same name, and the same size and template once both are in their usual form. */
  predicate SameBag(a: Bag, b: Bag) {
    a.name == b.name
    && RemoteBag(a).sizeLiters == RemoteBag(b).sizeLiters && RemoteBag(a).template == RemoteBag(b).template
  }

  /** After a sync both sides show the same bag exactly when they did before, or when one side's row is
      carried over: the phone's, if it changed and is not older, or the Pi's, if only the Pi's changed. If
      both changed and the Pi's is newer, each keeps its own. */
  lemma BagAgreesExactly(start: BagRow, local: Option<Bag>, baseline: int, bagId: string)
    requires local.Some? ==> local.value.bagId == bagId
    ensures var pi, phone := BagOnPi(start, local, baseline, bagId), BagOnPhone(start, local, baseline, bagId);
            phone.Some? && SameBag(pi, phone.value) <==>
              || (local.Some? && SameBag(RowToBag(bagId, start), local.value))
              || (SentBag(local, baseline).Some? && local.value.updatedAt >= start.updatedAt)
              || (SentBag(local, baseline).None? && start.updatedAt > baseline)
  {
  }

  /** A bag row the app's own check lets it send, with the template of its size. */
  predicate SoundBag(bag: Bag, size: BagSize) {
    Trimmed(bag.name) && bag.name != "" && NormalizeSize(bag.sizeLiters) == Some(size)
    && RemoteBag(bag).template == Standard(size)
  }

  /** A sound bag the phone sends is on the Pi before stamps are compared: the collapse gives the Pi's row
      its name, template and size. */
  lemma SentBagIsWished(before: BagRow, start: BagRow, bag: Bag, size: BagSize)
    requires SettledFrom(before, start, Wish(Some(RemoteBag(bag).sizeLiters), Some(bag.name))) && SoundBag(bag, size)
    ensures start.name == bag.name && start.template == Standard(size) && CurrentSize(start) == size
  {
    TrimmedIsStripped(bag.name);
  }

  /** The row shows the bag, if that is sound, in all but the size's spelling. */
  ghost predicate Shows(start: BagRow, bag: Bag) {
    forall size | SoundBag(bag, size) ::
      start.name == bag.name && start.template == Standard(size) && CurrentSize(start) == size
  }

  /** The same end to end: whatever bags the Pi had, the row the merge starts from shows the sound bag that
      the request carries. */
  lemma CollapseHonoursSentBag(bags: BagTable, items: Items, recorded: Option<string>, default: Option<string>,
                               req: SyncRequest, author: string, start: BagRow, bag: Bag)
    requires req.changedBags == [RemoteBag(bag)] && RequestedBagIds(req) == {bag.bagId}
    requires AlignedToRequest(bags, items, recorded, default, req, author, start)
    ensures Shows(start, bag)
  {
    hide Survives;
    var wanted :| IsPreferredBag(req, wanted)
                  && AlignedFrom(bags, items, recorded, default, wanted, WishIn(req, wanted), author, start);
    OnlyBagRequested(req, wanted);
    assert wanted == Some(bag.bagId);
    assert FirstBag(req.changedBags, bag.bagId) == Some(RemoteBag(bag));
    forall size | SoundBag(bag, size)
      ensures start.name == bag.name && start.template == Standard(size) && CurrentSize(start) == size
    {
      if bags == map[] {
        TrimmedIsStripped(bag.name);
      } else {
        var b :| b in bags && SettledFrom(bags[b], start, WishIn(req, wanted));
        SentBagIsWished(bags[b], start, bag, size);
      }
    }
  }

  lemma ConflictListed(r: MergeReply, items: Items, phone: Phone, lastSync: int, id: string)
    requires ReplyMatches(r, items, phone, lastSync, Visited(items, phone, lastSync))
    ensures (exists j | 0 <= j < |r.conflicts| :: r.conflicts[j].itemId == id)
            <==> id in items && VerdictFor(items, phone, lastSync, id).Conflict?
  {
    var v := VerdictFor(items, phone, lastSync, id);
    if j :| 0 <= j < |r.conflicts| && r.conflicts[j].itemId == id {
      assert r.conflicts[j] in r.conflicts;
    }
    if id in items && v.Conflict? {
      assert id in Visited(items, phone, lastSync);
      assert ConflictItem(id, RowToItem(id, items[id]), v.reason) in r.conflicts;
    }
  }

  /** One sync step of the run model leads from `w` to these tables. */
  ghost predicate SyncStepGives(w: World, time: int, server: Items, phone: Phone, conflicts: map<string, Item>) {
    time > 0 ==>
      var w' := Step(w, Sync(time));
      && w'.server == server && w'.phone == phone && w'.conflicts == conflicts
      && w'.phoneLastSync == time && w'.piLastSync == time
  }

  /** One lost-reply step of the run model leads from `w` to these tables. */
  ghost predicate LostStepGives(w: World, time: int, server: Items, phoneLastSync: int) {
    time > 0 ==>
      var w' := Step(w, SyncReplyLost(time));
      && w'.server == server && w'.phone == w.phone && w'.conflicts == w.conflicts
      && w'.phoneLastSync == phoneLastSync && w'.piLastSync == time
  }

  lemma SyncIsAStep(w: World, time: int, conflicts: map<string, Item>)
    requires forall id :: id in conflicts <==> id in w.server && Decision(w.server, w.phone, Baseline(w), id).Conflict?
    requires forall id | id in conflicts :: conflicts[id] == RowToItem(id, w.server[id])
    ensures SyncStepGives(w, time, ServerAfter(w.server, w.phone, Baseline(w)),
                          PhoneAfter(w.server, w.phone, Baseline(w)), conflicts)
  {
    hide Decision, RowToItem, ServerAfter, PhoneAfter;
  }

  lemma RequestCarriesChanges(req: SyncRequest, keep: string, bagId: string, phone: Phone, baseline: int)
    requires PhoneItems(req.changedItems, bagId, bagId) == ChangedRows(phone, baseline)
    requires req.changedItems == [] || keep == bagId
    ensures PhoneItems(req.changedItems, keep, keep) == ChangedRows(phone, baseline)
  {
    assert PhoneItems([], keep, keep) == map[] == PhoneItems([], bagId, bagId);
  }

  /** What the phone makes of the bag rows of a reply. */
  function BagReceived(local: Option<Bag>, changes: seq<Bag>, baseline: int, bagId: string): Option<Bag> {
    if changes != [] && changes[0].bagId == bagId && SentBag(local, baseline).None? then Some(RemoteBag(changes[0]))
    else local
  }

  lemma RequestCarriesBag(req: SyncRequest, start: BagRow, local: Option<Bag>, bagId: string, keep: string)
    requires local.Some? ==> local.value.bagId == bagId
    requires req.changedBags == if SentBag(local, req.lastSyncAt).Some? then [RemoteBag(local.value)] else []
    ensures var changes := ReturnedBags(start, req, keep);
            && |changes| <= 1
            && BagReceived(local, changes, req.lastSyncAt, bagId)
               == if keep == bagId then BagOnPhone(start, local, req.lastSyncAt, bagId) else local
    ensures RowToBag(bagId, SyncedRow(start, req, bagId)) == BagOnPi(start, local, req.lastSyncAt, bagId)
  {
    var rows := req.changedBags;
    assert |rows| == 1 ==> rows[..0] == [];
    assert PhoneBag(rows, bagId, bagId) == SentBag(local, req.lastSyncAt) by {
      if rows != [] {
        assert rows[0].(bagId := bagId) == rows[0];
      }
    }
    if local.Some? {
      StoredBagReadsBack(Some(start), RemoteBag(local.value));
    }
  }

  /** The bag is sent exactly when it changed since the baseline, and then as it is, but for a size of 25 or 44
      litres, sent as 46, and a template that stands for a size, sent as the standard one. */
  predicate SendsBag(sent: seq<Bag>, bag: Option<Bag>, baseline: int) {
    if bag.None? || bag.value.updatedAt <= baseline then sent == []
    else
      var own := bag.value;
      && |sent| == 1
      && sent[0] == own.(sizeLiters := if own.sizeLiters in {25, 44} then 46 else own.sizeLiters,
                         template := if own.template.Unusual? && own.template.means.Some?
                                     then Standard(own.template.means.value) else own.template)
  }

  /** Exactly the rows stamped after the baseline are sent. */
  ghost predicate SendsRows(sent: seq<Item>, items: Phone, baseline: int) {
    forall r :: r in sent <==> r.id in items && items[r.id] == r && r.updatedAt > baseline
  }

  class PhoneTable {
    var items: Phone
    var bag: Option<Bag>
    var lastSyncAt: int
    var conflicts: map<string, Item>
    const bagId: string

    constructor (bagId: string)
      ensures items == map[] && bag == None && lastSyncAt == 0 && conflicts == map[] && this.bagId == bagId
    {
      items, bag, lastSyncAt, conflicts := map[], None, 0, map[];
      this.bagId := bagId;
    }

    /** Every row is filed under its own id and belongs to the selected bag. */
    ghost predicate Valid()
      reads this
    {
      && bagId != "" && Trimmed(bagId)
      && FaithfulPhone(items)
      && (forall id | id in items :: items[id].id == id && items[id].bagId == bagId)
      && (bag.Some? ==> bag.value.bagId == bagId)
    }

    /** Saves an item row of the selected bag. */
    method UpsertItem(item: Item)
      requires Valid() && Faithful(item) && item.bagId == bagId
      modifies this`items
      ensures Valid() && items == old(items)[item.id := item]
    {
      items := items[item.id := item];
    }

    /** Takes the Pi's version of a reported conflict. */
    method ResolveConflictKeepPi(id: string)
      requires Valid() && id in conflicts
      requires Faithful(conflicts[id]) && conflicts[id].id == id && conflicts[id].bagId == bagId
      modifies this`items, this`conflicts
      ensures Valid() && items == old(items)[id := old(conflicts)[id]] && conflicts == old(conflicts) - {id}
    {
      items := items[id := conflicts[id]];
      conflicts := conflicts - {id};
    }

    /** Saves the bag row. */
    method UpsertBag(row: Bag)
      requires Valid() && row.bagId == bagId
      modifies this`bag
      ensures Valid() && bag == Some(row)
    {
      bag := Some(row);
    }

    method ListChangedItems(baseline: int) returns (rows: seq<Item>)
      requires Valid()
      ensures PhoneItems(rows, bagId, bagId) == ChangedRows(items, baseline)
      ensures forall r :: r in rows <==> r.id in items && items[r.id] == r && r.updatedAt > baseline
      ensures rows == [] <==> ChangedRows(items, baseline) == map[]
    {
      rows := [];
      var changed := ChangedRows(items, baseline);
      var todo := changed.Keys;
      while todo != {}
        invariant todo <= changed.Keys
        invariant PhoneItems(rows, bagId, bagId) == map id | id in changed && id !in todo :: changed[id]
        invariant forall r :: r in rows <==> r.id in changed && changed[r.id] == r && r.id !in todo
        invariant rows == [] <==> todo == changed.Keys
      {
        var id :| id in todo;
        PhoneItemsOfOneMore(rows, map k | k in changed && k !in todo :: changed[k], changed[id], bagId);
        rows := rows + [changed[id]];
        todo := todo - {id};
      }
    }

    /** Applies the returned rows one by one, each only over a row not changed since the baseline. */
    method ApplyServerItems(changes: seq<Item>, baseline: int, ghost start: Items, ghost visited: set<string>)
      requires Distinct(changes)
      requires forall c: Item :: c in changes <==>
                 c.id in visited && c.id in start && c == RowToItem(c.id, start[c.id])
                 && Decision(start, items, baseline, c.id).SendServer?
      requires SentBack(start, items, baseline) <= visited
      modifies this`items
      ensures items == PhoneAfter(start, old(items), baseline)
    {
      hide VerdictFor, PhoneAfterOver;
      ghost var local, done := items, {};
      NothingApplied(start, items, baseline);
      for k := 0 to |changes|
        invariant forall id :: id in done <==> exists j | 0 <= j < k :: changes[j].id == id
        invariant done <= SentBack(start, local, baseline)
        invariant items == PhoneAfterOver(start, local, baseline, done)
      {
        var c := changes[k];
        assert c in changes;
        assert c.id !in done by {
          forall j | 0 <= j < k
            ensures changes[j].id != c.id
          {
            assert changes[j] in changes && changes[j] != c;
          }
        }
        PhoneAfterOneMore(start, local, baseline, done, c.id);
        if c.id !in items || items[c.id].updatedAt <= baseline {
          items := items[c.id := c];
        }
        done := done + {c.id};
      }
      assert done == SentBack(start, local, baseline) by {
        forall id | id in SentBack(start, local, baseline)
          ensures id in done
        {
          assert RowToItem(id, start[id]) in changes;
        }
      }
    }

    /** The baseline of the next sync, once the Pi's own last sync time has been adopted. */
    function SyncBaseline(piLastSync: int): (baseline: int)
      reads this
      ensures baseline == if lastSyncAt > 0 && piLastSync > 0 && items != map[] then piLastSync else 0
    {
      BaselineFor(items, if lastSyncAt > 0 then piLastSync else 0)
    }

    method BuildRequest(baseline: int) returns (req: SyncRequest)
      requires Valid()
      ensures req.lastSyncAt == baseline
      ensures PhoneItems(req.changedItems, bagId, bagId) == ChangedRows(items, baseline)
      ensures SendsRows(req.changedItems, items, baseline)
      ensures req.changedBags == if SentBag(bag, baseline).Some? then [RemoteBag(bag.value)] else []
      ensures SendsBag(req.changedBags, bag, baseline)
      ensures RequestedBagIds(req) == if ChangedRows(items, baseline) != map[] || SentBag(bag, baseline).Some?
                                      then {bagId} else {}
      ensures RequestedBagIds(req) == {} ==> req.changedItems == []
    {
      var rows := ListChangedItems(baseline);
      var bags := if bag.Some? && bag.value.updatedAt > baseline then [RemoteBag(bag.value)] else [];
      req := SyncRequest(baseline, bags, rows);
      TrimmedIsStripped(bagId);
      if bag.Some? {
        RemoteBagInPlainTerms(bag.value);
      }
      if rows != [] {
        assert rows[0] in rows;
      }
    }

    /** The rows of a reply that name the selected bag. */
    method OwnChanges(changes: seq<Item>) returns (own: seq<Item>)
      requires Distinct(changes)
      ensures Distinct(own) && forall c :: c in own <==> c in changes && c.bagId == bagId
    {
      own := [];
      for k := 0 to |changes|
        invariant Distinct(own) && forall c :: c in own <==> c in changes[..k] && c.bagId == bagId
      {
        if changes[k].bagId == bagId {
          own := own + [changes[k]];
        }
      }
    }

    /** Applies the returned bag row in its usual form, like an item row, unless the phone's has changed
        since the baseline. */
    method ApplyServerBags(changes: seq<Bag>, baseline: int)
      requires |changes| <= 1
      modifies this`bag
      ensures bag == BagReceived(old(bag), changes, baseline, bagId)
    {
      for k := 0 to |changes|
        invariant k == 0 ==> bag == old(bag)
        invariant k == 1 ==> bag == BagReceived(old(bag), changes, baseline, bagId)
      {
        if changes[k].bagId == bagId {
          if bag.None? || bag.value.updatedAt <= baseline {
            bag := Some(RemoteBag(changes[k]));
          }
        }
      }
    }

    /** Takes in a reply that matches the verdicts on `start`, looking only at rows of the selected bag. */
    method ReceiveReply(reply: SyncReply, baseline: int, ghost start: Items)
      requires ReplyMatches(reply.itemReply, start, ChangedRows(items, baseline), baseline,
                            Visited(start, ChangedRows(items, baseline), baseline))
      requires |reply.bagChanges| <= 1
      modifies this`items, this`bag, this`conflicts, this`lastSyncAt
      ensures items == PhoneAfter(OwnRows(start, bagId), old(items), baseline) && lastSyncAt == reply.serverTime
      ensures bag == BagReceived(old(bag), reply.bagChanges, baseline, bagId)
      ensures (old(bag).Some? ==> old(bag).value.bagId == bagId) ==> bag.Some? ==> bag.value.bagId == bagId
      ensures forall id :: id in conflicts <==>
                             id in OwnRows(start, bagId) && Decision(start, old(items), baseline, id).Conflict?
      ensures forall id | id in conflicts :: conflicts[id] == RowToItem(id, start[id])
    {
      hide Judge;
      ghost var local, visited := items, Visited(start, ChangedRows(items, baseline), baseline);
      ApplyServerBags(reply.bagChanges, baseline);
      OwnRowsAreJudgedAlike(start, items, baseline, bagId);
      var own := OwnChanges(reply.itemReply.changes);
      ApplyServerItems(own, baseline, OwnRows(start, bagId), visited);
      RecordConflicts(reply.itemReply, start, ChangedRows(local, baseline), baseline);
      lastSyncAt := reply.serverTime;
    }

    /** Replaces the conflict table by the reported conflicts about the selected bag. */
    method RecordConflicts(r: MergeReply, ghost start: Items, ghost sent: Phone, ghost baseline: int)
      requires ReplyMatches(r, start, sent, baseline, Visited(start, sent, baseline))
      modifies this`conflicts
      ensures forall id :: id in conflicts <==>
                             id in OwnRows(start, bagId) && VerdictFor(start, sent, baseline, id).Conflict?
      ensures forall id | id in conflicts :: conflicts[id] == RowToItem(id, start[id])
    {
      hide VerdictFor;
      conflicts := map[];
      for k := 0 to |r.conflicts|
        invariant forall id :: id in conflicts <==>
                                 exists j :: 0 <= j < k && r.conflicts[j].itemId == id && id in OwnRows(start, bagId)
        invariant forall id | id in conflicts :: id in start && conflicts[id] == RowToItem(id, start[id])
      {
        assert r.conflicts[k] in r.conflicts;
        if r.conflicts[k].serverVersion.bagId == bagId {
          conflicts := conflicts[r.conflicts[k].itemId := r.conflicts[k].serverVersion];
        }
      }
      forall id
        ensures id in conflicts <==> id in OwnRows(start, bagId) && VerdictFor(start, sent, baseline, id).Conflict?
      {
        ConflictListed(r, start, sent, baseline, id);
      }
    }

    /** One sync of this phone, which is paired with its selected bag only. `start` and `startBag` are the Pi's
        table and bag row the merge started from, `keep` the Pi's bag after it; `replyArrives` is false when
        the Pi committed but its reply was lost. A request that names no bag leaves the Pi's bag its own id,
        and the phone then ignores the rows of other bags. */
    method RunSyncNow(db: Database, newBagId: string, replyArrives: bool)
      returns (ghost start: Items, ghost startBag: BagRow, ghost req: SyncRequest, keep: string)
      requires Valid()
      requires "" !in db.bags && newBagId != ""
      modifies this, db
      ensures Valid() && db.bags.Keys == {keep} && keep != ""
      ensures req.lastSyncAt == old(SyncBaseline(db.lastSyncTime)) && db.clock >= db.lastSyncTime >= old(db.clock)
      ensures req.changedBags == if SentBag(old(bag), req.lastSyncAt).Some? then [RemoteBag(old(bag).value)] else []
      ensures RequestedBagIds(req) == if ChangedRows(old(items), req.lastSyncAt) != map[] || req.changedBags != []
                                      then {bagId} else {}
      ensures old(db.bags).Keys == {bagId} || RequestedBagIds(req) != {} ==> keep == bagId
      ensures Rehomed(old(db.items), start, old(db.bags).Keys - {keep}, keep, db.author, old(db.clock), db.clock)
      ensures AlignedToRequest(old(db.bags), old(db.items), old(db.recordedBag), old(db.defaultBag), req, db.author,
                               startBag)
      ensures req.changedBags != [] ==> Shows(startBag, old(bag).value)
      ensures db.items == ServerAfter(start, old(items), req.lastSyncAt)
      ensures replyArrives ==> items == PhoneAfter(OwnRows(start, bagId), old(items), req.lastSyncAt)
      ensures replyArrives ==> lastSyncAt == db.lastSyncTime
      ensures !replyArrives ==> items == old(items) && bag == old(bag) && conflicts == old(conflicts)
      ensures keep != bagId ==> bag == old(bag)
      ensures keep == bagId ==> RowToBag(bagId, db.bags[bagId]) == BagOnPi(startBag, old(bag), req.lastSyncAt, bagId)
      ensures keep == bagId && replyArrives ==> bag == BagOnPhone(startBag, old(bag), req.lastSyncAt, bagId)
      ensures replyArrives ==>
                forall id | id in start ==> start[id].bagId == bagId ::
                  Agree(db.items, items, id) <==> Resolves(start, old(items), req.lastSyncAt, id)
      ensures NoOrphans(old(db.items), old(db.bags)) ==>
                && db.OneBag(keep)
                && (keep != bagId ==> items == old(items) && (replyArrives ==> conflicts == map[]))
                && (keep == bagId && replyArrives ==>
                      SyncStepGives(World(start, old(items), old(lastSyncAt), old(db.lastSyncTime), old(conflicts), {}),
                                    db.lastSyncTime, db.items, items, conflicts))
                && (keep == bagId && !replyArrives ==>
                      LostStepGives(World(start, old(items), old(lastSyncAt), old(db.lastSyncTime), old(conflicts), {}),
                                    db.lastSyncTime, db.items, lastSyncAt))
    {
      hide VerdictFor, Clash, Agree, Quiet, Merged, PhoneAfter, Rehomed, RowToItem, ReplyMatches, Visited, Faithful;
      hide SyncStepGives, RequestedBagIds, PhoneItems, ChangedRows, OwnRows, AlignedToRequest, RemoteBag;
      hide ReasonsRight, SendsBag, SendsRows;
      hide LocalColumnsKept, Resolves, Shows, BagReceived, BagOnPhone, BagOnPi, SyncedRow, ReturnedBags;
      var base := SyncBaseline(db.lastSyncTime);
      ghost var local, localBag := items, bag;
      if lastSyncAt > 0 {
        lastSyncAt := db.lastSyncTime;
      }
      var request := BuildRequest(base);
      req := request;
      var reply;
      reply, keep, start, startBag := db.RunSync(request, newBagId);
      RequestCarriesChanges(request, keep, bagId, local, base);
      RequestCarriesBag(request, startBag, localBag, bagId, keep);
      if req.changedBags != [] {
        CollapseHonoursSentBag(old(db.bags), old(db.items), old(db.recordedBag), old(db.defaultBag), req, db.author,
                               startBag, localBag.value);
      }
      if NoOrphans(old(db.items), old(db.bags)) {
        AllOrNoneOwn(old(db.bags), old(db.items), start, keep, bagId, db.author, old(db.clock), db.clock);
      }
      if replyArrives {
        ReceiveReply(reply, base, start);
        PhoneAfterKeepsRows(start, local, base, bagId);
        NothingToTake(local, base);
        AgreesAfterReply(start, local, base, bagId);
        if OwnRows(start, bagId) == start {
          SyncIsAStep(World(start, local, old(lastSyncAt), old(db.lastSyncTime), old(conflicts), {}), db.lastSyncTime,
                      conflicts);
        }
      }
    }
  }
}
