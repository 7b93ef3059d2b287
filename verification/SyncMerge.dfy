/** The per-item decision of a sync request, and what a whole merge does to the item table. */
module SyncMerge {
  import opened Inventory

  type Items = map<string, Row>
  type Phone = map<string, Item>

  function RowToItem(id: string, row: Row): Item {
    Item(id, row.bagId, row.name, NormalizeCategory(row.category), row.quantity, row.unit, row.packed,
         row.notes, row.expiryMs, None, row.deleted, row.updatedAt, row.updatedBy)
  }

  function StoredExpiry(item: Item): Option<int> {
    if item.expiryMs.None? then item.expiryDate else item.expiryMs
  }

  /** The row `upsert_item` leaves behind; the columns the wire format lacks survive an update. */
  function UpsertItem(existing: Option<Row>, item: Item): Row {
    var category := NormalizeCategory(item.category);
    var inserted := Row(item.bagId, item.name, category, item.quantity, item.unit, item.packed, item.notes,
                     StoredExpiry(item), item.deleted, item.updatedAt, item.updatedBy,
                     Some(category.category), false, 0.0, "good", Some(item.updatedAt));
    match existing
    case None => inserted
    case Some(prior) =>
      inserted.(essential := prior.essential, minimumQuantity := prior.minimumQuantity, condition := prior.condition,
             categoryId := if prior.categoryId.None? then inserted.categoryId else prior.categoryId,
             createdAt := if prior.createdAt.None? then inserted.createdAt else prior.createdAt)
  }

  /** A stored item reads back as it was sent exactly when its category is a canonical name and its
      expiry, if any, came in milliseconds alone: only those two are rewritten on the way in or out. */
  lemma StoredItemReadsBackExactly(existing: Option<Row>, item: Item)
    ensures RowToItem(item.id, UpsertItem(existing, item)) == item <==> item.category.Named? && item.expiryDate.None?
    ensures RowToItem(item.id, UpsertItem(existing, item))
            == item.(category := NormalizeCategory(item.category), expiryDate := None,
                     expiryMs := if item.expiryMs.Some? then item.expiryMs else item.expiryDate)
  {
  }

  /** An update from the phone leaves the columns that the wire format lacks as they were. */
  lemma UpdateKeepsLocalColumns(prior: Row, item: Item)
    ensures var row := UpsertItem(Some(prior), item);
            && row.essential == prior.essential && row.minimumQuantity == prior.minimumQuantity
            && row.condition == prior.condition
            && (prior.categoryId.Some? ==> row.categoryId == prior.categoryId)
            && (prior.createdAt.Some? ==> row.createdAt == prior.createdAt)
            && row.categoryId.Some? && row.createdAt.Some?
  {
  }

  /** The row of an item new to the Pi holds what the phone sent, and the usual values in the columns that
      the wire format lacks. */
  lemma NewRowFromPhone(item: Item)
    ensures UpsertItem(None, item)
            == Row(item.bagId, item.name, NormalizeCategory(item.category), item.quantity, item.unit, item.packed,
                   item.notes, if item.expiryMs.Some? then item.expiryMs else item.expiryDate, item.deleted,
                   item.updatedAt, item.updatedBy, Some(NormalizeCategory(item.category).category), false, 0.0, "good",
                   Some(item.updatedAt))
  {
  }

  datatype Reason = BothModified | DeleteVsEdit

  /** What happens to one id. `auto` marks the "packed latest wins" resolutions. */
  datatype Verdict =
    | Untouched
    | TakePhone(auto: bool)
    | SendServer(auto: bool)
    | Conflict(reason: Reason)

  function Judge(server: Option<Item>, phone: Option<Item>, lastSync: int): Verdict {
    if phone.Some? && server.None? then TakePhone(false)
    else if server.Some? && phone.None? then
      if server.value.updatedAt > lastSync then SendServer(false) else Untouched
    else if phone.None? || server.None? then Untouched
    else
      var p, s := phone.value, server.value;
      var phoneChanged, serverChanged := p.updatedAt > lastSync, s.updatedAt > lastSync;
      if phoneChanged && !serverChanged then TakePhone(false)
      else if serverChanged && !phoneChanged then SendServer(false)
      else if !phoneChanged && !serverChanged then Untouched
      else
        var diff := DiffOf(s, p);
        if diff.isIdentical then
          if p.updatedAt > s.updatedAt then TakePhone(false) else Untouched
        else if diff.onlyPackedStatusDiff then
          if p.updatedAt > s.updatedAt then TakePhone(true) else SendServer(true)
        else Conflict(if diff.deleteVsEdit then DeleteVsEdit else BothModified)
  }

  function ServerItem(items: Items, id: string): Option<Item> {
    if id in items then Some(RowToItem(id, items[id])) else None
  }

  function VerdictFor(items: Items, phone: Phone, lastSync: int, id: string): Verdict {
    Judge(ServerItem(items, id), Find(phone, id), lastSync)
  }

  /** The item table once the ids in `done` have been visited, in whatever order. */
  function MergedOver(items: Items, phone: Phone, lastSync: int, done: set<string>): Items {
    map id | id in items.Keys + phone.Keys * done ::
      if id in done && id in phone && VerdictFor(items, phone, lastSync, id).TakePhone?
      then UpsertItem(Find(items, id), phone[id])
      else items[id]
  }

  /** The ids the server loop visits: those the phone sent and those the server changed. */
  function Visited(items: Items, phone: Phone, lastSync: int): set<string> {
    phone.Keys + set id | id in items && items[id].updatedAt > lastSync
  }

  function Merged(items: Items, phone: Phone, lastSync: int): Items {
    MergedOver(items, phone, lastSync, Visited(items, phone, lastSync))
  }

  datatype ConflictItem = ConflictItem(itemId: string, serverVersion: Item, reason: Reason)

  datatype MergeReply = MergeReply(changes: seq<Item>, conflicts: seq<ConflictItem>, autoResolved: seq<string>)

  ghost predicate Distinct<T>(s: seq<T>) {
    forall i, j | 0 <= i < j < |s| :: s[i] != s[j]
  }

  /** The reply lists say exactly what the verdicts over `done` say, with no id twice in a list. */
  ghost predicate ReplyMatches(r: MergeReply, items: Items, phone: Phone, lastSync: int, done: set<string>) {
    && Distinct(r.changes) && Distinct(r.conflicts) && Distinct(r.autoResolved)
    && (forall c: Item :: c in r.changes <==>
          c.id in done && c.id in items && c == RowToItem(c.id, items[c.id])
          && VerdictFor(items, phone, lastSync, c.id).SendServer?)
    && (forall c: ConflictItem :: c in r.conflicts <==>
          c.itemId in done && c.itemId in items && c.serverVersion == RowToItem(c.itemId, items[c.itemId])
          && VerdictFor(items, phone, lastSync, c.itemId) == Conflict(c.reason))
    && (forall id :: id in r.autoResolved <==>
          id in done && (VerdictFor(items, phone, lastSync, id) == TakePhone(true)
                         || VerdictFor(items, phone, lastSync, id) == SendServer(true)))
  }

  lemma {:induction false} SameMembersSameMultiset<T>(s: seq<T>, t: seq<T>)
    requires Distinct(s) && Distinct(t) && forall x :: x in s <==> x in t
    ensures multiset(s) == multiset(t)
  {
    forall x
      ensures multiset(s)[x] == multiset(t)[x]
    {
      DistinctCount(s, x);
      DistinctCount(t, x);
    }
  }

  lemma {:induction false} DistinctCount<T>(s: seq<T>, x: T)
    requires Distinct(s)
    ensures multiset(s)[x] == if x in s then 1 else 0
  {
    if s == [] {
    } else {
      var front, last := s[..|s| - 1], s[|s| - 1];
      assert s == front + [last];
      DistinctCount(front, x);
    }
  }

  /** The reply does not depend on the order in which the ids were visited, except for the order of its
      own lists. */
  lemma ReplyIsUniqueUpToOrder(a: MergeReply, b: MergeReply, items: Items, phone: Phone, lastSync: int,
                               done: set<string>)
    requires ReplyMatches(a, items, phone, lastSync, done) && ReplyMatches(b, items, phone, lastSync, done)
    ensures multiset(a.changes) == multiset(b.changes)
    ensures multiset(a.conflicts) == multiset(b.conflicts)
    ensures multiset(a.autoResolved) == multiset(b.autoResolved)
  {
    hide VerdictFor, RowToItem;
    SameMembersSameMultiset(a.changes, b.changes);
    SameMembersSameMultiset(a.conflicts, b.conflicts);
    SameMembersSameMultiset(a.autoResolved, b.autoResolved);
  }

  /** No id is listed twice: not among the returned rows, not among the conflicts, and not in both. An id
      in either list is not written, and a conflict is never auto-resolved. */
  lemma OneOutcomePerId(r: MergeReply, items: Items, phone: Phone, lastSync: int)
    requires ReplyMatches(r, items, phone, lastSync, Visited(items, phone, lastSync))
    ensures forall i, j | 0 <= i < j < |r.changes| :: r.changes[i].id != r.changes[j].id
    ensures forall i, j | 0 <= i < j < |r.conflicts| :: r.conflicts[i].itemId != r.conflicts[j].itemId
    ensures forall i, j | 0 <= i < |r.changes| && 0 <= j < |r.conflicts| :: r.changes[i].id != r.conflicts[j].itemId
    ensures forall i | 0 <= i < |r.changes| ::
              Find(Merged(items, phone, lastSync), r.changes[i].id) == Find(items, r.changes[i].id)
    ensures forall i | 0 <= i < |r.conflicts| ::
              && Find(Merged(items, phone, lastSync), r.conflicts[i].itemId) == Find(items, r.conflicts[i].itemId)
              && r.conflicts[i].itemId !in r.autoResolved
  {
    hide Judge, RowToItem;
    forall i | 0 <= i < |r.changes|
      ensures r.changes[i].id in items && r.changes[i] == RowToItem(r.changes[i].id, items[r.changes[i].id])
      ensures VerdictFor(items, phone, lastSync, r.changes[i].id).SendServer?
    {
      assert r.changes[i] in r.changes;
    }
    forall i | 0 <= i < |r.conflicts|
      ensures var c := r.conflicts[i];
              c.itemId in items && c.serverVersion == RowToItem(c.itemId, items[c.itemId])
              && VerdictFor(items, phone, lastSync, c.itemId) == Conflict(c.reason)
    {
      assert r.conflicts[i] in r.conflicts;
    }
  }

  /** Of each conflict: the Pi has the row, the phone sent it, and the reason says whether one side deleted
      it and anything besides the deletion differs. */
  ghost predicate ReasonsRight(conflicts: seq<ConflictItem>, items: Items, phone: Phone) {
    forall c | c in conflicts ::
      && c.itemId in items && c.itemId in phone
      && var s, p := ContentOf(RowToItem(c.itemId, items[c.itemId])), ContentOf(phone[c.itemId]);
         c.reason == DeleteVsEdit <==> s.deleted != p.deleted && s != p.(deleted := s.deleted)
  }

  lemma ConflictReasonExactly(r: MergeReply, items: Items, phone: Phone, lastSync: int, done: set<string>)
    requires ReplyMatches(r, items, phone, lastSync, done)
    ensures ReasonsRight(r.conflicts, items, phone)
  {
    hide RowToItem;
    forall c | c in r.conflicts
      ensures c.itemId in items && c.itemId in phone
      ensures var s, p := ContentOf(RowToItem(c.itemId, items[c.itemId])), ContentOf(phone[c.itemId]);
              c.reason == DeleteVsEdit <==> s.deleted != p.deleted && s != p.(deleted := s.deleted)
    {
      assert VerdictFor(items, phone, lastSync, c.itemId) == Conflict(c.reason);
    }
  }

  predicate Changed(m: Items, id: string, lastSync: int) {
    id in m && m[id].updatedAt > lastSync
  }

  predicate PhoneChanged(m: Phone, id: string, lastSync: int) {
    id in m && m[id].updatedAt > lastSync
  }

  /** Unvisited ids are exactly the ones a visit would have left alone, so the loop may skip them. */
  lemma UnvisitedIdsAreUntouched(items: Items, phone: Phone, lastSync: int, id: string)
    requires id !in Visited(items, phone, lastSync)
    ensures VerdictFor(items, phone, lastSync, id) == Untouched
  {
  }

  /** The loop over the visited ids does all there is to do: the table, and the reply, are those of a loop
      over every id on either side. */
  lemma VisitedIsEnough(items: Items, phone: Phone, lastSync: int, r: MergeReply)
    requires ReplyMatches(r, items, phone, lastSync, Visited(items, phone, lastSync))
    ensures ReplyMatches(r, items, phone, lastSync, items.Keys + phone.Keys)
    ensures MergedOver(items, phone, lastSync, items.Keys + phone.Keys) == Merged(items, phone, lastSync)
  {
    hide VerdictFor, RowToItem, UpsertItem;
    forall id | id !in Visited(items, phone, lastSync)
      ensures VerdictFor(items, phone, lastSync, id) == Untouched
    {
      UnvisitedIdsAreUntouched(items, phone, lastSync, id);
    }
    assert phone.Keys * (items.Keys + phone.Keys) == phone.Keys == phone.Keys * Visited(items, phone, lastSync);
  }

  /** What the phone cannot see survives a change of the table. */
  ghost predicate LocalColumnsKept(before: Items, after: Items) {
    forall id | id in before ::
      && id in after && after[id].essential == before[id].essential
      && after[id].minimumQuantity == before[id].minimumQuantity && after[id].condition == before[id].condition
      && (before[id].createdAt.Some? ==> after[id].createdAt == before[id].createdAt)
  }

  lemma MergeKeepsLocalColumns(items: Items, phone: Phone, lastSync: int)
    ensures LocalColumnsKept(items, Merged(items, phone, lastSync))
  {
    hide UpsertItem, VerdictFor;
    forall id | id in items && id in phone
      ensures var row := UpsertItem(Some(items[id]), phone[id]);
              && row.essential == items[id].essential && row.minimumQuantity == items[id].minimumQuantity
              && row.condition == items[id].condition
              && (items[id].createdAt.Some? ==> row.createdAt == items[id].createdAt)
    {
      UpdateKeepsLocalColumns(items[id], phone[id]);
    }
  }

  lemma TakenRowIsNewer(server: Item, phone: Item, lastSync: int)
    ensures Judge(Some(server), Some(phone), lastSync).TakePhone? ==> phone.updatedAt > server.updatedAt
  {
    hide DiffOf;
  }

  /** Replacing a row always makes it strictly newer, and no id ever disappears. */
  lemma MergeIsStrictlyNewer(items: Items, phone: Phone, lastSync: int)
    ensures items.Keys <= Merged(items, phone, lastSync).Keys
    ensures Merged(items, phone, lastSync).Keys == items.Keys + phone.Keys
    ensures forall id | id in items && Merged(items, phone, lastSync)[id] != items[id] ::
              Merged(items, phone, lastSync)[id].updatedAt > items[id].updatedAt
  {
    hide Judge;
    forall id | id in items && id in phone && VerdictFor(items, phone, lastSync, id).TakePhone?
      ensures phone[id].updatedAt > items[id].updatedAt
    {
      TakenRowIsNewer(RowToItem(id, items[id]), phone[id], lastSync);
    }
  }

  /** What becomes of each id, on the rows themselves. The phone's row is taken when the Pi has none, when
      only the phone changed it, or when both did and the phone's is newer and differs at most in packed
      status. The Pi's row is returned when the phone did not send it changed, or when packed status alone
      differs and the phone's is not newer. Two changed rows that differ otherwise clash. */
  lemma VerdictInPlainTerms(items: Items, phone: Phone, lastSync: int, id: string)
    ensures var v := VerdictFor(items, phone, lastSync, id);
            var sc, pc := Changed(items, id, lastSync), PhoneChanged(phone, id, lastSync);
            && (v.TakePhone? <==>
                  id in phone && (id !in items || (pc && !sc)
                                  || (pc && sc && phone[id].updatedAt > items[id].updatedAt
                                      && AlikeButPacked(items, phone, id))))
            && (v.SendServer? <==>
                  sc && (id !in phone || !pc
                         || (phone[id].updatedAt <= items[id].updatedAt && AlikeButPacked(items, phone, id)
                             && RowToItem(id, items[id]).packed != phone[id].packed)))
            && (v.Conflict? <==> sc && pc && !AlikeButPacked(items, phone, id))
  {
    if id in items && id in phone {
      assert VerdictFor(items, phone, lastSync, id) == Judge(Some(RowToItem(id, items[id])), Some(phone[id]), lastSync);
    }
  }

  /** The two rows differ in packed status at most. */
  predicate AlikeButPacked(items: Items, phone: Phone, id: string)
    requires id in items && id in phone
  {
    var s, p := ContentOf(RowToItem(id, items[id])), ContentOf(phone[id]);
    s == p.(packed := s.packed)
  }

  /** A tombstone and a live version that both changed since the last sync always conflict, and the
      reason says whether anything besides the deletion differs. */
  lemma TombstoneNeverSilentlyMerged(items: Items, phone: Phone, lastSync: int, id: string)
    requires Changed(items, id, lastSync) && PhoneChanged(phone, id, lastSync)
    requires items[id].deleted != phone[id].deleted
    ensures var s, p := ContentOf(RowToItem(id, items[id])), ContentOf(phone[id]);
            VerdictFor(items, phone, lastSync, id)
            == Conflict(if s == p.(deleted := s.deleted) then BothModified else DeleteVsEdit)
    ensures Merged(items, phone, lastSync)[id] == items[id]
  {
  }

  /** An id is auto-resolved exactly when both sides changed it and packed status is the one difference. */
  lemma AutoResolvedExactly(items: Items, phone: Phone, lastSync: int, id: string)
    ensures var v := VerdictFor(items, phone, lastSync, id);
            (v == TakePhone(true) || v == SendServer(true))
            <==> Changed(items, id, lastSync) && PhoneChanged(phone, id, lastSync)
                 && var s, p := ContentOf(RowToItem(id, items[id])), ContentOf(phone[id]);
                    s.packed != p.packed && s == p.(packed := s.packed)
  {
    if id in items && id in phone {
      assert VerdictFor(items, phone, lastSync, id) == Judge(Some(RowToItem(id, items[id])), Some(phone[id]), lastSync);
    }
  }

  /** Between two runs of one request every row either stayed as the first run left it, or was
      edited with a stamp no older than the phone's row and newer than the request's baseline. */
  ghost predicate EditedSince(first: Items, later: Items, phone: Phone, lastSync: int) {
    && first.Keys <= later.Keys
    && forall id | id in first && id in phone && later[id] != first[id] ::
         later[id].updatedAt > lastSync && later[id].updatedAt >= phone[id].updatedAt
  }

  /** Running the same request again writes nothing: it undoes no edit made in between. */
  lemma ReplayWritesNothing(items: Items, later: Items, phone: Phone, lastSync: int)
    requires EditedSince(Merged(items, phone, lastSync), later, phone, lastSync)
    ensures Merged(later, phone, lastSync) == later
  {
    var first := Merged(items, phone, lastSync);
    assert first.Keys == items.Keys + phone.Keys;
    forall id | id in Merged(later, phone, lastSync).Keys + later.Keys
      ensures id in later && Merged(later, phone, lastSync)[id] == later[id]
    {
      if id in phone {
        ReplayTakesNothing(items, later, phone, lastSync, id);
      }
    }
  }

  lemma ReplayTakesNothing(items: Items, later: Items, phone: Phone, lastSync: int, id: string)
    requires EditedSince(Merged(items, phone, lastSync), later, phone, lastSync) && id in phone
    ensures id in later && !VerdictFor(later, phone, lastSync, id).TakePhone?
  {
    var first := Merged(items, phone, lastSync);
    assert id in first;
    if later[id] == first[id] {
      if VerdictFor(items, phone, lastSync, id).TakePhone? {
        assert first[id].updatedAt == phone[id].updatedAt;
      } else {
        assert later[id] == items[id];
      }
    }
  }

  /** The reply after one more id has been judged. */
  function Recorded(r: MergeReply, items: Items, id: string, v: Verdict): MergeReply
    requires v.SendServer? || v.Conflict? ==> id in items
  {
    MergeReply(
      if v.SendServer? then r.changes + [RowToItem(id, items[id])] else r.changes,
      if v.Conflict? then r.conflicts + [ConflictItem(id, RowToItem(id, items[id]), v.reason)] else r.conflicts,
      if v == TakePhone(true) || v == SendServer(true) then r.autoResolved + [id] else r.autoResolved)
  }

  lemma RecordedMatches(r: MergeReply, items: Items, phone: Phone, lastSync: int, done: set<string>, id: string)
    requires ReplyMatches(r, items, phone, lastSync, done) && id !in done
    ensures var v := VerdictFor(items, phone, lastSync, id);
            && (v.SendServer? || v.Conflict? ==> id in items)
            && ReplyMatches(Recorded(r, items, id, v), items, phone, lastSync, done + {id})
  {
  }

  lemma MergedOverOneMore(items: Items, phone: Phone, lastSync: int, done: set<string>, id: string)
    requires id !in done
    ensures var v := VerdictFor(items, phone, lastSync, id);
            && (v.TakePhone? ==> id in phone)
            && Find(MergedOver(items, phone, lastSync, done), id) == Find(items, id)
            && MergedOver(items, phone, lastSync, done + {id})
               == if v.TakePhone?
                  then MergedOver(items, phone, lastSync, done)[id := UpsertItem(Find(items, id), phone[id])]
                  else MergedOver(items, phone, lastSync, done)
  {
    var v := VerdictFor(items, phone, lastSync, id);
    assert id in phone && id !in items ==> v.TakePhone?;
    assert v.TakePhone? ==> id in phone;
    hide VerdictFor, UpsertItem;
    assert phone.Keys * (done + {id}) == phone.Keys * done + (if id in phone then {id} else {});
  }
}
