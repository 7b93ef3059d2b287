/** Item batches: creating, editing and deleting inventory rows, and grouping them for display. */
module Batches {
  import opened Text
  import opened WordRules
  import opened Inventory
  import opened SyncMerge

  /** The expiry text of a write request, once parsed. */
  datatype ExpiryText = NoExpiry | Parsed(ms: int) | Malformed

  /** `category` is `None` when the request names a category id that does not exist. */
  datatype Payload = Payload(
    category: Option<Category>, name: string, quantity: real, unit: string, packed: bool, essential: bool,
    expiry: ExpiryText, minimumQuantity: real, condition: string, notes: string)

  function ExpiryOf(expiry: ExpiryText): Option<int> {
    if expiry.Parsed? then Some(expiry.ms) else None
  }

  function KeyOf(row: Row): IdentityKey {
    NormalizedIdentityKey(row.name, row.unit, row.category)
  }

  function PayloadKey(payload: Payload, category: Category): IdentityKey {
    NormalizedIdentityKey(payload.name, payload.unit, Named(category))
  }

  /** The row `write_item_record` stores: always live, and an update keeps the creation time. */
  function WrittenRow(existing: Option<Row>, bagId: string, payload: Payload, category: Category,
                      now: int, author: string): Row {
    Row(bagId, Strip(payload.name), Named(category), payload.quantity, Strip(payload.unit), payload.packed,
        Strip(payload.notes), ExpiryOf(payload.expiry), false, now, author,
        Some(category), payload.essential, payload.minimumQuantity,
        if Strip(payload.condition) == "" then "good" else Strip(payload.condition),
        if existing.Some? then existing.value.createdAt else Some(now))
  }

  /** The payload after folding in the batch it lands on. */
  function Combined(payload: Payload, batch: Row): Payload {
    payload.(
      name := Strip(payload.name), unit := Strip(payload.unit),
      quantity := batch.quantity + payload.quantity,
      packed := batch.packed || payload.packed,
      essential := batch.essential || payload.essential,
      minimumQuantity := if batch.minimumQuantity > payload.minimumQuantity
                         then batch.minimumQuantity else payload.minimumQuantity,
      condition := if Strip(payload.condition) != "" then Strip(payload.condition)
                   else if batch.condition != "" then batch.condition else "good",
      notes := MergedNotes(batch.notes, payload.notes))
  }

  /** A live row of the same bag, identity and expiry, other than the row being edited. */
  predicate IsMatch(items: Items, id: string, bagId: string, key: IdentityKey, expiry: Option<int>,
                    excluded: Option<string>) {
    && id in items && !items[id].deleted && items[id].bagId == bagId && excluded != Some(id)
    && KeyOf(items[id]) == key && items[id].expiryMs == expiry
  }

  /** The most recently updated match, if any. */
  ghost predicate IsExactMatch(items: Items, bagId: string, key: IdentityKey, expiry: Option<int>,
                               excluded: Option<string>, found: Option<string>) {
    match found
    case None => forall id :: !IsMatch(items, id, bagId, key, expiry, excluded)
    case Some(m) =>
      && IsMatch(items, m, bagId, key, expiry, excluded)
      && forall id | IsMatch(items, id, bagId, key, expiry, excluded) :: items[id].updatedAt <= items[m].updatedAt
  }

  /** What makes a stored row the batch a request is for, in plain terms: it is live, in the bag, not the row
      being edited, expires at the same time, and has the category, the words of the name and the words of the
      unit asked for. */
  ghost predicate IsLike(items: Items, id: string, bagId: string, payload: Payload, category: Category,
                         excluded: Option<string>) {
    && id in items && !items[id].deleted && items[id].bagId == bagId && excluded != Some(id)
    && items[id].expiryMs == (if payload.expiry.Parsed? then Some(payload.expiry.ms) else None)
    && SameIdentity(items[id].name, items[id].unit, items[id].category, payload.name, payload.unit, Named(category))
  }

  /** The rows that match are the rows of the same batch, and those whose names hold other numbers of bars. */
  lemma MatchExactly(items: Items, id: string, bagId: string, payload: Payload, category: Category,
                     excluded: Option<string>)
    ensures IsLike(items, id, bagId, payload, category, excluded)
            <==> IsMatch(items, id, bagId, PayloadKey(payload, category), ExpiryOf(payload.expiry), excluded)
                 && Bars(items[id].name) == Bars(payload.name)
  {
    if id in items {
      var row := items[id];
      KeysEqualExactly(row.name, row.unit, row.category, payload.name, payload.unit, Named(category));
    }
  }

  /** One create or edit, with the values the server looked up or generated while doing it. */
  datatype Write = Write(
    bagId: string, payload: Payload, category: Category, itemId: Option<string>, found: Option<string>,
    newId: string, now: int, later: int, author: string)

  function TargetId(w: Write): string {
    if w.found.Some? then w.found.value else if w.itemId.Some? then w.itemId.value else w.newId
  }

  function FinalPayload(items: Items, w: Write): Payload {
    if w.found.Some? && w.found.value in items then Combined(w.payload, items[w.found.value]) else w.payload
  }

  function TargetRow(items: Items, w: Write): Row {
    WrittenRow(Find(items, TargetId(w)), w.bagId, FinalPayload(items, w), w.category, w.now, w.author)
  }

  /** Writes the target batch, and retires the edited row when it was folded into another one. */
  function AfterWrite(items: Items, w: Write): Items {
    var written := items[TargetId(w) := TargetRow(items, w)];
    if w.found.Some? && w.itemId.Some? && w.itemId.value in written
    then written[w.itemId.value := Retired(written[w.itemId.value], w.later, w.author)]
    else written
  }

  function Retired(row: Row, now: int, author: string): Row {
    row.(deleted := true, updatedAt := now, updatedBy := author)
  }

  ghost predicate CanWrite(items: Items, w: Write) {
    && !w.payload.expiry.Malformed? && w.payload.category == Some(w.category)
    && (w.itemId.None? ==> w.newId !in items)
    && IsExactMatch(items, w.bagId, PayloadKey(w.payload, w.category), ExpiryOf(w.payload.expiry), w.itemId, w.found)
  }

  /** A request for a batch that is there lands on a batch, the most recently updated of those like it at
      the earliest; and the batch it lands on is one like it, unless the two names hold other numbers of bars. */
  lemma FoldsExactly(items: Items, w: Write)
    requires CanWrite(items, w)
    ensures forall id | IsLike(items, id, w.bagId, w.payload, w.category, w.itemId) ::
              w.found.Some? && w.found.value in items && items[id].updatedAt <= items[w.found.value].updatedAt
    ensures w.found.Some? ==>
              && w.found.value in items
              && (IsLike(items, w.found.value, w.bagId, w.payload, w.category, w.itemId)
                  <==> Bars(items[w.found.value].name) == Bars(w.payload.name))
    ensures (forall id | id in items :: Bars(items[id].name) == Bars(w.payload.name)) ==>
              (w.found.Some? <==> exists id :: IsLike(items, id, w.bagId, w.payload, w.category, w.itemId))
  {
    hide PayloadKey, IsLike;
    forall id
      ensures IsLike(items, id, w.bagId, w.payload, w.category, w.itemId) <==>
                && IsMatch(items, id, w.bagId, PayloadKey(w.payload, w.category), ExpiryOf(w.payload.expiry), w.itemId)
                && Bars(items[id].name) == Bars(w.payload.name)
    {
      MatchExactly(items, id, w.bagId, w.payload, w.category, w.itemId);
    }
  }

  // Quantities.

  function ActiveQuantity(row: Row): real {
    if row.deleted then 0.0 else row.quantity
  }

  ghost function SumOver(items: Items, ids: set<string>): real
    requires ids <= items.Keys
  {
    if ids == {} then 0.0
    else
      var id :| id in ids;
      ActiveQuantity(items[id]) + SumOver(items, ids - {id})
  }

  ghost function Total(items: Items): real {
    SumOver(items, items.Keys)
  }

  lemma {:induction false} SumRemove(items: Items, ids: set<string>, k: string)
    requires ids <= items.Keys && k in ids
    ensures SumOver(items, ids) == ActiveQuantity(items[k]) + SumOver(items, ids - {k})
    decreases ids
  {
    var id :| id in ids && SumOver(items, ids) == ActiveQuantity(items[id]) + SumOver(items, ids - {id});
    if id == k {
    } else {
      SumRemove(items, ids - {id}, k);
      SumRemove(items, ids - {k}, id);
      assert ids - {id} - {k} == ids - {k} - {id};
    }
  }

  lemma {:induction false} SumFrame(a: Items, b: Items, ids: set<string>)
    requires ids <= a.Keys && ids <= b.Keys
    requires forall id | id in ids :: a[id] == b[id]
    ensures SumOver(a, ids) == SumOver(b, ids)
    decreases ids
  {
    if ids == {} {
    } else {
      var id :| id in ids && SumOver(a, ids) == ActiveQuantity(a[id]) + SumOver(a, ids - {id});
      SumFrame(a, b, ids - {id});
      SumRemove(b, ids, id);
    }
  }

  function QuantityAt(items: Items, id: Option<string>): real {
    if id.Some? && id.value in items then ActiveQuantity(items[id.value]) else 0.0
  }

  lemma TotalAfterUpdate(items: Items, k: string, row: Row)
    ensures Total(items[k := row]) == Total(items) - QuantityAt(items, Some(k)) + ActiveQuantity(row)
  {
    var updated := items[k := row];
    SumRemove(updated, updated.Keys, k);
    assert updated.Keys - {k} == items.Keys - {k};
    SumFrame(updated, items, items.Keys - {k});
    if k in items {
      SumRemove(items, items.Keys, k);
    } else {
      assert items.Keys - {k} == items.Keys;
    }
  }

  /** Conservation: the payload's quantity replaces the edited row's live quantity in the total,
      whether the write inserts, merges, edits, or edits into another batch. */
  lemma WriteConservesQuantity(items: Items, w: Write)
    requires CanWrite(items, w)
    ensures Total(AfterWrite(items, w)) == Total(items) - QuantityAt(items, w.itemId) + w.payload.quantity
  {
    var written := items[TargetId(w) := TargetRow(items, w)];
    TotalAfterUpdate(items, TargetId(w), TargetRow(items, w));
    if w.found.Some? && w.itemId.Some? && w.itemId.value in written {
      TotalAfterUpdate(written, w.itemId.value, Retired(written[w.itemId.value], w.later, w.author));
    }
  }

  // One live row per batch.

  predicate SameBatch(a: Row, b: Row) {
    a.bagId == b.bagId && KeyOf(a) == KeyOf(b) && a.expiryMs == b.expiryMs
  }

  ghost predicate UniqueBatches(items: Items) {
    forall a, b | a in items && b in items && a != b && !items[a].deleted && !items[b].deleted ::
      !SameBatch(items[a], items[b])
  }

  /** The written row carries the batch identity the request asked for. */
  lemma TargetRowIdentity(items: Items, w: Write)
    ensures KeyOf(TargetRow(items, w)) == PayloadKey(w.payload, w.category)
    ensures TargetRow(items, w).expiryMs == ExpiryOf(w.payload.expiry) && TargetRow(items, w).bagId == w.bagId
  {
    StripIdempotent(w.payload.name);
    StripIdempotent(w.payload.unit);
    KeyIgnoresOuterSpace(w.payload.name, w.payload.unit, Named(w.category));
  }

  /** The row written is live, shows the name, unit, category and condition asked for, and keeps its
      creation time; without a batch it is just what was asked for. */
  lemma WrittenRowShowsRequest(items: Items, w: Write)
    requires w.found.Some? ==> w.found.value in items
    ensures var row := TargetRow(items, w);
            && !row.deleted && row.name == Strip(w.payload.name) && row.unit == Strip(w.payload.unit)
            && row.category == Named(w.category) && row.categoryId == Some(w.category)
            && row.updatedAt == w.now && row.updatedBy == w.author && row.condition != ""
            && (Strip(w.payload.condition) != "" ==> row.condition == Strip(w.payload.condition))
            && row.createdAt == (if TargetId(w) in items then items[TargetId(w)].createdAt else Some(w.now))
            && (w.found.None? ==>
                  && row.quantity == w.payload.quantity && row.packed == w.payload.packed
                  && row.essential == w.payload.essential && row.minimumQuantity == w.payload.minimumQuantity
                  && row.notes == Strip(w.payload.notes))
  {
    hide MergedNotes, Strip;
    StripIdempotent(w.payload.name);
    StripIdempotent(w.payload.unit);
    StripIdempotent(w.payload.condition);
  }

  /** Folding into a batch loses nothing: quantities add, flags stay set, the minimum is the larger one,
      and both notes are there. */
  lemma FoldingLosesNothing(items: Items, w: Write)
    requires w.found.Some? && w.found.value in items
    ensures var row, batch := TargetRow(items, w), items[w.found.value];
            && row.quantity == batch.quantity + w.payload.quantity
            && (row.packed <==> batch.packed || w.payload.packed)
            && (row.essential <==> batch.essential || w.payload.essential)
            && row.minimumQuantity >= batch.minimumQuantity && row.minimumQuantity >= w.payload.minimumQuantity
            && (row.minimumQuantity == batch.minimumQuantity || row.minimumQuantity == w.payload.minimumQuantity)
            && Contains(row.notes, Strip(batch.notes))
            && Contains(Lower(row.notes), Lower(Strip(w.payload.notes)))
  {
    hide Strip, Contains, Lower, MergedNotes, Trimmed;
    var batch := items[w.found.value];
    MergedNotesKeepBoth(batch.notes, w.payload.notes);
    TrimmedIsStripped(MergedNotes(batch.notes, w.payload.notes));
  }

  /** The condition noted with the batch stays unless the request gives one. */
  lemma FoldingKeepsCondition(items: Items, w: Write)
    requires w.found.Some? && w.found.value in items
    ensures var row, batch := TargetRow(items, w), items[w.found.value];
            row.condition == if Strip(w.payload.condition) != "" then Strip(w.payload.condition)
                             else if Strip(batch.condition) != "" then Strip(batch.condition) else "good"
  {
    hide Strip, MergedNotes;
    StripIdempotent(w.payload.condition);
    TrimmedIsStripped("good");
    TrimmedIsStripped("");
  }

  /** A write changes two rows at most: the one it lands on and, if it is another, the edited one, which is
      then deleted and stamped, so that the deletion is synced. A row deleted so keeps all its other columns. */
  lemma WriteTouchesTwoRows(items: Items, w: Write)
    requires CanWrite(items, w)
    ensures var after := AfterWrite(items, w);
            && after.Keys == items.Keys + {TargetId(w)}
            && TargetId(w) == (match w.found
                               case Some(id) => id
                               case None => if w.itemId.Some? then w.itemId.value else w.newId)
            && after[TargetId(w)] == TargetRow(items, w)
            && (forall id | id in items && id != TargetId(w) && w.itemId != Some(id) :: after[id] == items[id])
            && (forall id | id in items && id != TargetId(w) && w.itemId == Some(id) ::
                  after[id] == items[id].(deleted := true, updatedAt := w.later, updatedBy := w.author))
  {
    hide TargetRow, IsMatch;
    assert w.found.Some? ==> w.found != w.itemId by {
      assert w.found.Some? ==> IsMatch(items, w.found.value, w.bagId, PayloadKey(w.payload, w.category),
                                       ExpiryOf(w.payload.expiry), w.itemId);
      FoundIsAnother(items, w);
    }
  }

  lemma FoundIsAnother(items: Items, w: Write)
    requires CanWrite(items, w)
    ensures w.found.Some? ==> w.found != w.itemId && w.found.value in items
  {
  }

  lemma WriteKeepsBatchesUnique(items: Items, w: Write)
    requires UniqueBatches(items) && CanWrite(items, w)
    ensures UniqueBatches(AfterWrite(items, w))
  {
    var after, target := AfterWrite(items, w), TargetId(w);
    var key, expiry := PayloadKey(w.payload, w.category), ExpiryOf(w.payload.expiry);
    TargetRowIdentity(items, w);
    forall a, b | a in after && b in after && a != b && !after[a].deleted && !after[b].deleted
      ensures !SameBatch(after[a], after[b])
    {
      var other := if a == target then b else a;
      if a == target || b == target {
        assert after[other] == items[other];
        assert !IsMatch(items, other, w.bagId, key, expiry, w.itemId);
      } else {
        assert after[a] == items[a] && after[b] == items[b];
      }
    }
  }

  // Whole runs of item requests.

  datatype ItemEvent = Put(write: Write) | Remove(id: string, now: int, author: string)

  ghost predicate CanApply(items: Items, e: ItemEvent) {
    match e
    case Put(w) => CanWrite(items, w)
    case Remove(id, _, _) => id in items
  }

  function AfterItemEvent(items: Items, e: ItemEvent): Items {
    match e
    case Put(w) => AfterWrite(items, w)
    case Remove(id, now, author) => if id in items then items[id := Retired(items[id], now, author)] else items
  }

  /** What one event adds to the live total. */
  function NetQuantity(items: Items, e: ItemEvent): real {
    match e
    case Put(w) => w.payload.quantity - QuantityAt(items, w.itemId)
    case Remove(id, _, _) => -QuantityAt(items, Some(id))
  }

  ghost predicate CanApplyAll(items: Items, events: seq<ItemEvent>)
    decreases |events|
  {
    events == [] || (CanApply(items, events[0]) && CanApplyAll(AfterItemEvent(items, events[0]), events[1..]))
  }

  function AfterItemEvents(items: Items, events: seq<ItemEvent>): Items
    decreases |events|
  {
    if events == [] then items else AfterItemEvents(AfterItemEvent(items, events[0]), events[1..])
  }

  function NetQuantities(items: Items, events: seq<ItemEvent>): real
    decreases |events|
  {
    if events == [] then 0.0
    else NetQuantity(items, events[0]) + NetQuantities(AfterItemEvent(items, events[0]), events[1..])
  }

  /** Every run of creates, edits and deletes keeps one live row per batch and balances the books. */
  lemma {:induction false} EveryItemRun(items: Items, events: seq<ItemEvent>)
    requires UniqueBatches(items) && CanApplyAll(items, events)
    ensures UniqueBatches(AfterItemEvents(items, events))
    ensures Total(AfterItemEvents(items, events)) == Total(items) + NetQuantities(items, events)
    decreases |events|
  {
    if events == [] {
    } else {
      var e := events[0];
      match e {
        case Put(w) =>
          WriteKeepsBatchesUnique(items, w);
          WriteConservesQuantity(items, w);
        case Remove(id, now, author) =>
          TotalAfterUpdate(items, id, Retired(items[id], now, author));
      }
      EveryItemRun(AfterItemEvent(items, e), events[1..]);
    }
  }
}
