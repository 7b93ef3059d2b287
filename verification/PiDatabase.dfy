/** The Pi's tables and the transactions that change them. */
module PiDatabase {
  import opened Text
  import opened Inventory
  import opened SyncMerge
  import opened Bags
  import opened Batches

  type BagTable = map<string, BagRow>

  function LiveItemsIn(items: Items, bagId: string): set<string> {
    set id | id in items && !items[id].deleted && items[id].bagId == bagId
  }

  function RankIn(bags: BagTable, items: Items, bagId: string): Rank
    requires bagId in bags
  {
    RankOf(bags[bagId], |LiveItemsIn(items, bagId)|)
  }

  predicate Hits(bags: BagTable, wanted: Option<string>) {
    wanted.Some? && wanted.value != "" && wanted.value in bags
  }

  ghost predicate RanksFirst(bags: BagTable, items: Items, bagId: string) {
    bagId in bags && forall b | b in bags :: RankLeq(RankIn(bags, items, bagId), RankIn(bags, items, b))
  }

  /** The bag that survives: the caller's, else the recorded one, else the default one, else the
      first in rank. */
  ghost predicate Survives(bags: BagTable, items: Items, preferred: Option<string>, recorded: Option<string>,
                           default: Option<string>, bagId: string) {
    if Hits(bags, preferred) then bagId == preferred.value
    else if Hits(bags, recorded) then bagId == recorded.value
    else if Hits(bags, default) then bagId == default.value
    else RanksFirst(bags, items, bagId)
  }

  /** No other bag holds more live items than `bagId`; between equals, a bag of the default size goes before
      one of another size, then the older one, and then the one whose name comes first. */
  ghost predicate HoldsMostLive(bags: BagTable, items: Items, bagId: string) {
    && bagId in bags
    && forall b | b in bags ::
         var most := |set id | id in items && !items[id].deleted && items[id].bagId == bagId|;
         var n := |set id | id in items && !items[id].deleted && items[id].bagId == b|;
         && n <= most
         && (n == most && HasDefaultSize(bags[b]) ==> HasDefaultSize(bags[bagId]))
         && (n == most && (HasDefaultSize(bags[b]) <==> HasDefaultSize(bags[bagId])) ==>
               CreatedOrChanged(bags[bagId]) <= CreatedOrChanged(bags[b]))
         && (n == most && (HasDefaultSize(bags[b]) <==> HasDefaultSize(bags[bagId]))
             && CreatedOrChanged(bags[b]) == CreatedOrChanged(bags[bagId]) ==>
               LexLeq(Lower(bags[bagId].name), Lower(bags[b].name)))
  }

  /** Which bag survives, in plain terms: a wanted bag that is there, or one that holds most. */
  lemma SurvivorInPlainTerms(bags: BagTable, items: Items, preferred: Option<string>, recorded: Option<string>,
                             default: Option<string>, bagId: string)
    requires Survives(bags, items, preferred, recorded, default, bagId)
    ensures bagId in bags
    ensures forall p | p != "" && p in bags ::
              && (preferred == Some(p) ==> bagId == p)
              && (!Hits(bags, preferred) && recorded == Some(p) ==> bagId == p)
              && (!Hits(bags, preferred) && !Hits(bags, recorded) && default == Some(p) ==> bagId == p)
    ensures (forall p | p != "" && Some(p) in {preferred, recorded, default} :: p !in bags) ==>
              HoldsMostLive(bags, items, bagId)
  {
    if RanksFirst(bags, items, bagId) {
      forall b | b in bags
        ensures |LiveItemsIn(items, b)| <= |LiveItemsIn(items, bagId)|
        ensures |LiveItemsIn(items, b)| == |LiveItemsIn(items, bagId)| && HasDefaultSize(bags[b]) ==>
                  HasDefaultSize(bags[bagId])
        ensures |LiveItemsIn(items, b)| == |LiveItemsIn(items, bagId)|
                && (HasDefaultSize(bags[b]) <==> HasDefaultSize(bags[bagId])) ==>
                  CreatedOrChanged(bags[bagId]) <= CreatedOrChanged(bags[b])
        ensures |LiveItemsIn(items, b)| == |LiveItemsIn(items, bagId)|
                && (HasDefaultSize(bags[b]) <==> HasDefaultSize(bags[bagId]))
                && CreatedOrChanged(bags[b]) == CreatedOrChanged(bags[bagId]) ==>
                  LexLeq(Lower(bags[bagId].name), Lower(bags[b].name))
      {
        RankMeans(bags[bagId], |LiveItemsIn(items, bagId)|, bags[b], |LiveItemsIn(items, b)|);
      }
      forall b
        ensures LiveItemsIn(items, b) == set id | id in items && !items[id].deleted && items[id].bagId == b
      {
      }
    }
  }

  /** Only the live rows and their bags count: deleted items, and everything else about an item, have no say
      in which bag survives. */
  lemma OnlyLiveRowsChooseTheBag(bags: BagTable, a: Items, b: Items, preferred: Option<string>,
                                 recorded: Option<string>, default: Option<string>, bagId: string)
    requires forall id :: id in a && !a[id].deleted <==> id in b && !b[id].deleted
    requires forall id | id in a && !a[id].deleted :: a[id].bagId == b[id].bagId
    ensures Survives(bags, a, preferred, recorded, default, bagId)
            <==> Survives(bags, b, preferred, recorded, default, bagId)
  {
    forall bag
      ensures LiveItemsIn(a, bag) == LiveItemsIn(b, bag)
    {
    }
  }

  /** Rows of the bags in `from` now point at `to`, restamped in [lo, hi]; nothing else changed. */
  ghost predicate Rehomed(before: Items, after: Items, from: set<string>, to: string, author: string,
                          lo: int, hi: int) {
    && after.Keys == before.Keys
    && forall id | id in before ::
         if before[id].bagId in from
         then after[id] == before[id].(bagId := to, updatedAt := after[id].updatedAt, updatedBy := author)
              && lo <= after[id].updatedAt <= hi
         else after[id] == before[id]
  }

  lemma RehomedLater(a: Items, b: Items, from: set<string>, to: string, author: string, lo: int, mid: int, hi: int)
    requires Rehomed(a, b, from, to, author, lo, mid) && mid <= hi
    ensures Rehomed(a, b, from, to, author, lo, hi)
  {
  }

  lemma RehomedTwice(a: Items, b: Items, c: Items, first: set<string>, second: set<string>, to: string,
                     author: string, lo: int, mid: int, hi: int)
    requires Rehomed(a, b, first, to, author, lo, mid) && Rehomed(b, c, second, to, author, mid, hi)
    requires to !in second && lo <= mid <= hi
    ensures Rehomed(a, c, first + second, to, author, lo, hi)
  {
    assert a.Keys == b.Keys == c.Keys;
  }

  lemma ColumnsKeptThrough(before: Items, moved: Items, after: Items, from: set<string>, to: string, author: string,
                           lo: int, hi: int)
    requires Rehomed(before, moved, from, to, author, lo, hi) && LocalColumnsKept(moved, after)
    ensures LocalColumnsKept(before, after)
  {
  }

  datatype Error = BagNotFound | CategoryNotFound | BadExpiry | ItemNotFound | NameRequired | UnitRequired | BadBagSize

  datatype Result = Ok(id: string) | Err(error: Error)

  // Sync requests.

  datatype SyncRequest = SyncRequest(lastSyncAt: int, changedBags: seq<Bag>, changedItems: seq<Item>)

  datatype SyncReply = SyncReply(serverTime: int, bagChanges: seq<Bag>, itemReply: MergeReply)

  function RequestedBagIds(req: SyncRequest): set<string> {
    (set b | b in req.changedBags && Strip(b.bagId) != "" :: Strip(b.bagId))
    + (set i | i in req.changedItems && Strip(i.bagId) != "" :: Strip(i.bagId))
  }

  /** The bag the request is about, if all its rows name one bag. */
  ghost predicate IsPreferredBag(req: SyncRequest, preferred: Option<string>) {
    match preferred
    case None => |RequestedBagIds(req)| != 1
    case Some(b) => RequestedBagIds(req) == {b}
  }

  function FirstBag(rows: seq<Bag>, bagId: string): Option<Bag> {
    if rows == [] then None else if rows[0].bagId == bagId then Some(rows[0]) else FirstBag(rows[1..], bagId)
  }

  /** What the request wishes for the bag it is about: that of its first row for it. */
  function WishIn(req: SyncRequest, wanted: Option<string>): Wish {
    var bag := if wanted.Some? then FirstBag(req.changedBags, wanted.value) else None;
    if bag.Some? then Wish(Some(bag.value.sizeLiters), Some(bag.value.name)) else Wish(None, None)
  }

  /** The one bag row after a collapse: newly made, or settled from the survivor's. */
  ghost predicate AlignedFrom(bags: BagTable, items: Items, recorded: Option<string>, default: Option<string>,
                              wanted: Option<string>, wish: Wish, author: string, row: BagRow) {
    if bags == map[] then FreshBag(row, wish, author)
    else exists b :: b in bags && Survives(bags, items, wanted, recorded, default, b) && SettledFrom(bags[b], row, wish)
  }

  ghost predicate AlignedToRequest(bags: BagTable, items: Items, recorded: Option<string>, default: Option<string>,
                                   req: SyncRequest, author: string, row: BagRow) {
    exists wanted ::
      && IsPreferredBag(req, wanted)
      && AlignedFrom(bags, items, recorded, default, wanted, WishIn(req, wanted), author, row)
  }

  /** The one bag row after startup: newly made, or migrated and settled, and then checked. */
  ghost predicate StartedFrom(bags: BagTable, items: Items, recorded: Option<string>, default: Option<string>,
                              author: string, row: BagRow) {
    var migrated := map b | b in bags :: Migrated(bags[b]);
    exists settled: BagRow ::
      && row == settled.(readiness := row.readiness, lastChecked := row.lastChecked)
      && AlignedFrom(migrated, items, recorded, default, None, Wish(None, None), author, settled)
  }

  /** The phone's bag for `bagId`, re-labelled; a later row overrides an earlier one. */
  function PhoneBag(rows: seq<Bag>, bagId: string, keep: string): Option<Bag> {
    if rows == [] then None
    else
      var last := rows[|rows| - 1];
      if last.bagId == bagId then Some(last.(bagId := keep)) else PhoneBag(rows[..|rows| - 1], bagId, keep)
  }

  /** The phone's rows for `bagId` by id, re-labelled; a later row overrides an earlier one. */
  function PhoneItems(rows: seq<Item>, bagId: string, keep: string): Phone {
    if rows == [] then map[]
    else
      var last, before := rows[|rows| - 1], PhoneItems(rows[..|rows| - 1], bagId, keep);
      if last.bagId == bagId then before[last.id := last.(bagId := keep)] else before
  }

  lemma OnlyBagRequested(req: SyncRequest, wanted: Option<string>)
    requires IsPreferredBag(req, wanted)
    ensures wanted.None? ==> |RequestedBagIds(req)| != 1
    ensures forall b | RequestedBagIds(req) == {b} :: wanted == Some(b)
  {
    forall b | RequestedBagIds(req) == {b}
      ensures wanted == Some(b)
    {
      assert |{b}| == 1 && b in RequestedBagIds(req);
    }
  }

  /** Of a request's rows for the bag, the last one for each id counts. */
  lemma {:induction false} LastItemCounts(rows: seq<Item>, bagId: string, keep: string, k: nat)
    requires k < |rows| && rows[k].bagId == bagId
    requires forall j | k < j < |rows| :: rows[j].bagId != bagId || rows[j].id != rows[k].id
    ensures rows[k].id in PhoneItems(rows, bagId, keep)
    ensures PhoneItems(rows, bagId, keep)[rows[k].id] == rows[k].(bagId := keep)
  {
    if k == |rows| - 1 {
    } else {
      LastItemCounts(rows[..|rows| - 1], bagId, keep, k);
    }
  }

  lemma {:induction false} OnlySentItemsCount(rows: seq<Item>, bagId: string, keep: string, id: string)
    requires id in PhoneItems(rows, bagId, keep)
    ensures exists k :: 0 <= k < |rows| && rows[k].bagId == bagId && rows[k].id == id
  {
    var front, last := rows[..|rows| - 1], rows[|rows| - 1];
    if last.bagId == bagId && last.id == id {
    } else {
      OnlySentItemsCount(front, bagId, keep, id);
      var k :| 0 <= k < |front| && front[k].bagId == bagId && front[k].id == id;
      assert rows[k] == front[k];
    }
  }

  /** Of a request's rows for a bag, the last one is merged, and the first one says what size and name the bag
      is wished to have. */
  lemma {:induction false} WhichBagRowCounts(rows: seq<Bag>, bagId: string, keep: string, k: nat)
    requires k < |rows| && rows[k].bagId == bagId
    ensures (forall j | k < j < |rows| :: rows[j].bagId != bagId) ==>
              PhoneBag(rows, bagId, keep) == Some(rows[k].(bagId := keep))
    ensures (forall j | 0 <= j < k :: rows[j].bagId != bagId) ==> FirstBag(rows, bagId) == Some(rows[k])
    decreases |rows|
  {
    LastBagRow(rows, bagId, keep, k);
    FirstBagRow(rows, bagId, k);
  }

  lemma {:induction false} LastBagRow(rows: seq<Bag>, bagId: string, keep: string, k: nat)
    requires k < |rows| && rows[k].bagId == bagId
    ensures (forall j | k < j < |rows| :: rows[j].bagId != bagId) ==>
              PhoneBag(rows, bagId, keep) == Some(rows[k].(bagId := keep))
  {
    if k == |rows| - 1 {
    } else {
      LastBagRow(rows[..|rows| - 1], bagId, keep, k);
    }
  }

  lemma {:induction false} FirstBagRow(rows: seq<Bag>, bagId: string, k: nat)
    requires k < |rows| && rows[k].bagId == bagId
    ensures (forall j | 0 <= j < k :: rows[j].bagId != bagId) ==> FirstBag(rows, bagId) == Some(rows[k])
  {
    if k == 0 {
    } else {
      FirstBagRow(rows[1..], bagId, k - 1);
    }
  }

  lemma {:induction false} PhoneItemsAreAtKeep(rows: seq<Item>, bagId: string, keep: string)
    ensures forall id | id in PhoneItems(rows, bagId, keep) ::
              PhoneItems(rows, bagId, keep)[id].id == id && PhoneItems(rows, bagId, keep)[id].bagId == keep
  {
    if rows == [] {
    } else {
      PhoneItemsAreAtKeep(rows[..|rows| - 1], bagId, keep);
    }
  }

  /** A phone's bag replaces the Pi's exactly when it changed since the last sync and is not older. */
  predicate TakesPhoneBag(server: BagRow, phone: Option<Bag>, lastSync: int) {
    phone.Some? && phone.value.updatedAt > lastSync && phone.value.updatedAt >= server.updatedAt
  }

  /** The Pi's bag is returned exactly when it changed since the last sync and the phone's is missing or older. */
  predicate ReturnsServerBag(server: BagRow, phone: Option<Bag>, lastSync: int) {
    server.updatedAt > lastSync && (phone.None? || phone.value.updatedAt < server.updatedAt)
  }

  /** The bag row after the merge, and the bag rows returned, from the row `start` the merge starts from. */
  function SyncedRow(start: BagRow, req: SyncRequest, keep: string): BagRow {
    var phone := PhoneBag(req.changedBags, keep, keep);
    if TakesPhoneBag(start, phone, req.lastSyncAt) then UpsertBag(Some(start), phone.value) else start
  }

  function ReturnedBags(start: BagRow, req: SyncRequest, keep: string): seq<Bag> {
    var phone := PhoneBag(req.changedBags, keep, keep);
    if ReturnsServerBag(start, phone, req.lastSyncAt) then [RowToBag(keep, start)] else []
  }

  /** Merging rows that all name one bag leaves a table that names only that bag. */
  lemma MergeKeepsOneBag(items: Items, phone: Phone, lastSync: int, bagId: string)
    requires forall id | id in items :: items[id].bagId == bagId
    requires forall id | id in phone :: phone[id].bagId == bagId
    ensures forall id | id in Merged(items, phone, lastSync) :: Merged(items, phone, lastSync)[id].bagId == bagId
  {
  }

  class Database {
    var bags: BagTable
    var items: Items
    var recordedBag: Option<string>
    var defaultBag: Option<string>
    var lastSyncTime: int
    var clock: int
    const author: string

    constructor (author: string, clock: int)
      ensures bags == map[] && items == map[] && recordedBag == None && defaultBag == None
      ensures this.author == author && this.clock == clock && lastSyncTime == 0
    {
      bags, items := map[], map[];
      recordedBag, defaultBag := None, None;
      lastSyncTime := 0;
      this.author, this.clock := author, clock;
    }

    /** Exactly one bag, recorded and default, holding every item. */
    ghost predicate OneBag(bagId: string)
      reads this
    {
      && bags.Keys == {bagId} && recordedBag == Some(bagId) && defaultBag == Some(bagId)
      && forall id | id in items :: items[id].bagId == bagId
    }

    /** Reads a clock that never runs backwards. */
    method NowMs() returns (now: int)
      modifies this`clock
      ensures now == clock >= old(clock)
    {
      var passed :| 0 <= passed;
      clock := clock + passed;
      now := clock;
    }

    method RankFirst() returns (best: string)
      requires bags != map[]
      ensures RanksFirst(bags, items, best)
    {
      best :| best in bags;
      RankTotal(RankIn(bags, items, best), RankIn(bags, items, best));
      var todo := bags.Keys - {best};
      while todo != {}
        invariant best in bags && todo <= bags.Keys && best !in todo
        invariant forall b | b in bags && b !in todo :: RankLeq(RankIn(bags, items, best), RankIn(bags, items, b))
      {
        var b :| b in todo;
        todo := todo - {b};
        RankTotal(RankIn(bags, items, best), RankIn(bags, items, b));
        if !RankLeq(RankIn(bags, items, best), RankIn(bags, items, b)) {
          forall seen | seen in bags && seen !in todo
            ensures RankLeq(RankIn(bags, items, b), RankIn(bags, items, seen))
          {
            if seen == b {
              RankTotal(RankIn(bags, items, b), RankIn(bags, items, b));
            } else {
              RankTransitive(RankIn(bags, items, b), RankIn(bags, items, best), RankIn(bags, items, seen));
            }
          }
          best := b;
        }
      }
    }

    method PreferredSingleBag(preferred: Option<string>) returns (found: Option<string>)
      ensures found.None? <==> bags == map[]
      ensures found.Some? ==> found.value in bags
                              && Survives(bags, items, preferred, recordedBag, defaultBag, found.value)
      ensures found.Some? && (forall p | p != "" && Some(p) in {preferred, recordedBag, defaultBag} :: p !in bags) ==>
                HoldsMostLive(bags, items, found.value)
    {
      if bags == map[] {
        return None;
      }
      if Hits(bags, preferred) {
        return preferred;
      }
      if Hits(bags, recordedBag) {
        return recordedBag;
      }
      if Hits(bags, defaultBag) {
        return defaultBag;
      }
      var best := RankFirst();
      SurvivorInPlainTerms(bags, items, preferred, recordedBag, defaultBag, best);
      return Some(best);
    }

    /** Points the items of the bags in `from` at `to`. */
    method Rehome(from: set<string>, to: string, now: int)
      modifies this`items
      ensures Rehomed(old(items), items, from, to, author, now, now)
    {
      items := map id | id in items ::
        if items[id].bagId in from then items[id].(bagId := to, updatedAt := now, updatedBy := author) else items[id];
    }

    method RenameBagId(current: string, target: string)
      modifies this`bags, this`items, this`clock
      ensures clock >= old(clock)
      ensures current == "" || target == "" || current == target || current !in old(bags)
              ==> bags == old(bags) && items == old(items)
      ensures current != "" && target != "" && current != target && current in old(bags) ==>
                && Rehomed(old(items), items, {current}, target, author, old(clock), clock)
                && (target in old(bags) ==> bags == old(bags) - {current})
                && (target !in old(bags) ==>
                      exists now | old(clock) <= now <= clock ::
                        bags == (old(bags) - {current})[
                          target := old(bags)[current].(updatedAt := now, updatedBy := author)])
    {
      if current == "" || target == "" || current == target {
        return;
      }
      if current !in bags {
        return;
      }
      var changedAt := NowMs();
      Rehome({current}, target, changedAt);
      if target in bags {
        bags := bags - {current};
        return;
      }
      bags := (bags - {current})[target := bags[current].(updatedAt := changedAt, updatedBy := author)];
    }

    /** Moves every other bag's items to `keep` and deletes those bags. */
    method CollapseExtras(keep: string)
      requires keep in bags
      modifies this`bags, this`items, this`clock
      ensures clock >= old(clock)
      ensures bags == map[keep := old(bags)[keep]]
      ensures Rehomed(old(items), items, old(bags).Keys - {keep}, keep, author, old(clock), clock)
      ensures old(bags).Keys == {keep} ==> items == old(items)
    {
      var extras := bags.Keys - {keep};
      if extras == {} {
        assert forall b | b in bags :: b == keep || b in extras;
        return;
      }
      var changedAt := NowMs();
      var todo := extras;
      while todo != {}
        invariant todo <= extras && bags == old(bags) && clock == changedAt
        invariant Rehomed(old(items), items, extras - todo, keep, author, changedAt, changedAt)
      {
        var b :| b in todo;
        ghost var before := items;
        Rehome({b}, keep, changedAt);
        RehomedTwice(old(items), before, items, extras - todo, {b}, keep, author, changedAt, changedAt, changedAt);
        assert extras - todo + {b} == extras - (todo - {b});
        todo := todo - {b};
      }
      assert extras - todo == extras;
      bags := bags - extras;
    }

    /** Brings the surviving bag's name, size, template and bookkeeping columns up to date. */
    method SettleBag(keep: string, wish: Wish)
      requires keep in bags
      modifies this`bags, this`clock
      ensures clock >= old(clock)
      ensures keep in bags && bags == old(bags)[keep := bags[keep]]
      ensures SettledFrom(old(bags)[keep], bags[keep], wish)
      ensures bags[keep].updatedAt >= old(bags)[keep].updatedAt
      ensures bags[keep] == old(bags)[keep] || bags[keep].updatedBy == author
      ensures !NeedsUpdate(old(bags)[keep], wish) ==> bags == old(bags)
      ensures NeedsUpdate(bags[keep], wish) <==> old(bags)[keep].readiness == Some("")
    {
      var row := bags[keep];
      if NeedsUpdate(row, wish) {
        var now := NowMs();
        SettlingOnceIsEnough(row, wish, now, author);
        bags := bags[keep := Updated(row, wish, now, author)];
      } else {
        assert bags == old(bags)[keep := bags[keep]];
      }
    }

    method CreateFirstBag(bagId: string, wish: Wish)
      requires bags == map[]
      modifies this`bags, this`clock
      ensures clock >= old(clock)
      ensures bags.Keys == {bagId}
      ensures FreshBag(bags[bagId], wish, author) && old(clock) <= bags[bagId].updatedAt <= clock
    {
      var now := NowMs();
      var size := if WishedSize(wish).Some? then WishedSize(wish).value else L46;
      var name := if WishedName(wish) != "" then WishedName(wish) else DefaultBagName(size);
      bags := map[bagId := UpsertBag(None, Bag(bagId, name, Liters(size), Standard(size), now, author))];
    }

    /** Finds or creates the surviving bag, and gives it the caller's id if the caller has one.
        `survivor` is the id it had before, or none if it is new. */
    method ChooseBag(preferred: Option<string>, wish: Wish, newBagId: string)
      returns (keep: string, ghost survivor: Option<string>)
      requires "" !in bags && newBagId != ""
      modifies this`bags, this`items, this`clock
      ensures clock >= old(clock)
      ensures keep in bags && keep != ""
      ensures preferred.Some? && preferred.value != "" ==> keep == preferred.value
      ensures survivor.Some? && (preferred.None? || preferred.value == "") ==> keep == survivor.value
      ensures survivor.None? <==> old(bags) == map[]
      ensures survivor.None? ==> bags.Keys == {keep} && items == old(items) && FreshBag(bags[keep], wish, author)
      ensures survivor.Some? ==>
                && survivor.value in old(bags)
                && Survives(old(bags), old(items), preferred, recordedBag, defaultBag, survivor.value)
                && bags.Keys == old(bags).Keys - {survivor.value} + {keep}
                && bags[keep] == old(bags)[survivor.value].(updatedAt := bags[keep].updatedAt,
                                                            updatedBy := bags[keep].updatedBy)
                && Rehomed(old(items), items, {survivor.value} - {keep}, keep, author, old(clock), clock)
      ensures survivor == Some(keep) ==> bags == old(bags) && items == old(items)
    {
      var found := PreferredSingleBag(preferred);
      survivor := found;
      if found.None? {
        keep := if preferred.Some? && preferred.value != "" then preferred.value else newBagId;
        CreateFirstBag(keep, wish);
        return;
      }
      keep := found.value;
      if preferred.Some? && preferred.value != "" && keep != preferred.value {
        assert preferred.value !in bags;
        RenameBagId(keep, preferred.value);
        keep := preferred.value;
        assert {survivor.value} - {keep} == {survivor.value};
      }
    }

    /** Leaves only the surviving bag, holding the items of all bags; its row is not settled yet. */
    method CollapseBags(preferred: Option<string>, wish: Wish, newBagId: string)
      returns (keep: string, ghost survivor: Option<string>)
      requires "" !in bags && newBagId != ""
      modifies this`bags, this`items, this`clock
      ensures clock >= old(clock)
      ensures bags.Keys == {keep} && keep != ""
      ensures preferred.Some? && preferred.value != "" ==> keep == preferred.value
      ensures survivor.Some? && (preferred.None? || preferred.value == "") ==> keep == survivor.value
      ensures survivor.None? <==> old(bags) == map[]
      ensures survivor.None? ==> items == old(items) && FreshBag(bags[keep], wish, author)
      ensures survivor.Some? ==>
                && survivor.value in old(bags)
                && Survives(old(bags), old(items), preferred, recordedBag, defaultBag, survivor.value)
                && bags[keep] == old(bags)[survivor.value].(updatedAt := bags[keep].updatedAt,
                                                            updatedBy := bags[keep].updatedBy)
      ensures Rehomed(old(items), items, old(bags).Keys - {keep}, keep, author, old(clock), clock)
      ensures old(bags).Keys == {keep} ==> bags == old(bags) && items == old(items)
    {
      keep, survivor := ChooseBag(preferred, wish, newBagId);
      ghost var mid, midClock, midBags := items, clock, bags;
      CollapseExtras(keep);
      ghost var renamed := if survivor.Some? then {survivor.value} - {keep} else {};
      RehomedTwice(old(items), mid, items, renamed, midBags.Keys - {keep}, keep, author, old(clock), midClock, clock);
      assert survivor.Some? ==> renamed + (midBags.Keys - {keep}) == old(bags).Keys - {keep};
    }

    /** Leaves exactly one bag and reports its id; `survivor` is the id it had before, if any. */
    method EnsureSingleBag(preferred: Option<string>, wish: Wish, newBagId: string)
      returns (keep: string, ghost survivor: Option<string>)
      requires "" !in bags && newBagId != ""
      modifies this`bags, this`items, this`clock, this`recordedBag, this`defaultBag
      ensures clock >= old(clock)
      ensures bags.Keys == {keep} && recordedBag == Some(keep) && defaultBag == Some(keep) && keep != ""
      ensures preferred.Some? && preferred.value != "" ==> keep == preferred.value
      ensures survivor.Some? && (preferred.None? || preferred.value == "") ==> keep == survivor.value
      ensures Rehomed(old(items), items, old(bags).Keys - {keep}, keep, author, old(clock), clock)
      ensures survivor.None? <==> old(bags) == map[]
      ensures survivor.None? ==> FreshBag(bags[keep], wish, author)
      ensures survivor.Some? ==>
                && survivor.value in old(bags)
                && Survives(old(bags), old(items), preferred, old(recordedBag), old(defaultBag), survivor.value)
                && SettledFrom(old(bags)[survivor.value], bags[keep], wish)
                && (KeepsName(old(bags)[survivor.value], wish) ==>
                      bags[keep].name == Strip(old(bags)[survivor.value].name))
      ensures NeedsUpdate(bags[keep], wish)
              <==> survivor.Some? && old(bags)[survivor.value].readiness == Some("")
      ensures old(bags).Keys == {keep} && !NeedsUpdate(old(bags)[keep], wish) ==>
                bags == old(bags) && items == old(items)
    {
      hide Survives, SettledFrom, NeedsUpdate, FreshBag, Rehomed, TargetName, KeepsName;
      keep, survivor := CollapseBags(preferred, wish, newBagId);
      if survivor.None? {
        FreshBagIsSettled(bags[keep], wish, author);
      }
      ghost var collapsed, collapsedAt := bags[keep], clock;
      SettleBag(keep, wish);
      RehomedLater(old(items), items, old(bags).Keys - {keep}, keep, author, old(clock), collapsedAt, clock);
      if survivor.Some? {
        NameSurvives(old(bags)[survivor.value], wish);
        RestampDoesNotMatter(old(bags)[survivor.value], collapsed.updatedAt, collapsed.updatedBy, bags[keep], wish);
        SettledName(old(bags)[survivor.value], bags[keep], wish);
      }
      recordedBag, defaultBag := Some(keep), Some(keep);
    }

    // Sync.

    method PreferredBag(req: SyncRequest) returns (preferred: Option<string>)
      ensures IsPreferredBag(req, preferred)
      ensures preferred.Some? ==> preferred.value != ""
    {
      var ids := RequestedBagIds(req);
      if |ids| != 1 {
        return None;
      }
      var b :| b in ids;
      assert |ids - {b}| == 0;
      assert ids == {b};
      return Some(b);
    }

    method CollectPhoneItems(rows: seq<Item>, bagId: string, keep: string) returns (phone: Phone)
      ensures phone == PhoneItems(rows, bagId, keep)
    {
      phone := map[];
      for i := 0 to |rows|
        invariant phone == PhoneItems(rows[..i], bagId, keep)
      {
        assert rows[..i + 1][..i] == rows[..i];
        if rows[i].bagId == bagId {
          phone := phone[rows[i].id := rows[i].(bagId := keep)];
        }
      }
      assert rows[..|rows|] == rows;
    }

    method CollectPhoneBag(rows: seq<Bag>, bagId: string, keep: string) returns (phone: Option<Bag>)
      ensures phone == PhoneBag(rows, bagId, keep)
    {
      phone := None;
      for i := 0 to |rows|
        invariant phone == PhoneBag(rows[..i], bagId, keep)
      {
        assert rows[..i + 1][..i] == rows[..i];
        if rows[i].bagId == bagId {
          phone := Some(rows[i].(bagId := keep));
        }
      }
      assert rows[..|rows|] == rows;
    }

    /** One visit of the bag loop. With one bag left, an id the phone sent is always known to the Pi. */
    method SyncBag(server: BagTable, bagId: string, phone: Option<Bag>, lastSync: int, changes: seq<Bag>)
      returns (changes': seq<Bag>)
      requires bagId in server && Find(bags, bagId) == Find(server, bagId)
      modifies this`bags
      ensures bags == if TakesPhoneBag(server[bagId], phone, lastSync)
                      then old(bags)[bagId := UpsertBag(Some(server[bagId]), phone.value)] else old(bags)
      ensures changes' == changes + if ReturnsServerBag(server[bagId], phone, lastSync)
                                    then [RowToBag(bagId, server[bagId])] else []
    {
      changes' := changes;
      var p, s := phone, Find(server, bagId);
      if p.Some? && s.None? {
        assert false;
      } else if s.Some? && p.None? && s.value.updatedAt > lastSync {
        changes' := changes' + [RowToBag(bagId, s.value)];
      } else if p.Some? && s.Some? {
        var phoneChanged, serverChanged := p.value.updatedAt > lastSync, s.value.updatedAt > lastSync;
        if phoneChanged && !serverChanged {
          bags := bags[bagId := UpsertBag(Find(bags, bagId), p.value)];
        } else if serverChanged && !phoneChanged {
          changes' := changes' + [RowToBag(bagId, s.value)];
        } else if phoneChanged && serverChanged && p.value.updatedAt < s.value.updatedAt {
          changes' := changes' + [RowToBag(bagId, s.value)];
        } else if phoneChanged && serverChanged && p.value.updatedAt >= s.value.updatedAt {
          bags := bags[bagId := UpsertBag(Find(bags, bagId), p.value)];
        }
      }
    }

    method MergeBags(keep: string, phone: Option<Bag>, lastSync: int) returns (changes: seq<Bag>)
      requires bags.Keys == {keep}
      modifies this`bags
      ensures bags == old(bags)[keep := if TakesPhoneBag(old(bags)[keep], phone, lastSync)
                                        then UpsertBag(Some(old(bags)[keep]), phone.value) else old(bags)[keep]]
      ensures changes == if ReturnsServerBag(old(bags)[keep], phone, lastSync)
                         then [RowToBag(keep, old(bags)[keep])] else []
    {
      var server := bags;
      changes := [];
      var visited := (if phone.Some? then {keep} else {}) + set b | b in bags && bags[b].updatedAt > lastSync;
      assert keep !in visited ==> visited == {};
      var todo := visited;
      while todo != {}
        invariant todo == visited || todo == {}
        invariant todo == visited ==> bags == server && changes == []
        invariant todo != visited ==>
                    && bags == server[keep := if TakesPhoneBag(server[keep], phone, lastSync)
                                              then UpsertBag(Some(server[keep]), phone.value) else server[keep]]
                    && changes == if ReturnsServerBag(server[keep], phone, lastSync)
                                  then [RowToBag(keep, server[keep])] else []
      {
        var bagId :| bagId in todo;
        changes := SyncBag(server, bagId, if bagId == keep then phone else None, lastSync, changes);
        todo := todo - {bagId};
      }
    }

    /** One visit of the item loop: `server` is the snapshot taken before the loop. */
    method SyncItem(server: Items, phone: Phone, lastSync: int, id: string, r: MergeReply)
      returns (r': MergeReply)
      requires Find(items, id) == Find(server, id)
      requires var v := VerdictFor(server, phone, lastSync, id);
               (v.TakePhone? ==> id in phone) && (v.SendServer? || v.Conflict? ==> id in server)
      modifies this`items
      ensures var v := VerdictFor(server, phone, lastSync, id);
              && r' == Recorded(r, server, id, v)
              && items == if v.TakePhone? then old(items)[id := UpsertItem(Find(server, id), phone[id])] else old(items)
    {
      r' := r;
      var p, s := Find(phone, id), ServerItem(server, id);
      if p.Some? && s.None? {
        items := items[id := UpsertItem(Find(items, id), p.value)];
        return;
      }
      if s.Some? && p.None? {
        if s.value.updatedAt > lastSync {
          r' := r'.(changes := r'.changes + [s.value]);
        }
        return;
      }
      if p.None? || s.None? {
        return;
      }
      var phoneChanged, serverChanged := p.value.updatedAt > lastSync, s.value.updatedAt > lastSync;
      if phoneChanged && !serverChanged {
        items := items[id := UpsertItem(Find(items, id), p.value)];
        return;
      }
      if serverChanged && !phoneChanged {
        r' := r'.(changes := r'.changes + [s.value]);
        return;
      }
      if !phoneChanged && !serverChanged {
        return;
      }
      var diff := DiffItem(s.value, p.value);
      if diff.isIdentical {
        if p.value.updatedAt > s.value.updatedAt {
          items := items[id := UpsertItem(Find(items, id), p.value)];
        }
        return;
      }
      if diff.onlyPackedStatusDiff {
        if p.value.updatedAt > s.value.updatedAt {
          items := items[id := UpsertItem(Find(items, id), p.value)];
        } else {
          r' := r'.(changes := r'.changes + [s.value]);
        }
        r' := r'.(autoResolved := r'.autoResolved + [id]);
        return;
      }
      var reason := if diff.deleteVsEdit then DeleteVsEdit else BothModified;
      r' := r'.(conflicts := r'.conflicts + [ConflictItem(id, s.value, reason)]);
    }

    /** The item loop, visiting its ids in any order. The table and the reply do not depend on it. */
    method MergeItems(phone: Phone, lastSync: int) returns (r: MergeReply)
      modifies this`items
      ensures items == Merged(old(items), phone, lastSync)
      ensures ReplyMatches(r, old(items), phone, lastSync, Visited(old(items), phone, lastSync))
      ensures ReplyMatches(r, old(items), phone, lastSync, old(items).Keys + phone.Keys)
      ensures items == MergedOver(old(items), phone, lastSync, old(items).Keys + phone.Keys)
      ensures ReasonsRight(r.conflicts, old(items), phone)
      ensures LocalColumnsKept(old(items), items)
    {
      var server := items;
      var visited := phone.Keys + set id | id in items && items[id].updatedAt > lastSync;
      var todo := visited;
      r := MergeReply([], [], []);
      while todo != {}
        invariant todo <= visited
        invariant items == MergedOver(server, phone, lastSync, visited - todo)
        invariant ReplyMatches(r, server, phone, lastSync, visited - todo)
      {
        var id :| id in todo;
        MergedOverOneMore(server, phone, lastSync, visited - todo, id);
        RecordedMatches(r, server, phone, lastSync, visited - todo, id);
        r := SyncItem(server, phone, lastSync, id, r);
        assert visited - todo + {id} == visited - (todo - {id});
        todo := todo - {id};
      }
      assert visited - todo == visited;
      VisitedIsEnough(server, phone, lastSync, r);
      ConflictReasonExactly(r, server, phone, lastSync, visited);
      MergeKeepsLocalColumns(server, phone, lastSync);
    }

    /** Recomputes every bag's readiness label; which label is not modelled. */
    method UpdateBagReadiness()
      modifies this`bags, this`clock
      ensures clock >= old(clock)
      ensures bags.Keys == old(bags).Keys
      ensures forall b | b in bags ::
                && bags[b] == old(bags)[b].(readiness := bags[b].readiness, lastChecked := bags[b].lastChecked)
                && bags[b].readiness.Some? && bags[b].readiness.value != ""
                && bags[b].lastChecked == Some(clock)
    {
      var now := NowMs();
      var status :| status in {"incomplete", "attention_needed", "ready"};
      bags := map b | b in bags :: bags[b].(readiness := Some(status), lastChecked := Some(now));
    }

    /** Collapses to the bag the request is about, if it names exactly one, and settles it on the name and
        size the request has for it. */
    method AlignBag(req: SyncRequest, newBagId: string) returns (keep: string)
      requires "" !in bags && newBagId != ""
      modifies this`bags, this`items, this`clock, this`recordedBag, this`defaultBag
      ensures clock >= old(clock)
      ensures bags.Keys == {keep} && recordedBag == Some(keep) && defaultBag == Some(keep) && keep != ""
      ensures forall b | RequestedBagIds(req) == {b} :: keep == b
      ensures |RequestedBagIds(req)| != 1 && old(bags) != map[] ==> keep in old(bags)
      ensures AlignedToRequest(old(bags), old(items), old(recordedBag), old(defaultBag), req, author, bags[keep])
      ensures Rehomed(old(items), items, old(bags).Keys - {keep}, keep, author, old(clock), clock)
    {
      hide Survives, SettledFrom, NeedsUpdate, FreshBag, WishIn;
      var wanted := PreferredBag(req);
      OnlyBagRequested(req, wanted);
      ghost var survivor;
      keep, survivor := EnsureSingleBag(wanted, WishIn(req, wanted), newBagId);
      assert AlignedFrom(old(bags), old(items), old(recordedBag), old(defaultBag), wanted, WishIn(req, wanted), author,
                         bags[keep]);
    }

    /** Merges the phone's rows into the two tables; the item merge starts from the current table. */
    method ExchangeRows(req: SyncRequest, keep: string) returns (bagChanges: seq<Bag>, itemReply: MergeReply)
      requires bags.Keys == {keep}
      modifies this`bags, this`items
      ensures bags == map[keep := SyncedRow(old(bags)[keep], req, keep)]
      ensures bagChanges == ReturnedBags(old(bags)[keep], req, keep)
      ensures LocalColumnsKept(old(items), items)
      ensures items == Merged(old(items), PhoneItems(req.changedItems, keep, keep), req.lastSyncAt)
      ensures ReplyMatches(itemReply, old(items), PhoneItems(req.changedItems, keep, keep), req.lastSyncAt,
                           Visited(old(items), PhoneItems(req.changedItems, keep, keep), req.lastSyncAt))
      ensures ReasonsRight(itemReply.conflicts, old(items), PhoneItems(req.changedItems, keep, keep))
    {
      hide ReplyMatches, MergedOver, UpsertBag, ReasonsRight;
      var phoneBag := CollectPhoneBag(req.changedBags, keep, keep);
      var phone := CollectPhoneItems(req.changedItems, keep, keep);
      bagChanges := MergeBags(keep, phoneBag, req.lastSyncAt);
      itemReply := MergeItems(phone, req.lastSyncAt);
    }

    /** A whole sync. `start` and `startBag` are the item table and the bag the merge starts from, after the
        bags were collapsed. */
    method RunSync(req: SyncRequest, newBagId: string)
      returns (reply: SyncReply, keep: string, ghost start: Items, ghost startBag: BagRow)
      requires "" !in bags && newBagId != ""
      modifies this
      ensures clock >= reply.serverTime == lastSyncTime >= old(clock)
      ensures bags.Keys == {keep} && recordedBag == Some(keep) && defaultBag == Some(keep) && keep != ""
      ensures forall b | RequestedBagIds(req) == {b} :: keep == b
      ensures |RequestedBagIds(req)| != 1 && old(bags) != map[] ==> keep in old(bags)
      ensures AlignedToRequest(old(bags), old(items), old(recordedBag), old(defaultBag), req, author, startBag)
      ensures reply.bagChanges == ReturnedBags(startBag, req, keep)
      ensures LocalColumnsKept(old(items), items)
      ensures bags[keep] == SyncedRow(startBag, req, keep).(readiness := bags[keep].readiness,
                                                            lastChecked := Some(clock))
      ensures Rehomed(old(items), start, old(bags).Keys - {keep}, keep, author, old(clock), clock)
      ensures items == Merged(start, PhoneItems(req.changedItems, keep, keep), req.lastSyncAt)
      ensures ReplyMatches(reply.itemReply, start, PhoneItems(req.changedItems, keep, keep), req.lastSyncAt,
                           Visited(start, PhoneItems(req.changedItems, keep, keep), req.lastSyncAt))
      ensures ReasonsRight(reply.itemReply.conflicts, start, PhoneItems(req.changedItems, keep, keep))
      ensures (forall id | id in old(items) :: old(items)[id].bagId in old(bags)) ==> OneBag(keep)
    {
      hide Rehomed, ReplyMatches, Merged, AlignedToRequest, SyncedRow, ReturnedBags, RequestedBagIds, LocalColumnsKept;
      hide ReasonsRight;
      keep := AlignBag(req, newBagId);
      start, startBag := items, bags[keep];
      ghost var aligned := clock;
      HomeAfterSync(old(bags), old(items), start, PhoneItems(req.changedItems, keep, keep), req, keep, old(clock),
                    clock);
      var bagChanges, itemReply := ExchangeRows(req, keep);
      ColumnsKeptThrough(old(items), start, items, old(bags).Keys - {keep}, keep, author, old(clock), aligned);
      var serverTime := NowMs();
      lastSyncTime := serverTime;
      UpdateBagReadiness();
      RehomedLater(old(items), start, old(bags).Keys - {keep}, keep, author, old(clock), aligned, clock);
      reply := SyncReply(serverTime, bagChanges, itemReply);
    }

    lemma HomeAfterSync(oldBags: BagTable, before: Items, start: Items, phone: Phone, req: SyncRequest, keep: string,
                        lo: int, hi: int)
      requires Rehomed(before, start, oldBags.Keys - {keep}, keep, author, lo, hi)
      requires phone == PhoneItems(req.changedItems, keep, keep)
      ensures (forall id | id in before :: before[id].bagId in oldBags) ==>
                forall id | id in Merged(start, phone, req.lastSyncAt) ::
                  Merged(start, phone, req.lastSyncAt)[id].bagId == keep
    {
      if forall id | id in before :: before[id].bagId in oldBags {
        CollapseHomesEveryItemExactly(oldBags, before, start, keep, author, lo, hi);
        PhoneItemsAreAtKeep(req.changedItems, keep, keep);
        MergeKeepsOneBag(start, phone, req.lastSyncAt, keep);
      }
    }

    // Item requests.

    method FindExactMatch(bagId: string, key: IdentityKey, expiry: Option<int>, excluded: Option<string>)
      returns (found: Option<string>)
      ensures IsExactMatch(items, bagId, key, expiry, excluded, found)
    {
      found := None;
      var todo := items.Keys;
      while todo != {}
        invariant todo <= items.Keys
        invariant found.Some? ==> IsMatch(items, found.value, bagId, key, expiry, excluded) && found.value !in todo
        invariant forall id | id !in todo && IsMatch(items, id, bagId, key, expiry, excluded) ::
                    found.Some? && items[id].updatedAt <= items[found.value].updatedAt
      {
        var id :| id in todo;
        todo := todo - {id};
        if IsMatch(items, id, bagId, key, expiry, excluded) {
          if found.None? || items[found.value].updatedAt < items[id].updatedAt {
            found := Some(id);
          }
        }
      }
    }

    /** Creates an item, or edits `itemId`; either way the quantity lands on the matching batch if there is one. */
    method MergeOrWriteItem(bagId: string, payload: Payload, itemId: Option<string>, newId: string)
      returns (r: Result, ghost w: Write)
      requires itemId.None? ==> newId !in items
      modifies this`bags, this`items, this`clock
      ensures r == (if bagId !in old(bags) then Err(BagNotFound)
                    else if payload.category.None? then Err(CategoryNotFound)
                    else if payload.expiry.Malformed? then Err(BadExpiry) else Ok(TargetId(w)))
      ensures r.Err? ==> bags == old(bags) && items == old(items)
      ensures r.Ok? ==>
                && w.bagId == bagId && w.payload == payload && w.itemId == itemId && w.newId == newId
                && old(clock) <= w.now <= w.later <= clock
                && CanWrite(old(items), w) && items == AfterWrite(old(items), w)
      ensures r.Ok? && itemId.Some? && itemId.value in old(items) && r.id != itemId.value ==>
                itemId.value in items
                && items[itemId.value] == old(items)[itemId.value].(deleted := true, updatedAt := w.later,
                                                                    updatedBy := author)
      ensures bags.Keys == old(bags).Keys && clock >= old(clock)
    {
      hide WrittenRow, Combined, KeyOf, NormalizedIdentityKey;
      w := Write(bagId, payload, Other, itemId, None, newId, 0, 0, author);
      if bagId !in bags {
        return Err(BagNotFound), w;
      }
      if payload.category.None? {
        return Err(CategoryNotFound), w;
      }
      if payload.expiry.Malformed? {
        return Err(BadExpiry), w;
      }
      var category := payload.category.value;
      var found := FindExactMatch(bagId, PayloadKey(payload, category), ExpiryOf(payload.expiry), itemId);
      var target, written := newId, payload;
      if itemId.Some? {
        target := itemId.value;
      }
      if found.Some? {
        target := found.value;
        written := Combined(payload, items[found.value]);
      }
      var now := NowMs();
      w := Write(bagId, payload, category, itemId, found, newId, now, now, author);
      items := items[target := WrittenRow(Find(items, target), bagId, written, category, now, author)];
      UpdateBagReadiness();
      if itemId.Some? && found.Some? && itemId != found {
        var later := NowMs();
        w := w.(later := later);
        if itemId.value in items {
          items := items[itemId.value := Retired(items[itemId.value], later, author)];
        }
      } else {
        w := w.(later := clock);
      }
      r := Ok(target);
    }

    method CreateItem(bagId: string, payload: Payload, newId: string) returns (r: Result, ghost w: Write)
      requires newId !in items
      modifies this`bags, this`items, this`clock
      ensures r.Ok? <==> Strip(payload.name) != "" && Strip(payload.unit) != "" && bagId in old(bags)
                         && payload.category.Some? && !payload.expiry.Malformed?
      ensures r.Err? ==> bags == old(bags) && items == old(items)
      ensures r.Ok? ==> w.itemId == None && w.payload == payload && w.bagId == bagId
                        && CanWrite(old(items), w) && items == AfterWrite(old(items), w)
                        && old(clock) <= w.now <= w.later <= clock
      ensures bags.Keys == old(bags).Keys && clock >= old(clock)
    {
      w := Write(bagId, payload, Other, None, None, newId, 0, 0, author);
      if Strip(payload.name) == "" {
        return Err(NameRequired), w;
      }
      if Strip(payload.unit) == "" {
        return Err(UnitRequired), w;
      }
      r, w := MergeOrWriteItem(bagId, payload, None, newId);
    }

    method UpdateItem(itemId: string, payload: Payload) returns (r: Result, ghost w: Write)
      modifies this`bags, this`items, this`clock
      ensures r.Ok? <==> Strip(payload.name) != "" && Strip(payload.unit) != "" && itemId in old(items)
                         && old(items)[itemId].bagId in old(bags)
                         && payload.category.Some? && !payload.expiry.Malformed?
      ensures r.Err? ==> bags == old(bags) && items == old(items)
      ensures r.Ok? ==> w.itemId == Some(itemId) && w.payload == payload && w.bagId == old(items)[itemId].bagId
                        && CanWrite(old(items), w) && items == AfterWrite(old(items), w)
                        && old(clock) <= w.now <= w.later <= clock
      ensures bags.Keys == old(bags).Keys && clock >= old(clock)
    {
      w := Write("", payload, Other, Some(itemId), None, "", 0, 0, author);
      if Strip(payload.name) == "" {
        return Err(NameRequired), w;
      }
      if Strip(payload.unit) == "" {
        return Err(UnitRequired), w;
      }
      if itemId !in items {
        return Err(ItemNotFound), w;
      }
      r, w := MergeOrWriteItem(items[itemId].bagId, payload, Some(itemId), "");
    }

    method DeleteItem(itemId: string) returns (r: Result, ghost now: int)
      modifies this`bags, this`items, this`clock
      ensures r == if itemId in old(items) then Ok(itemId) else Err(ItemNotFound)
      ensures r.Err? ==> bags == old(bags) && items == old(items)
      ensures r.Ok? ==> items == old(items)[itemId := old(items)[itemId].(deleted := true, updatedAt := now,
                                                                          updatedBy := author)]
                        && old(clock) <= now <= clock
      ensures bags.Keys == old(bags).Keys && clock >= old(clock)
    {
      now := clock;
      if itemId !in items {
        return Err(ItemNotFound), now;
      }
      var t := NowMs();
      now := t;
      items := items[itemId := Retired(items[itemId], t, author)];
      UpdateBagReadiness();
      r := Ok(itemId);
    }

    /** Renames or resizes the surviving bag `keep`; a failed request leaves everything as it was. `bagId` is
        given when the request names a bag, and `size` is `None` when it asks for an unsupported size. */
    method UpdateBag(bagId: Option<string>, name: string, size: Option<BagSize>, lastChecked: Option<int>,
                     newBagId: string)
      returns (r: Result, ghost keep: string)
      requires "" !in bags && newBagId != ""
      modifies this`bags, this`items, this`clock, this`recordedBag, this`defaultBag
      ensures clock >= old(clock)
      ensures r == if Strip(name) == "" then Err(NameRequired)
                   else if bagId.Some? && bagId.value != keep then Err(BagNotFound)
                   else if size.None? then Err(BadBagSize) else Ok(keep)
      ensures Strip(name) != "" && old(bags) != map[] ==>
                keep in old(bags) && Survives(old(bags), old(items), None, old(recordedBag), old(defaultBag), keep)
      ensures r.Err? ==> bags == old(bags) && items == old(items)
      ensures r.Err? ==> recordedBag == old(recordedBag) && defaultBag == old(defaultBag)
      ensures r.Ok? ==> bags.Keys == {keep} && recordedBag == Some(keep) && defaultBag == Some(keep) && keep != ""
                        && bags[keep].name == Strip(name) && bags[keep].sizeLiters == Liters(size.value)
                        && bags[keep].template == Standard(size.value) && bags[keep].bagType == Some(TypeOf(size.value))
                        && bags[keep].lastChecked == Some(clock) && old(clock) <= bags[keep].updatedAt <= clock
                        && Rehomed(old(items), items, old(bags).Keys - {keep}, keep, author, old(clock), clock)
    {
      hide Survives, SettledFrom, NeedsUpdate, FreshBag;
      if Strip(name) == "" {
        return Err(NameRequired), "";
      }
      var savedBags, savedItems, savedRecorded, savedDefault := bags, items, recordedBag, defaultBag;
      ghost var survivor;
      var kept;
      kept, survivor := EnsureSingleBag(None, Wish(None, None), newBagId);
      keep := kept;
      if (bagId.Some? && bagId.value != kept) || size.None? {
        bags, items, recordedBag, defaultBag := savedBags, savedItems, savedRecorded, savedDefault;
        return Err(if bagId.Some? && bagId.value != kept then BagNotFound else BadBagSize), kept;
      }
      ghost var collapsedAt := clock;
      var now := NowMs();
      bags := bags[kept := bags[kept].(name := Strip(name), sizeLiters := Liters(size.value),
                                       template := Standard(size.value), updatedAt := now, updatedBy := author,
                                       bagType := Some(TypeOf(size.value)), lastChecked := lastChecked)];
      UpdateBagReadiness();
      RehomedLater(old(items), items, old(bags).Keys - {kept}, kept, author, old(clock), collapsedAt, clock);
      r := Ok(kept);
    }

    /** Startup: migrates stored bags, creates one if there is none, and collapses to one. */
    method InitDb(newBagId: string) returns (keep: string)
      requires "" !in bags && newBagId != ""
      modifies this`bags, this`items, this`clock, this`recordedBag, this`defaultBag
      ensures bags.Keys == {keep} && recordedBag == Some(keep) && defaultBag == Some(keep) && keep != ""
      ensures items.Keys == old(items).Keys
      ensures StartedFrom(old(bags), old(items), old(recordedBag), old(defaultBag), author, bags[keep])
      ensures (forall id | id in old(items) :: old(items)[id].bagId in old(bags)) ==> OneBag(keep)
    {
      hide Survives, SettledFrom, NeedsUpdate, Migrated, FreshBag, KeepsName;
      bags := map b | b in bags :: Migrated(bags[b]);
      assert bags.Keys == old(bags).Keys;
      if bags == map[] {
        CreateFirstBag(newBagId, Wish(None, None));
        FreshBagIsSettled(bags[newBagId], Wish(None, None), author);
      }
      ghost var known, clock0 := bags, clock;
      ghost var survivor;
      keep, survivor := EnsureSingleBag(None, Wish(None, None), newBagId);
      CollapseHomesEveryItemExactly(known, old(items), items, keep, author, clock0, clock);
      ghost var settled := bags[keep];
      UpdateBagReadiness();
      assert bags[keep] == settled.(readiness := bags[keep].readiness, lastChecked := bags[keep].lastChecked);
    }
  }

  /** Every item ends up in the surviving bag exactly when no item belonged to a missing bag. */
  lemma CollapseHomesEveryItemExactly(bags: BagTable, before: Items, after: Items, keep: string, author: string,
                                      lo: int, hi: int)
    requires Rehomed(before, after, bags.Keys - {keep}, keep, author, lo, hi)
    ensures (forall id | id in after :: after[id].bagId == keep)
            <==> (forall id | id in before :: before[id].bagId in bags || before[id].bagId == keep)
  {
    assert before.Keys == after.Keys;
    if forall id | id in after :: after[id].bagId == keep {
      forall id | id in before
        ensures before[id].bagId in bags || before[id].bagId == keep
      {
        assert after[id].bagId == keep;
      }
    }
  }

  /** Collapsing twice with the same arguments changes no bag and no item the second time, provided
      no readiness is stored as empty text. */
  method EnsureTwice(db: Database, preferred: Option<string>, wish: Wish, newBagId: string, otherBagId: string)
    returns (ghost bagsOnce: BagTable, ghost itemsOnce: Items)
    requires "" !in db.bags && newBagId != "" && otherBagId != ""
    requires forall b | b in db.bags :: db.bags[b].readiness != Some("")
    modifies db
    ensures db.bags == bagsOnce && db.items == itemsOnce
    ensures |bagsOnce| == 1 && itemsOnce.Keys == old(db.items).Keys
  {
    var keep, survivor := db.EnsureSingleBag(preferred, wish, newBagId);
    bagsOnce, itemsOnce := db.bags, db.items;
    assert |db.bags.Keys| == 1;
    var again, _ := db.EnsureSingleBag(preferred, wish, otherBagId);
  }

  lemma WriteKeepsOneBag(items: Items, w: Write)
    requires forall id | id in items :: items[id].bagId == w.bagId
    ensures forall id | id in AfterWrite(items, w) :: AfterWrite(items, w)[id].bagId == w.bagId
  {
  }

  datatype Request =
    | SyncRows(req: SyncRequest)
    | PostItem(bagId: string, payload: Payload)
    | PutItem(itemId: string, payload: Payload)
    | DropItem(itemId: string)
    | PutBag(wanted: Option<string>, name: string, size: Option<BagSize>, lastChecked: Option<int>)

  /** Serves one request after the other. After startup every committed state has exactly one bag,
      recorded and default, and every item belongs to it. `freshId` stands for the id generator. */
  method Serve(db: Database, requests: seq<Request>, newBagId: string, freshId: Items -> string) returns (keep: string)
    requires "" !in db.bags && newBagId != ""
    requires forall id | id in db.items :: db.items[id].bagId in db.bags
    requires forall items :: freshId(items) !in items
    modifies db
    ensures db.OneBag(keep)
  {
    keep := db.InitDb(newBagId);
    for k := 0 to |requests|
      invariant db.OneBag(keep) && keep != ""
    {
      keep := ServeOne(db, requests[k], keep, newBagId, freshId);
    }
  }

  method ServeOne(db: Database, request: Request, keep: string, newBagId: string, freshId: Items -> string)
    returns (kept: string)
    requires db.OneBag(keep) && keep != "" && newBagId != ""
    requires forall items :: freshId(items) !in items
    modifies db
    ensures db.OneBag(kept) && kept != ""
  {
    hide MergedOver, ReplyMatches, IsPreferredBag, WrittenRow, Combined;
    kept := keep;
    match request {
      case SyncRows(req) =>
        ghost var start, startBag;
        var reply;
        reply, kept, start, startBag := db.RunSync(req, newBagId);
      case PostItem(bagId, payload) =>
        ghost var before := db.items;
        var r, w := db.CreateItem(bagId, payload, freshId(db.items));
        if r.Ok? {
          WriteKeepsOneBag(before, w);
        }
      case PutItem(itemId, payload) =>
        ghost var before := db.items;
        var r, w := db.UpdateItem(itemId, payload);
        if r.Ok? {
          WriteKeepsOneBag(before, w);
        }
      case DropItem(itemId) =>
        var r, now := db.DeleteItem(itemId);
      case PutBag(wanted, name, size, lastChecked) =>
        ghost var survivor;
        var r;
        r, survivor := db.UpdateBag(wanted, name, size, lastChecked, newBagId);
        if r.Ok? {
          kept := r.id;
        }
    }
  }
}
