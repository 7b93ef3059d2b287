/** Grouping live rows by identity for the inventory view. */
module Groups {
  import opened Text
  import opened WordRules
  import opened Inventory
  import opened SyncMerge
  import opened Batches

  datatype Entry = Entry(id: string, row: Row)

  datatype Group = Group(
    bagId: string, name: string, category: CategoryText, unit: string, totalQuantity: real, batches: seq<Entry>)

  const NO_EXPIRY_RANK: int := 0x4000_0000_0000_0000

  /** Rows without an expiry, or with expiry zero, sort last. */
  function ExpiryRank(row: Row): int {
    if row.expiryMs == None || row.expiryMs == Some(0) then NO_EXPIRY_RANK else row.expiryMs.value
  }

  predicate Before(a: Entry, b: Entry) {
    || ExpiryRank(a.row) < ExpiryRank(b.row)
    || (ExpiryRank(a.row) == ExpiryRank(b.row) && LexLeq(Lower(a.row.name), Lower(b.row.name)))
  }

  ghost predicate SortedEntries(s: seq<Entry>) {
    forall i, j | 0 <= i < j < |s| :: Before(s[i], s[j])
  }

  function Insert(e: Entry, s: seq<Entry>): (r: seq<Entry>)
    ensures |r| == |s| + 1
  {
    if s == [] || Before(e, s[0]) then [e] + s else [s[0]] + Insert(e, s[1..])
  }

  function SortEntries(s: seq<Entry>): (r: seq<Entry>)
    ensures |r| == |s|
  {
    if s == [] then [] else Insert(s[0], SortEntries(s[1..]))
  }

  lemma BeforeIsAnOrder(a: Entry, b: Entry, c: Entry)
    ensures Before(a, b) || Before(b, a)
    ensures Before(a, b) && Before(b, c) ==> Before(a, c)
  {
    var x, y, z := Lower(a.row.name), Lower(b.row.name), Lower(c.row.name);
    LexTotal(x, y);
    if LexLeq(x, y) && LexLeq(y, z) {
      LexTransitive(x, y, z);
    }
  }

  lemma {:induction false} InsertIsSorted(e: Entry, s: seq<Entry>)
    requires SortedEntries(s)
    ensures SortedEntries(Insert(e, s))
    ensures multiset(Insert(e, s)) == multiset(s) + multiset{e}
    decreases |s|
  {
    hide Before;
    if s == [] {
    } else if Before(e, s[0]) {
      forall j | 0 <= j < |s|
        ensures Before(e, s[j])
      {
        if j > 0 {
          BeforeIsAnOrder(e, s[0], s[j]);
        }
      }
    } else {
      InsertIsSorted(e, s[1..]);
      var tail := Insert(e, s[1..]);
      assert s == [s[0]] + s[1..];
      forall j | 0 <= j < |tail|
        ensures Before(s[0], tail[j])
      {
        assert tail[j] in multiset(tail);
        assert tail[j] == e || tail[j] in s[1..];
        BeforeIsAnOrder(e, s[0], s[0]);
      }
    }
  }

  lemma {:induction false} SortSorts(s: seq<Entry>)
    ensures SortedEntries(SortEntries(s))
    ensures multiset(SortEntries(s)) == multiset(s)
  {
    hide Before, Insert;
    if s == [] {
    } else {
      SortSorts(s[1..]);
      InsertIsSorted(s[0], SortEntries(s[1..]));
      assert s == [s[0]] + s[1..];
    }
  }

  /** The rows of one identity, in their original order. */
  function Bucket(rows: seq<Entry>, key: IdentityKey): seq<Entry> {
    if rows == [] then []
    else
      var last := rows[|rows| - 1];
      Bucket(rows[..|rows| - 1], key) + if KeyOf(last.row) == key then [last] else []
  }

  function Quantity(rows: seq<Entry>): real {
    if rows == [] then 0.0 else Quantity(rows[..|rows| - 1]) + rows[|rows| - 1].row.quantity
  }

  function GroupOf(rows: seq<Entry>): Group
    requires rows != []
  {
    var ordered := SortEntries(rows);
    Group(ordered[0].row.bagId, ordered[0].row.name, NormalizeCategory(rows[0].row.category), ordered[0].row.unit,
          Quantity(ordered), ordered)
  }

  ghost predicate ListsKeysOf(keys: seq<IdentityKey>, rows: seq<Entry>) {
    && Distinct(keys)
    && forall key :: key in keys <==> exists i | 0 <= i < |rows| :: KeyOf(rows[i].row) == key
  }

  lemma {:induction false} BucketMembers(rows: seq<Entry>, key: IdentityKey)
    ensures forall e :: e in Bucket(rows, key) <==> e in rows && KeyOf(e.row) == key
    ensures Bucket(rows, key) != [] <==> exists i | 0 <= i < |rows| :: KeyOf(rows[i].row) == key
  {
    hide KeyOf;
    if rows == [] {
    } else {
      var front, last := rows[..|rows| - 1], rows[|rows| - 1];
      BucketMembers(front, key);
      assert forall e :: e in rows <==> e in front || e == last;
      if i :| 0 <= i < |rows| && KeyOf(rows[i].row) == key {
        assert i == |rows| - 1 || front[i] == rows[i];
      }
      if Bucket(front, key) != [] {
        var i :| 0 <= i < |front| && KeyOf(front[i].row) == key;
        assert rows[i] == front[i];
      }
    }
  }

  lemma BucketAfterRow(rows: seq<Entry>, e: Entry, key: IdentityKey)
    ensures Bucket(rows + [e], key) == Bucket(rows, key) + if KeyOf(e.row) == key then [e] else []
    ensures Quantity(Bucket(rows + [e], key))
            == Quantity(Bucket(rows, key)) + if KeyOf(e.row) == key then e.row.quantity else 0.0
  {
    hide KeyOf;
    assert (rows + [e])[..|rows|] == rows;
    var bucket := Bucket(rows, key);
    assert (bucket + [e])[..|bucket|] == bucket;
    assert bucket + [] == bucket;
  }

  ghost predicate GroupedBy(grouped: map<IdentityKey, seq<Entry>>, keys: seq<IdentityKey>, rows: seq<Entry>) {
    && ListsKeysOf(keys, rows)
    && (forall key :: key in grouped <==> key in keys)
    && (forall key | key in grouped :: grouped[key] == Bucket(rows, key))
  }

  lemma NoBucketYet(keys: seq<IdentityKey>, rows: seq<Entry>, key: IdentityKey)
    requires ListsKeysOf(keys, rows) && key !in keys
    ensures Bucket(rows, key) == []
  {
    hide KeyOf, Bucket;
    BucketMembers(rows, key);
  }

  lemma GroupedAfterRow(grouped: map<IdentityKey, seq<Entry>>, keys: seq<IdentityKey>, rows: seq<Entry>, e: Entry)
    requires GroupedBy(grouped, keys, rows)
    ensures var key := KeyOf(e.row);
            GroupedBy(grouped[key := (if key in grouped then grouped[key] else []) + [e]],
                      if key in grouped then keys else keys + [key], rows + [e])
  {
    hide KeyOf, Bucket, Quantity, ListsKeysOf;
    var key := KeyOf(e.row);
    KeysAfterRow(keys, rows, e);
    if key !in keys {
      NoBucketYet(keys, rows, key);
    }
    var more := grouped[key := (if key in grouped then grouped[key] else []) + [e]];
    forall k | k in more
      ensures more[k] == Bucket(rows + [e], k)
    {
      BucketAfterRow(rows, e, k);
    }
  }

  /** Appends one row to its bucket, opening the bucket if it is the first of its identity. */
  method AddToBucket(grouped: map<IdentityKey, seq<Entry>>, keys: seq<IdentityKey>, e: Entry, ghost rows: seq<Entry>)
    returns (grouped': map<IdentityKey, seq<Entry>>, keys': seq<IdentityKey>)
    requires GroupedBy(grouped, keys, rows)
    ensures GroupedBy(grouped', keys', rows + [e])
  {
    var key := KeyOf(e.row);
    GroupedAfterRow(grouped, keys, rows, e);
    if key in grouped {
      return grouped[key := grouped[key] + [e]], keys;
    } else {
      return grouped[key := [] + [e]], keys + [key];
    }
  }

  /** Fills the dictionary of buckets row by row; `keys` is its insertion order. */
  method FillBuckets(rows: seq<Entry>) returns (grouped: map<IdentityKey, seq<Entry>>, keys: seq<IdentityKey>)
    ensures GroupedBy(grouped, keys, rows)
  {
    grouped := map[];
    keys := [];
    for i := 0 to |rows|
      invariant GroupedBy(grouped, keys, rows[..i])
    {
      grouped, keys := AddToBucket(grouped, keys, rows[i], rows[..i]);
      assert rows[..i + 1] == rows[..i] + [rows[i]];
    }
    assert rows[..|rows|] == rows;
  }

  /** Whether the row has an expiry that counts. */
  predicate Expires(row: Row) {
    row.expiryMs.Some? && row.expiryMs.value != 0
  }

  /** In a group the rows that expire come first, soonest first, and ties are in order of name; expiries are
      below 2 to the power 62. */
  lemma SoonestExpiryFirst(rows: seq<Entry>, i: nat, j: nat)
    requires i < j < |rows|
    requires forall e | e in rows && Expires(e.row) :: e.row.expiryMs.value < NO_EXPIRY_RANK
    ensures var ordered := SortEntries(rows);
            && (Expires(ordered[j].row) ==>
                  Expires(ordered[i].row) && ordered[i].row.expiryMs.value <= ordered[j].row.expiryMs.value)
            && ((Expires(ordered[i].row) <==> Expires(ordered[j].row))
                && (Expires(ordered[i].row) ==> ordered[i].row.expiryMs == ordered[j].row.expiryMs) ==>
                  LexLeq(Lower(ordered[i].row.name), Lower(ordered[j].row.name)))
  {
    var ordered := SortEntries(rows);
    SortSorts(rows);
    assert ordered[i] in multiset(ordered) && ordered[j] in multiset(ordered);
    assert Before(ordered[i], ordered[j]);
  }

  function Totals(groups: seq<Group>): real {
    if groups == [] then 0.0 else Totals(groups[..|groups| - 1]) + groups[|groups| - 1].totalQuantity
  }

  function CategoryRank(category: CategoryText): int {
    match NormalizeCategory(category)
    case Named(c) => AlphabeticalRank(c)
  }

  /** The order of the view: by category name, then by lower-cased name. */
  predicate GroupBefore(a: Group, b: Group) {
    || CategoryRank(a.category) < CategoryRank(b.category)
    || (CategoryRank(a.category) == CategoryRank(b.category) && LexLeq(Lower(a.name), Lower(b.name)))
  }

  lemma GroupBeforeIsAnOrder(a: Group, b: Group, c: Group)
    ensures GroupBefore(a, b) || GroupBefore(b, a)
    ensures GroupBefore(a, b) && GroupBefore(b, c) ==> GroupBefore(a, c)
  {
    var x, y, z := Lower(a.name), Lower(b.name), Lower(c.name);
    LexTotal(x, y);
    if LexLeq(x, y) && LexLeq(y, z) {
      LexTransitive(x, y, z);
    }
  }

  ghost predicate SortedGroups(groups: seq<Group>) {
    forall i, j | 0 <= i < j < |groups| :: GroupBefore(groups[i], groups[j])
  }

  /** Earlier groups have the category that comes first in the alphabet, and in one category the name that
      does, lower-cased. */
  ghost predicate InViewOrder(groups: seq<Group>) {
    forall i, j | 0 <= i < j < |groups| ::
      && CategoryRank(groups[i].category) <= CategoryRank(groups[j].category)
      && (groups[i].category == groups[j].category ==> LexLeq(Lower(groups[i].name), Lower(groups[j].name)))
  }

  lemma SortedIsViewOrder(groups: seq<Group>)
    requires SortedGroups(groups)
    ensures InViewOrder(groups)
  {
  }

  /** Each group is made of the rows of its key. */
  ghost predicate GroupsOf(groups: seq<Group>, keys: seq<IdentityKey>, rows: seq<Entry>) {
    && |groups| == |keys|
    && forall k | 0 <= k < |keys| :: Bucket(rows, keys[k]) != [] && groups[k] == GroupOf(Bucket(rows, keys[k]))
  }

  /** A group lists the rows of its key, each as often as it occurs, soonest expiry first; the first of them
      gives it bag, name and unit, the quantities add up, and the category is that of all of them. */
  ghost predicate ShowsRowsOf(g: Group, rows: seq<Entry>, key: IdentityKey) {
    && g.batches != [] && SortedEntries(g.batches)
    && (forall e: Entry :: multiset(g.batches)[e] == if KeyOf(e.row) == key then multiset(rows)[e] else 0)
    && g.bagId == g.batches[0].row.bagId && g.name == g.batches[0].row.name && g.unit == g.batches[0].row.unit
    && (forall e | e in g.batches :: NormalizeCategory(e.row.category) == g.category)
    && g.totalQuantity == Quantity(g.batches)
  }

  lemma {:induction false} BucketCounts(rows: seq<Entry>, key: IdentityKey, e: Entry)
    ensures multiset(Bucket(rows, key))[e] == if KeyOf(e.row) == key then multiset(rows)[e] else 0
  {
    hide KeyOf;
    if rows == [] {
    } else {
      BucketCounts(rows[..|rows| - 1], key, e);
      assert rows == rows[..|rows| - 1] + [rows[|rows| - 1]];
    }
  }

  lemma GroupShowsRows(rows: seq<Entry>, key: IdentityKey)
    requires Bucket(rows, key) != []
    ensures ShowsRowsOf(GroupOf(Bucket(rows, key)), rows, key)
  {
    hide Bucket, Before, Quantity, NormalizeCategory;
    var bucket := Bucket(rows, key);
    SortSorts(bucket);
    BucketMembers(rows, key);
    forall e: Entry
      ensures multiset(SortEntries(bucket))[e] == if KeyOf(e.row) == key then multiset(rows)[e] else 0
    {
      BucketCounts(rows, key, e);
    }
    forall e | e in SortEntries(bucket)
      ensures KeyOf(e.row) == key
    {
      assert e in multiset(SortEntries(bucket));
    }
    assert bucket[0] in bucket;
  }

  /** Rows of one identity are in one group, and rows in one group are of one identity unless their names
      hold different numbers of bars. */
  lemma GroupsAreIdentities(g: Group, rows: seq<Entry>, key: IdentityKey, a: Entry, b: Entry)
    requires ShowsRowsOf(g, rows, key) && a in g.batches && b in rows
    ensures SameIdentity(a.row.name, a.row.unit, a.row.category, b.row.name, b.row.unit, b.row.category)
            <==> b in g.batches && Bars(a.row.name) == Bars(b.row.name)
  {
    hide Quantity, SortedEntries, NormalizedIdentityKey;
    KeysEqualExactly(a.row.name, a.row.unit, a.row.category, b.row.name, b.row.unit, b.row.category);
    assert multiset(g.batches)[a] > 0 && multiset(rows)[b] > 0;
    assert b in g.batches <==> multiset(g.batches)[b] > 0;
  }

  lemma {:induction false} GroupsCarryTotals(groups: seq<Group>, keys: seq<IdentityKey>, rows: seq<Entry>)
    requires GroupsOf(groups, keys, rows)
    ensures Totals(groups) == GroupTotals(rows, keys)
    decreases |groups|
  {
    hide Bucket, GroupOf;
    if groups == [] {
    } else {
      var k := |groups| - 1;
      GroupsCarryTotals(groups[..k], keys[..k], rows);
      GroupCarriesTotal(Bucket(rows, keys[k]));
    }
  }

  lemma GroupCarriesTotal(rows: seq<Entry>)
    requires rows != []
    ensures GroupOf(rows).totalQuantity == Quantity(rows)
  {
    SortKeepsQuantity(rows);
  }

  /** Puts a group in its place: behind the groups that come before it or tie with it. */
  method InsertGroup(groups: seq<Group>, keys: seq<IdentityKey>, g: Group, key: IdentityKey, ghost rows: seq<Entry>)
    returns (groups': seq<Group>, keys': seq<IdentityKey>)
    requires SortedGroups(groups) && GroupsOf(groups, keys, rows) && Distinct(keys) && key !in keys
    requires Bucket(rows, key) != [] && g == GroupOf(Bucket(rows, key))
    ensures SortedGroups(groups') && GroupsOf(groups', keys', rows) && Distinct(keys')
    ensures forall k :: k in keys' <==> k in keys || k == key
  {
    hide GroupBefore, Bucket, GroupOf;
    var p := 0;
    while p < |groups| && GroupBefore(groups[p], g)
      invariant 0 <= p <= |groups|
      invariant forall i | 0 <= i < p :: GroupBefore(groups[i], g)
    {
      p := p + 1;
    }
    forall i | p <= i < |groups|
      ensures GroupBefore(g, groups[i])
    {
      BeforeTheRest(groups, g, p, i);
    }
    groups' := groups[..p] + [g] + groups[p..];
    keys' := keys[..p] + [key] + keys[p..];
    assert forall k :: k in keys <==> k in keys[..p] || k in keys[p..];
  }

  lemma BeforeTheRest(groups: seq<Group>, g: Group, p: nat, i: nat)
    requires SortedGroups(groups) && p <= i < |groups| && !GroupBefore(groups[p], g)
    ensures GroupBefore(g, groups[i])
  {
    hide GroupBefore;
    BeforeIsTotal(groups[p], g);
    if p < i {
      GroupBeforeIsAnOrder(g, groups[p], groups[i]);
    }
  }

  lemma BeforeIsTotal(a: Group, b: Group)
    ensures GroupBefore(a, b) || GroupBefore(b, a)
  {
    hide GroupBefore;
    GroupBeforeIsAnOrder(a, b, b);
  }

  /** One group per bucket, sorted by category and name. */
  method BuildInventoryGroups(rows: seq<Entry>) returns (groups: seq<Group>, keys: seq<IdentityKey>)
    ensures ListsKeysOf(keys, rows) && |groups| == |keys|
    ensures forall k | 0 <= k < |keys| ::
              Bucket(rows, keys[k]) != [] && groups[k] == GroupOf(Bucket(rows, keys[k]))
    ensures forall k | 0 <= k < |keys| :: ShowsRowsOf(groups[k], rows, keys[k])
    ensures SortedGroups(groups) && InViewOrder(groups)
    ensures Totals(groups) == Quantity(rows)
  {
    hide KeyOf, Bucket, GroupOf, Quantity, SortedGroups, ShowsRowsOf, InViewOrder;
    var grouped, order := FillBuckets(rows);
    groups, keys := [], [];
    assert SortedGroups(groups) by {
      NoGroupsSorted();
    }
    for k := 0 to |order|
      invariant SortedGroups(groups) && GroupsOf(groups, keys, rows) && Distinct(keys)
      invariant forall key :: key in keys <==> key in order[..k]
    {
      assert order[k] in order;
      BucketMembers(rows, order[k]);
      groups, keys := InsertGroup(groups, keys, GroupOf(grouped[order[k]]), order[k], rows);
    }
    assert order[..|order|] == order;
    GroupsCarryTotals(groups, keys, rows);
    forall k | 0 <= k < |keys|
      ensures ShowsRowsOf(groups[k], rows, keys[k])
    {
      GroupShowsRows(rows, keys[k]);
    }
    KeysCoverRows(rows, keys);
    GroupTotalsAddUp(rows, keys);
    SortedIsViewOrder(groups);
  }

  lemma NoGroupsSorted()
    ensures SortedGroups([])
  {
  }

  lemma KeysCoverRows(rows: seq<Entry>, keys: seq<IdentityKey>)
    requires ListsKeysOf(keys, rows)
    ensures forall e | e in rows :: KeyOf(e.row) in keys
  {
    hide KeyOf;
    forall e | e in rows
      ensures KeyOf(e.row) in keys
    {
      var i :| 0 <= i < |rows| && rows[i] == e;
    }
  }

  lemma KeysAfterRow(keys: seq<IdentityKey>, rows: seq<Entry>, e: Entry)
    requires ListsKeysOf(keys, rows)
    ensures ListsKeysOf(if KeyOf(e.row) in keys then keys else keys + [KeyOf(e.row)], rows + [e])
  {
    hide KeyOf;
    var more := rows + [e];
    assert more[|rows|] == e;
    assert forall i | 0 <= i < |rows| :: more[i] == rows[i];
  }

  // What the groups amount to.

  function GroupTotals(rows: seq<Entry>, keys: seq<IdentityKey>): real {
    if keys == [] then 0.0
    else GroupTotals(rows, keys[..|keys| - 1]) + Quantity(Bucket(rows, keys[|keys| - 1]))
  }

  lemma QuantityOfInsert(e: Entry, s: seq<Entry>)
    ensures Quantity(Insert(e, s)) == Quantity(s) + e.row.quantity
    decreases |s|
  {
    QuantityCons(e, s);
    if s != [] && !Before(e, s[0]) {
      QuantityOfInsert(e, s[1..]);
      QuantityCons(s[0], Insert(e, s[1..]));
      QuantityCons(s[0], s[1..]);
      assert [s[0]] + s[1..] == s;
    }
  }

  lemma {:induction false} QuantityCons(e: Entry, s: seq<Entry>)
    ensures Quantity([e] + s) == e.row.quantity + Quantity(s)
  {
    if s == [] {
      assert [e] + s == [e];
    } else {
      var front := s[..|s| - 1];
      QuantityCons(e, front);
      assert ([e] + s)[..|s|] == [e] + front;
    }
  }

  lemma {:induction false} SortKeepsQuantity(s: seq<Entry>)
    ensures Quantity(SortEntries(s)) == Quantity(s)
  {
    if s == [] {
    } else {
      SortKeepsQuantity(s[1..]);
      QuantityOfInsert(s[0], SortEntries(s[1..]));
      QuantityCons(s[0], s[1..]);
      assert [s[0]] + s[1..] == s;
    }
  }

  lemma {:induction false} TotalsAfterRow(rows: seq<Entry>, e: Entry, keys: seq<IdentityKey>)
    requires Distinct(keys)
    ensures GroupTotals(rows + [e], keys)
            == GroupTotals(rows, keys) + if KeyOf(e.row) in keys then e.row.quantity else 0.0
  {
    hide KeyOf, Bucket;
    if keys == [] {
    } else {
      var front, last := keys[..|keys| - 1], keys[|keys| - 1];
      TotalsAfterRow(rows, e, front);
      BucketAfterRow(rows, e, last);
      assert last !in front;
      assert forall key :: key in keys <==> key in front || key == last;
    }
  }

  /** The group totals add up to the total of the rows. */
  lemma {:induction false} GroupTotalsAddUp(rows: seq<Entry>, keys: seq<IdentityKey>)
    requires Distinct(keys)
    requires forall e | e in rows :: KeyOf(e.row) in keys
    ensures GroupTotals(rows, keys) == Quantity(rows)
  {
    hide KeyOf, GroupTotals, Bucket;
    if rows == [] {
      NoRowsNoTotals(keys);
    } else {
      var front, last := rows[..|rows| - 1], rows[|rows| - 1];
      assert forall e | e in front :: e in rows;
      GroupTotalsAddUp(front, keys);
      TotalsAfterRow(front, last, keys);
      assert front + [last] == rows;
    }
  }

  lemma {:induction false} NoRowsNoTotals(keys: seq<IdentityKey>)
    ensures GroupTotals([], keys) == 0.0
  {
    if keys == [] {
    } else {
      NoRowsNoTotals(keys[..|keys| - 1]);
    }
  }

  /** `rows` lists the live rows of one bag, each once. */
  ghost predicate ListsLiveRows(rows: seq<Entry>, items: Items, bagId: string) {
    && (forall i, j | 0 <= i < j < |rows| :: rows[i].id != rows[j].id)
    && forall id, row :: Entry(id, row) in rows
                         <==> id in items && items[id] == row && !row.deleted && row.bagId == bagId
  }

  lemma {:induction false} NothingLiveNoTotal(items: Items, ids: set<string>)
    requires ids <= items.Keys && forall id | id in ids :: items[id].deleted
    ensures SumOver(items, ids) == 0.0
    decreases ids
  {
    if ids == {} {
    } else {
      var id :| id in ids;
      SumRemove(items, ids, id);
      NothingLiveNoTotal(items, ids - {id});
    }
  }

  /** The live rows of the one bag, listed each once, add up to the total of the table. */
  lemma {:induction false} ListedQuantityIsTotal(rows: seq<Entry>, items: Items, bagId: string)
    requires ListsLiveRows(rows, items, bagId) && forall id | id in items :: items[id].bagId == bagId
    ensures Quantity(rows) == Total(items)
    decreases |rows|
  {
    if rows == [] {
      forall id | id in items
        ensures items[id].deleted
      {
        assert Entry(id, items[id]) !in rows;
      }
      NothingLiveNoTotal(items, items.Keys);
    } else {
      var front, last := rows[..|rows| - 1], rows[|rows| - 1];
      assert Entry(last.id, last.row) in rows;
      var rest := items[last.id := Retired(last.row, 0, "")];
      FrontListsRest(rows, items, bagId);
      ListedQuantityIsTotal(front, rest, bagId);
      TotalAfterUpdate(items, last.id, Retired(last.row, 0, ""));
    }
  }

  lemma FrontListsRest(rows: seq<Entry>, items: Items, bagId: string)
    requires rows != [] && ListsLiveRows(rows, items, bagId)
    ensures var last := rows[|rows| - 1];
            ListsLiveRows(rows[..|rows| - 1], items[last.id := Retired(last.row, 0, "")], bagId)
  {
    var front, last := rows[..|rows| - 1], rows[|rows| - 1];
    var rest := items[last.id := Retired(last.row, 0, "")];
    assert rows == front + [last];
    forall id, row
      ensures Entry(id, row) in front <==> id in rest && rest[id] == row && !row.deleted && row.bagId == bagId
    {
      assert Entry(id, row) in rows <==> Entry(id, row) in front || Entry(id, row) == last;
      if Entry(id, row) in front {
        var k :| 0 <= k < |front| && front[k] == Entry(id, row);
        assert rows[k] == Entry(id, row) && rows[k].id != last.id;
      }
    }
  }

  /** Each row is in the group of its own identity and in no other; and over a table with unique
      batches no expiry occurs twice in a group. The group totals add up to the table's total. */
  lemma GroupsPartitionLiveRows(rows: seq<Entry>, keys: seq<IdentityKey>, items: Items, bagId: string)
    requires UniqueBatches(items) && ListsLiveRows(rows, items, bagId) && ListsKeysOf(keys, rows)
    ensures forall e, key | key in keys :: e in SortEntries(Bucket(rows, key)) <==> e in rows && KeyOf(e.row) == key
    ensures forall e | e in rows :: KeyOf(e.row) in keys
    ensures forall key, a, b |
                key in keys && a in SortEntries(Bucket(rows, key)) && b in SortEntries(Bucket(rows, key)) ::
              a.row.expiryMs == b.row.expiryMs ==> a == b
    ensures GroupTotals(rows, keys) == Quantity(rows)
    ensures (forall id | id in items :: items[id].bagId == bagId) ==> GroupTotals(rows, keys) == Total(items)
  {
    if forall id | id in items :: items[id].bagId == bagId {
      ListedQuantityIsTotal(rows, items, bagId);
    }
    forall key
      ensures forall e :: e in SortEntries(Bucket(rows, key)) <==> e in rows && KeyOf(e.row) == key
    {
      SortSorts(Bucket(rows, key));
      BucketMembers(rows, key);
      assert forall e :: e in SortEntries(Bucket(rows, key)) <==> e in multiset(SortEntries(Bucket(rows, key)));
    }
    KeysCoverRows(rows, keys);
    GroupTotalsAddUp(rows, keys);
    forall a, b | a in rows && b in rows && KeyOf(a.row) == KeyOf(b.row) && a.row.expiryMs == b.row.expiryMs
      ensures a == b
    {
      assert Entry(a.id, a.row) in rows && Entry(b.id, b.row) in rows;
      if a.id == b.id {
        assert a.row == items[a.id] == b.row;
      } else {
        assert SameBatch(items[a.id], items[b.id]);
      }
    }
  }
}
