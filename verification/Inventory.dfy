/** Rows, wire records, and the comparison rules the Pi server uses for inventory items. */
module Inventory {
  import opened Text
  import opened WordRules

  datatype Option<+T> = None | Some(value: T)

  function Find<K, V>(m: map<K, V>, k: K): Option<V> {
    if k in m then Some(m[k]) else None
  }

  datatype Category = WaterFood | MedicalHealth | LightCommunication | ToolsProtection | Hygiene | Other

  /** The position of a category's name in the alphabet of the six names. */
  function AlphabeticalRank(category: Category): int {
    match category
    case Hygiene => 0
    case LightCommunication => 1
    case MedicalHealth => 2
    case Other => 3
    case ToolsProtection => 4
    case WaterFood => 5
  }

  /** A category as text: one of the six canonical names, or other text with the category it stands for. */
  datatype CategoryText = Named(category: Category) | Free(text: string, means: Category)

  function NormalizeCategory(raw: CategoryText): CategoryText {
    match raw
    case Named(_) => raw
    case Free(_, category) => Named(category)
  }

  /** An item as it travels between the phone and the Pi. `expiryDate` is the parsed form of the
      optional date text; it is `None` when the text is absent, blank, or does not parse. */
  datatype Item = Item(
    id: string, bagId: string, name: string, category: CategoryText, quantity: real, unit: string,
    packed: bool, notes: string, expiryMs: Option<int>, expiryDate: Option<int>, deleted: bool,
    updatedAt: int, updatedBy: string)

  /** A row of the Pi's `items` table; its id is the key it is stored under. The category id column
      is the slug of one of the six names, so it is kept as that category. */
  datatype Row = Row(
    bagId: string, name: string, category: CategoryText, quantity: real, unit: string,
    packed: bool, notes: string, expiryMs: Option<int>, deleted: bool,
    updatedAt: int, updatedBy: string,
    categoryId: Option<Category>, essential: bool, minimumQuantity: real, condition: string,
    createdAt: Option<int>)

  /** The joined key "name|unit|category". No category name holds a bar, so the part before the last
      bar and the category determine the joined text and are determined by it. */
  datatype IdentityKey = IdentityKey(nameAndUnit: string, category: CategoryText)

  function NormalizedIdentityKey(name: string, unit: string, category: CategoryText): IdentityKey {
    IdentityKey(Canonical(name) + "|" + Canonical(unit), NormalizeCategory(category))
  }

  lemma KeyIgnoresOuterSpace(name: string, unit: string, category: CategoryText)
    ensures NormalizedIdentityKey(Strip(name), Strip(unit), NormalizeCategory(category))
            == NormalizedIdentityKey(name, unit, category)
  {
    StripIdempotent(name);
    StripIdempotent(unit);
  }

  /** The categories stand for one category, and the names and the units have the same words up to case. */
  ghost predicate SameIdentity(name: string, unit: string, category: CategoryText,
                               otherName: string, otherUnit: string, otherCategory: CategoryText) {
    && NormalizeCategory(category) == NormalizeCategory(otherCategory)
    && SameWords(name, otherName) && SameWords(unit, otherUnit)
  }

  /** Which names, units and categories share a key. The key of one identity is one key; and one key is one
      identity unless the names hold a different number of bars, as when neither holds any. */
  lemma KeysEqualExactly(name: string, unit: string, category: CategoryText,
                         otherName: string, otherUnit: string, otherCategory: CategoryText)
    ensures SameIdentity(name, unit, category, otherName, otherUnit, otherCategory)
            <==> NormalizedIdentityKey(name, unit, category)
                 == NormalizedIdentityKey(otherName, otherUnit, otherCategory)
                 && Bars(name) == Bars(otherName)
    ensures '|' !in name && '|' !in otherName ==> Bars(name) == Bars(otherName) == 0
  {
    hide Canonical, SameWords;
    CanonicalExactly(name, otherName);
    CanonicalExactly(unit, otherUnit);
    CanonicalKeepsBars(name);
    CanonicalKeepsBars(otherName);
    if NormalizedIdentityKey(name, unit, category) == NormalizedIdentityKey(otherName, otherUnit, otherCategory)
       && Bars(name) == Bars(otherName) {
      SplitsAtOneBar(Canonical(name), Canonical(unit), Canonical(otherName), Canonical(otherUnit));
    }
  }

  /** A bar in a name can be mistaken for the one that joins name and unit: "a|b" in "c" has the key of "a"
      in "b|c", for any three words. */
  lemma BarsCollide(a: string, b: string, c: string, category: CategoryText)
    requires IsWord(a) && IsWord(b) && IsWord(c)
    ensures NormalizedIdentityKey(a + "|" + b, c, category) == NormalizedIdentityKey(a, b + "|" + c, category)
    ensures !SameIdentity(a + "|" + b, c, category, a, b + "|" + c, category)
  {
    var left, right := a + "|" + b, b + "|" + c;
    WordIsCanonical(a);
    WordIsCanonical(c);
    WordIsCanonical(left);
    WordIsCanonical(right);
    assert Lower(left) + "|" + Lower(c) == Lower(a) + "|" + Lower(right);
    KeysEqualExactly(left, c, category, a, right, category);
    BarsAdd(a, "|");
    BarsAdd(a + "|", b);
    assert Bars("|") == 1;
  }

  function MergedNotes(existing: string, incoming: string): string {
    if Strip(incoming) == "" then Strip(existing)
    else if Strip(existing) == "" then Strip(incoming)
    else if Contains(Lower(Strip(existing)), Lower(Strip(incoming))) then Strip(existing)
    else Strip(existing) + " | " + Strip(incoming)
  }

  /** Merging the same note again adds nothing: scanning one label twice keeps one copy of its note. */
  lemma MergedNotesAbsorbsRepeats(existing: string, incoming: string)
    ensures MergedNotes(MergedNotes(existing, incoming), incoming) == MergedNotes(existing, incoming)
  {
    var e, i := Strip(existing), Strip(incoming);
    var merged := MergedNotes(existing, incoming);
    StripTrims(existing);
    StripTrims(incoming);
    TrimmedIsStripped(merged);
    if merged == e + " | " + i {
      assert Lower(merged) == Lower(e + " | ") + Lower(i);
      ContainsTail(Lower(e + " | "), Lower(i));
    } else if e == "" {
      ContainsTail("", Lower(i));
      assert "" + Lower(i) == Lower(i);
    }
  }

  /** Merged notes are trimmed and keep both notes, up to the case of the incoming one. */
  lemma MergedNotesKeepBoth(existing: string, incoming: string)
    ensures var merged := MergedNotes(existing, incoming);
            && Trimmed(merged)
            && Contains(merged, Strip(existing))
            && Contains(Lower(merged), Lower(Strip(incoming)))
            && (merged == Strip(existing) <==>
                  Strip(incoming) == ""
                  || (Strip(existing) != "" && Contains(Lower(Strip(existing)), Lower(Strip(incoming)))))
            && (merged !in {Strip(existing), Strip(incoming)} ==>
                  merged == Strip(existing) + " | " + Strip(incoming))
  {
    var e, i := Strip(existing), Strip(incoming);
    var merged := MergedNotes(existing, incoming);
    StripTrims(existing);
    StripTrims(incoming);
    assert e <= merged[0..];
    if i == "" {
      assert Lower(i) <= Lower(merged)[0..];
    } else if merged == e + " | " + i {
      assert |merged| > |e|;
      assert Lower(merged) == Lower(e + " | ") + Lower(i);
      ContainsTail(Lower(e + " | "), Lower(i));
    } else if merged == i {
      ContainsTail("", Lower(i));
      assert "" + Lower(i) == Lower(i);
    }
  }

  /** The part of an item that the sync diff compares. */
  datatype Content = Content(
    bagId: string, name: string, category: CategoryText, quantity: real, unit: string,
    packed: bool, notes: string, expiryMs: Option<int>, deleted: bool)

  function ContentOf(i: Item): Content {
    Content(i.bagId, i.name, i.category, i.quantity, i.unit, i.packed, i.notes, i.expiryMs, i.deleted)
  }

  datatype DiffResult = DiffResult(isIdentical: bool, onlyPackedStatusDiff: bool, deleteVsEdit: bool)

  /** What the diff answers, stated on the contents rather than on a list of differing fields. */
  function DiffOf(server: Item, phone: Item): DiffResult {
    var s, p := ContentOf(server), ContentOf(phone);
    DiffResult(
      s == p,
      s.packed != p.packed && s == p.(packed := s.packed),
      s.deleted != p.deleted && s != p.(deleted := s.deleted))
  }

  datatype Field = BagId | Name | CategoryName | Quantity | Unit | PackedStatus | Notes | ExpiryMs | Deleted

  predicate FieldDiffers(field: Field, server: Item, phone: Item) {
    match field
    case BagId => server.bagId != phone.bagId
    case Name => server.name != phone.name
    case CategoryName => server.category != phone.category
    case Quantity => server.quantity != phone.quantity
    case Unit => server.unit != phone.unit
    case PackedStatus => server.packed != phone.packed
    case Notes => server.notes != phone.notes
    case ExpiryMs => server.expiryMs != phone.expiryMs
    case Deleted => server.deleted != phone.deleted
  }

  lemma FieldsDetermineContent(server: Item, phone: Item)
    ensures ContentOf(server) == ContentOf(phone) <==> forall f :: !FieldDiffers(f, server, phone)
  {
    if ContentOf(server) == ContentOf(phone) {
    } else if FieldDiffers(BagId, server, phone) || FieldDiffers(Name, server, phone)
           || FieldDiffers(CategoryName, server, phone) || FieldDiffers(Quantity, server, phone)
           || FieldDiffers(Unit, server, phone) || FieldDiffers(PackedStatus, server, phone)
           || FieldDiffers(Notes, server, phone) || FieldDiffers(ExpiryMs, server, phone)
           || FieldDiffers(Deleted, server, phone) {
    } else {
      assert false;
    }
  }

  /** The fields on which two versions differ, in the order of `fields`. */
  method DifferingFields(fields: seq<Field>, server: Item, phone: Item) returns (diffs: seq<Field>)
    requires forall i, j | 0 <= i < j < |fields| :: fields[i] != fields[j]
    ensures forall f :: f in diffs <==> f in fields && FieldDiffers(f, server, phone)
    ensures forall i, j | 0 <= i < j < |diffs| :: diffs[i] != diffs[j]
  {
    diffs := [];
    for i := 0 to |fields|
      invariant forall f :: f in diffs <==> f in fields[..i] && FieldDiffers(f, server, phone)
      invariant forall i, j | 0 <= i < j < |diffs| :: diffs[i] != diffs[j]
    {
      if FieldDiffers(fields[i], server, phone) {
        diffs := diffs + [fields[i]];
      }
    }
  }

  method DiffItem(server: Item, phone: Item) returns (d: DiffResult)
    ensures d == DiffOf(server, phone)
  {
    var edits := [BagId, Name, CategoryName, Quantity, Unit, PackedStatus, Notes, ExpiryMs];
    var fields := edits + [Deleted];
    assert edits[0] == BagId && edits[1] == Name && edits[2] == CategoryName && edits[3] == Quantity;
    assert edits[4] == Unit && edits[5] == PackedStatus && edits[6] == Notes && edits[7] == ExpiryMs;
    assert forall f :: f in edits <==> f != Deleted;
    assert forall f: Field :: f in fields;
    var diffs := DifferingFields(fields, server, phone);
    var deleteVsEdit := false;
    if server.deleted != phone.deleted {
      for i := 0 to |edits|
        invariant !deleteVsEdit
        invariant forall f | f in edits[..i] :: !FieldDiffers(f, server, phone)
      {
        if FieldDiffers(edits[i], server, phone) {
          deleteVsEdit := true;
          break;
        }
      }
    }
    d := DiffResult(|diffs| == 0, diffs == [PackedStatus], deleteVsEdit);
    DiffMeaning(server, phone, diffs);
  }

  lemma OnlyElement<T>(s: seq<T>, x: T)
    requires |s| > 0 && forall k | 0 <= k < |s| :: s[k] == x
    requires forall i, j | 0 <= i < j < |s| :: s[i] != s[j]
    ensures s == [x]
  {
    assert s[0] == x == s[|s| - 1];
  }

  lemma DiffMeaning(server: Item, phone: Item, diffs: seq<Field>)
    requires forall f :: f in diffs <==> FieldDiffers(f, server, phone)
    requires forall i, j | 0 <= i < j < |diffs| :: diffs[i] != diffs[j]
    ensures var d := DiffOf(server, phone);
            && (d.isIdentical <==> |diffs| == 0)
            && (d.onlyPackedStatusDiff <==> diffs == [PackedStatus])
            && (d.deleteVsEdit <==> server.deleted != phone.deleted
                                    && exists f :: f != Deleted && FieldDiffers(f, server, phone))
  {
    var samePacked, sameDeleted := phone.(packed := server.packed), phone.(deleted := server.deleted);
    FieldsDetermineContent(server, phone);
    FieldsDetermineContent(server, samePacked);
    FieldsDetermineContent(server, sameDeleted);
    assert forall f :: FieldDiffers(f, server, samePacked) <==> f != PackedStatus && FieldDiffers(f, server, phone);
    assert forall f :: FieldDiffers(f, server, sameDeleted) <==> f != Deleted && FieldDiffers(f, server, phone);
    if |diffs| > 0 {
      assert diffs[0] in diffs;
    }
    if DiffOf(server, phone).onlyPackedStatusDiff {
      assert FieldDiffers(PackedStatus, server, phone);
      assert forall f | f != PackedStatus :: !FieldDiffers(f, server, samePacked);
      assert forall f | f != PackedStatus :: !FieldDiffers(f, server, phone);
      forall k | 0 <= k < |diffs|
        ensures diffs[k] == PackedStatus
      {
        assert diffs[k] in diffs;
      }
      OnlyElement(diffs, PackedStatus);
    }
    if diffs == [PackedStatus] {
      assert forall f :: FieldDiffers(f, server, phone) ==> f == PackedStatus;
      assert PackedStatus in diffs;
    }
  }
}
