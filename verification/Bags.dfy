/** Bag rows, the sizes the Pi supports, and the record that `ensure_single_bag` settles on. */
module Bags {
  import opened Text
  import opened WordRules
  import opened Inventory

  datatype BagSize = L46 | L66

  function Liters(size: BagSize): int {
    if size == L46 then 46 else 66
  }

  function NormalizeSize(liters: int): Option<BagSize> {
    if liters in {25, 44, 46} then Some(L46) else if liters == 66 then Some(L66) else None
  }

  /** A template id: one of the two canonical ids, or other text with the size it stands for, if any, once
      stripped and lower-cased (`means`) and once only lower-cased (`lowered`). */
  datatype Template = Standard(size: BagSize) | Unusual(text: string, means: Option<BagSize>, lowered: Option<BagSize>)

  /** A stored bag type: "46l" or "66l", or other text with the size it stands for, if any, once lower-cased. */
  datatype BagType = TypeOf(size: BagSize) | OtherType(text: string, lowered: Option<BagSize>)

  /** A row of the Pi's `bags` table; its id is the key it is stored under. */
  datatype BagRow = BagRow(
    name: string, sizeLiters: int, template: Template, updatedAt: int, updatedBy: string,
    bagType: Option<BagType>, readiness: Option<string>, lastChecked: Option<int>, createdAt: Option<int>)

  /** A bag as the phone sends it. */
  datatype Bag = Bag(
    bagId: string, name: string, sizeLiters: int, template: Template, updatedAt: int, updatedBy: string)

  function RowToBag(id: string, row: BagRow): Bag {
    Bag(id, row.name, row.sizeLiters, row.template, row.updatedAt, row.updatedBy)
  }

  /** A bag as the phone app sends and reads it, its size and template brought to their usual form. */
  function RemoteBag(bag: Bag): (r: Bag)
    ensures r.bagId == bag.bagId && r.updatedAt == bag.updatedAt
  {
    var size := NormalizeSize(bag.sizeLiters);
    bag.(sizeLiters := if size.Some? then Liters(size.value) else bag.sizeLiters,
         template := match bag.template
                     case Unusual(_, Some(means), _) => Standard(means)
                     case _ => bag.template)
  }

  function DefaultBagName(size: BagSize): string {
    if size == L46 then "46L Bag" else "66L Bag"
  }

  predicate IsDefaultBagName(name: string) {
    Canonical(name) in {"25l bag", "44l bag", "46l bag", "66l bag", "go bag", "go-bag"}
  }

  /** The supported sizes: 46 litres, which 25 and 44 stand for, and 66. */
  lemma SupportedSizes(liters: int)
    ensures NormalizeSize(liters) == Some(L46) <==> liters == 25 || liters == 44 || liters == 46
    ensures NormalizeSize(liters) == Some(L66) <==> liters == 66
    ensures Liters(L46) == 46 && Liters(L66) == 66
  {
  }

  /** What the phone makes of a bag row: 25 and 44 litres become 46, any other size stays, a template
      that stands for a size becomes the standard one, and nothing else changes. */
  lemma RemoteBagInPlainTerms(bag: Bag)
    ensures RemoteBag(bag).sizeLiters == if bag.sizeLiters in {25, 44} then 46 else bag.sizeLiters
    ensures RemoteBag(bag) == bag.(sizeLiters := RemoteBag(bag).sizeLiters, template := RemoteBag(bag).template)
    ensures bag.template.Unusual? && bag.template.means.Some? ==>
              RemoteBag(bag).template == Standard(bag.template.means.value)
    ensures bag.template.Standard? || bag.template.means.None? ==> RemoteBag(bag).template == bag.template
  {
  }

  lemma LowerTwoWords(a: string, b: string)
    requires IsWord(a) && IsWord(b) && Lower(a) == a && Lower(b) == b
    ensures Canonical(a + " " + b) == a + " " + b
  {
    var text := a + " " + b;
    var words := [a, b];
    JoinedWords(words);
    assert words[1..] == [b] && Join(" ", [b]) == b;
    assert Join(" ", words) == text;
    assert Lower(text) == text;
    CanonicalHasWords(text);
    WordsAreUnique(Lower(text), words, Words(Lower(Strip(text))));
  }

  lemma LowerText(s: string)
    requires forall k | 0 <= k < |s| :: !('A' <= s[k] <= 'Z')
    ensures Lower(s) == s
  {
  }

  lemma DefaultNamesAreCanonical()
    ensures Canonical("25l bag") == "25l bag" && Canonical("44l bag") == "44l bag"
    ensures Canonical("46l bag") == "46l bag" && Canonical("66l bag") == "66l bag"
    ensures Canonical("go bag") == "go bag" && Canonical("go-bag") == "go-bag"
  {
    hide Canonical, Words, Strip;
    LowerText("bag");
    LowerText("25l");
    LowerText("44l");
    LowerText("46l");
    LowerText("66l");
    LowerText("go");
    LowerText("go-bag");
    LowerTwoWords("25l", "bag");
    LowerTwoWords("44l", "bag");
    LowerTwoWords("46l", "bag");
    LowerTwoWords("66l", "bag");
    LowerTwoWords("go", "bag");
    WordIsCanonical("go-bag");
    assert "25l" + " " + "bag" == "25l bag" && "44l" + " " + "bag" == "44l bag";
    assert "46l" + " " + "bag" == "46l bag" && "66l" + " " + "bag" == "66l bag" && "go" + " " + "bag" == "go bag";
  }

  /** The default names, whatever their case and spacing; the names given to new bags are among them. */
  lemma DefaultNamesExactly(name: string, size: BagSize)
    ensures IsDefaultBagName(name) <==>
              || SameWords(name, "25l bag") || SameWords(name, "44l bag") || SameWords(name, "46l bag")
              || SameWords(name, "66l bag") || SameWords(name, "go bag") || SameWords(name, "go-bag")
    ensures IsDefaultBagName(DefaultBagName(size))
  {
    hide Canonical, SameWords;
    DefaultNamesAreCanonical();
    CanonicalExactly(name, "25l bag");
    CanonicalExactly(name, "44l bag");
    CanonicalExactly(name, "46l bag");
    CanonicalExactly(name, "66l bag");
    CanonicalExactly(name, "go bag");
    CanonicalExactly(name, "go-bag");
    NewNamesAreDefault();
  }

  lemma NewNamesAreDefault()
    ensures Canonical("46L Bag") == Canonical("46l bag") && Canonical("66L Bag") == Canonical("66l bag")
  {
    hide Canonical, HasWords;
    LowerText("46l bag");
    LowerText("66l bag");
    assert Lower("46L Bag") == "46l bag" && Lower("66L Bag") == "66l bag";
    WordsAreThere("46l bag");
    WordsAreThere("66l bag");
    assert SameWords("46L Bag", "46l bag") && SameWords("66L Bag", "66l bag");
    CanonicalExactly("46L Bag", "46l bag");
    CanonicalExactly("66L Bag", "66l bag");
  }

  function BagTypeFor(template: Template, liters: int): BagType {
    match template
    case Standard(size) => TypeOf(size)
    case Unusual(_, Some(size), _) => TypeOf(size)
    case Unusual(_, None, _) => if NormalizeSize(liters).Some? then TypeOf(NormalizeSize(liters).value) else TypeOf(L46)
  }

  function OrElse<T>(value: Option<T>, otherwise: T): Option<T> {
    if value.Some? then value else Some(otherwise)
  }

  /** The row `upsert_bag` leaves behind: only missing type, creation time and readiness are filled. */
  function UpsertBag(existing: Option<BagRow>, bag: Bag): BagRow {
    var kept := if existing.Some? then existing.value
                else BagRow(bag.name, bag.sizeLiters, bag.template, bag.updatedAt, bag.updatedBy,
                            None, None, None, None);
    BagRow(bag.name, bag.sizeLiters, bag.template, bag.updatedAt, bag.updatedBy,
           OrElse(kept.bagType, BagTypeFor(bag.template, bag.sizeLiters)), OrElse(kept.readiness, "incomplete"),
           kept.lastChecked, OrElse(kept.createdAt, bag.updatedAt))
  }

  /** A stored bag reads back as it was sent, and keeps what the wire format lacks. */
  lemma StoredBagReadsBack(existing: Option<BagRow>, bag: Bag)
    ensures RowToBag(bag.bagId, UpsertBag(existing, bag)) == bag
    ensures existing.None? && bag.template.Standard? ==>
              UpsertBag(existing, bag).bagType == Some(TypeOf(bag.template.size))
    ensures existing.None? && bag.template.Unusual? && bag.template.means.Some? ==>
              UpsertBag(existing, bag).bagType == Some(TypeOf(bag.template.means.value))
    ensures existing.None? && bag.template.Unusual? && bag.template.means.None? ==>
              UpsertBag(existing, bag).bagType == Some(TypeOf(if bag.sizeLiters == 66 then L66 else L46))
    ensures var row := UpsertBag(existing, bag);
            && row.bagType.Some? && row.readiness.Some? && row.createdAt.Some?
            && (existing.Some? ==>
                  && row.lastChecked == existing.value.lastChecked
                  && (existing.value.bagType.Some? ==> row.bagType == existing.value.bagType)
                  && (existing.value.readiness.Some? ==> row.readiness == existing.value.readiness)
                  && (existing.value.createdAt.Some? ==> row.createdAt == existing.value.createdAt))
  {
  }

  // Settling the surviving bag.

  /** What the caller of `ensure_single_bag` would like; blank names and unsupported sizes do not count. */
  datatype Wish = Wish(sizeLiters: Option<int>, name: Option<string>)

  function WishedSize(wish: Wish): Option<BagSize> {
    if wish.sizeLiters.Some? then NormalizeSize(wish.sizeLiters.value) else None
  }

  function WishedName(wish: Wish): string {
    if wish.name.Some? then Strip(wish.name.value) else ""
  }

  function CurrentSize(row: BagRow): BagSize {
    var size := NormalizeSize(if row.sizeLiters == 0 then 46 else row.sizeLiters);
    if size.Some? then size.value else L46
  }

  function TargetSize(row: BagRow, wish: Wish): BagSize {
    if WishedSize(wish).Some? then WishedSize(wish).value else CurrentSize(row)
  }

  function TargetName(row: BagRow, wish: Wish): string {
    if WishedName(wish) != "" then WishedName(wish)
    else if Strip(row.name) == "" then DefaultBagName(TargetSize(row, wish))
    else if IsDefaultBagName(Strip(row.name)) && CurrentSize(row) != TargetSize(row, wish)
    then DefaultBagName(TargetSize(row, wish))
    else Strip(row.name)
  }

  predicate NeedsUpdate(row: BagRow, wish: Wish) {
    || row.name != TargetName(row, wish)
    || CurrentSize(row) != TargetSize(row, wish)
    || row.template != Standard(TargetSize(row, wish))
    || row.bagType != Some(TypeOf(TargetSize(row, wish)))
    || row.createdAt.None?
    || row.readiness.None? || row.readiness == Some("")
  }

  function Updated(row: BagRow, wish: Wish, now: int, author: string): BagRow {
    var changedAt := if now > row.updatedAt then now else row.updatedAt;
    row.(name := TargetName(row, wish), sizeLiters := Liters(TargetSize(row, wish)),
         template := Standard(TargetSize(row, wish)), updatedAt := changedAt, updatedBy := author,
         bagType := Some(TypeOf(TargetSize(row, wish))), readiness := OrElse(row.readiness, "incomplete"),
         createdAt := OrElse(row.createdAt, if row.updatedAt != 0 then row.updatedAt else changedAt))
  }

  /** One settling is enough, except that a readiness stored as empty text is never repaired: such a
      bag is restamped on every call. */
  lemma SettlingOnceIsEnough(row: BagRow, wish: Wish, now: int, author: string)
    ensures NeedsUpdate(Updated(row, wish, now, author), wish) <==> row.readiness == Some("")
    ensures Updated(row, wish, now, author).updatedAt >= row.updatedAt
    ensures Updated(row, wish, now, author).updatedAt >= now
    ensures Updated(row, wish, now, author).updatedAt in {now, row.updatedAt}
    ensures Updated(row, wish, now, author).updatedBy == author
    ensures row.createdAt.None? && row.updatedAt != 0 ==>
              Updated(row, wish, now, author).createdAt == Some(row.updatedAt)
  {
    var updated := Updated(row, wish, now, author);
    assert CurrentSize(updated) == TargetSize(row, wish) == TargetSize(updated, wish);
    if WishedName(wish) == "" {
      StripTrims(row.name);
      StripIdempotent(row.name);
      assert Strip(DefaultBagName(TargetSize(row, wish))) == DefaultBagName(TargetSize(row, wish)) by {
        TrimmedIsStripped(DefaultBagName(TargetSize(row, wish)));
      }
      assert TargetName(updated, wish) == updated.name;
    }
  }

  /** `after` is `before` with only its name, size, template and the bookkeeping columns settled. */
  ghost predicate SettledFrom(before: BagRow, after: BagRow, wish: Wish) {
    && after.name == TargetName(before, wish)
    && CurrentSize(after) == TargetSize(before, wish)
    && after.template == Standard(TargetSize(before, wish))
    && after.bagType == Some(TypeOf(TargetSize(before, wish)))
    && after.lastChecked == before.lastChecked
    && after.readiness == OrElse(before.readiness, "incomplete")
    && after.createdAt.Some? && (before.createdAt.Some? ==> after.createdAt == before.createdAt)
  }

  /** A bag whose own name stays: none is wished for, it is not blank, and it is not a default name whose
      size changes. */
  predicate KeepsName(row: BagRow, wish: Wish) {
    && WishedName(wish) == "" && Strip(row.name) != ""
    && (!IsDefaultBagName(Strip(row.name)) || WishedSize(wish) in {None, Some(CurrentSize(row))})
  }

  /** The size a bag ends up with: the wished one, if it is supported, or its own, where 66 litres stay and
      anything else is 46. */
  lemma SizeSurvives(row: BagRow, wish: Wish)
    ensures wish.sizeLiters in {Some(25), Some(44), Some(46)} ==> TargetSize(row, wish) == L46
    ensures wish.sizeLiters == Some(66) ==> TargetSize(row, wish) == L66
    ensures wish.sizeLiters !in {Some(25), Some(44), Some(46), Some(66)} ==>
              TargetSize(row, wish) == if row.sizeLiters == 66 then L66 else L46
  {
  }

  /** The name a bag ends up with: the wished one, its own, or the default one of its new size. */
  lemma NameSurvives(row: BagRow, wish: Wish)
    ensures wish.name.Some? && Strip(wish.name.value) != "" ==> TargetName(row, wish) == Strip(wish.name.value)
    ensures wish.name.None? || Strip(wish.name.value) == "" ==>
              var own := Strip(row.name);
              TargetName(row, wish) == if own != "" && (!IsDefaultBagName(own)
                                                        || TargetSize(row, wish) == CurrentSize(row)) then own
                                       else if TargetSize(row, wish) == L46 then "46L Bag" else "66L Bag"
    ensures TargetName(row, wish) == if KeepsName(row, wish) then Strip(row.name)
                                     else if WishedName(wish) != "" then WishedName(wish)
                                     else DefaultBagName(TargetSize(row, wish))
  {
  }

  /** The bag made when there is none: the wished name and size, or the defaults. */
  ghost predicate FreshBag(row: BagRow, wish: Wish, author: string) {
    var size := if WishedSize(wish).Some? then WishedSize(wish).value else L46;
    && row.name == (if WishedName(wish) != "" then WishedName(wish) else DefaultBagName(size))
    && row.sizeLiters == Liters(size) && row.template == Standard(size) && row.bagType == Some(TypeOf(size))
    && row.readiness == Some("incomplete") && row.createdAt == Some(row.updatedAt) && row.updatedBy == author
  }

  /** A new bag has the wished name, stripped, unless that is blank, and the wished size if it is supported. */
  lemma FreshBagInPlainTerms(row: BagRow, wish: Wish, author: string)
    requires FreshBag(row, wish, author)
    ensures row.sizeLiters == if wish.sizeLiters == Some(66) then 66 else 46
    ensures wish.name.Some? && Strip(wish.name.value) != "" ==> row.name == Strip(wish.name.value)
    ensures wish.name.None? || Strip(wish.name.value) == "" ==>
              row.name == if wish.sizeLiters == Some(66) then "66L Bag" else "46L Bag"
    ensures row.template == Standard(if wish.sizeLiters == Some(66) then L66 else L46)
    ensures row.bagType == Some(TypeOf(row.template.size))
  {
  }

  lemma FreshBagIsSettled(row: BagRow, wish: Wish, author: string)
    requires FreshBag(row, wish, author)
    ensures !NeedsUpdate(row, wish)
  {
    TrimmedIsStripped("46L Bag");
    TrimmedIsStripped("66L Bag");
    assert CurrentSize(row) == TargetSize(row, wish);
  }

  lemma SettledName(before: BagRow, after: BagRow, wish: Wish)
    requires SettledFrom(before, after, wish)
    ensures after.name == TargetName(before, wish)
  {
  }

  /** Settling looks at neither the stamp nor its author. */
  lemma RestampDoesNotMatter(row: BagRow, stamp: int, author: string, after: BagRow, wish: Wish)
    ensures var restamped := row.(updatedAt := stamp, updatedBy := author);
            && (SettledFrom(restamped, after, wish) <==> SettledFrom(row, after, wish))
            && (NeedsUpdate(restamped, wish) <==> NeedsUpdate(row, wish))
  {
  }

  /** What startup makes of a stored bag: only supported sizes, templates and types remain. Text is
      lower-cased but not stripped, and only blanks are trimmed off the name. */
  function Migrated(row: BagRow): BagRow {
    var size := if row.sizeLiters == 66 then L66 else L46;
    row.(sizeLiters := Liters(size),
         template := match row.template
                     case Standard(_) => row.template
                     case Unusual(_, _, Some(lowered)) => Standard(lowered)
                     case Unusual(_, _, None) => Standard(L46),
         bagType := match row.bagType
                    case Some(TypeOf(_)) => row.bagType
                    case Some(OtherType(_, Some(lowered))) => Some(TypeOf(lowered))
                    case _ => Some(TypeOf(L46)),
         name := if Lower(TrimBlanks(row.name)) in {"25l bag", "44l bag"} then "46L Bag" else row.name,
         readiness := OrElse(row.readiness, "incomplete"),
         createdAt := OrElse(row.createdAt, row.updatedAt))
  }

  /** Startup leaves only supported bags, keeps what is supported already, and starting again changes
      nothing more. */
  lemma MigrationSettles(row: BagRow)
    ensures var m := Migrated(row);
            && (m.sizeLiters == 46 || m.sizeLiters == 66) && m.template.Standard?
            && m.bagType.Some? && m.bagType.value.TypeOf? && m.readiness.Some? && m.createdAt.Some?
            && Migrated(m) == m
    ensures Migrated(row).sizeLiters == if row.sizeLiters == 66 then 66 else 46
    ensures row.template.Standard? ==> Migrated(row).template == row.template
    ensures row.template.Unusual? && row.template.lowered.Some? ==>
              Migrated(row).template.size == row.template.lowered.value
    ensures row.template.Unusual? && row.template.lowered.None? ==> Migrated(row).template == Standard(L46)
    ensures row.bagType.None? || (row.bagType.value.OtherType? && row.bagType.value.lowered.None?) ==>
              Migrated(row).bagType == Some(TypeOf(L46))
    ensures row.readiness.Some? ==> Migrated(row).readiness == row.readiness
    ensures row.createdAt.Some? ==> Migrated(row).createdAt == row.createdAt
    ensures row.readiness.None? ==> Migrated(row).readiness == Some("incomplete")
    ensures row.createdAt.None? ==> Migrated(row).createdAt == Some(row.updatedAt)
    ensures row.bagType.Some? && row.bagType.value.TypeOf? ==> Migrated(row).bagType == row.bagType
    ensures row.bagType.Some? && row.bagType.value.OtherType? && row.bagType.value.lowered.Some? ==>
              Migrated(row).bagType == Some(TypeOf(row.bagType.value.lowered.value))
    ensures var trimmed := Lower(TrimBlanks(row.name));
            Migrated(row).name == if trimmed == "25l bag" || trimmed == "44l bag" then "46L Bag" else row.name
    ensures Migrated(row).updatedAt == row.updatedAt && Migrated(row).updatedBy == row.updatedBy
  {
    assert TrimBlanks("46L Bag") == "46L Bag";
    assert Lower("46L Bag")[0] == '4' && Lower("46L Bag")[1] == '6';
  }

  // Choosing the surviving bag.

  /** Sort key: most live items first, then default size, then oldest, then name. */
  datatype Rank = Rank(liveItems: nat, otherSize: bool, since: int, name: string)

  predicate RankLeq(a: Rank, b: Rank) {
    if a.liveItems != b.liveItems then a.liveItems > b.liveItems
    else if a.otherSize != b.otherSize then b.otherSize
    else if a.since != b.since then a.since < b.since
    else LexLeq(a.name, b.name)
  }

  lemma RankTotal(a: Rank, b: Rank)
    ensures RankLeq(a, b) || RankLeq(b, a)
  {
    LexTotal(a.name, b.name);
  }

  lemma RankTransitive(a: Rank, b: Rank, c: Rank)
    requires RankLeq(a, b) && RankLeq(b, c)
    ensures RankLeq(a, c)
  {
    if LexLeq(a.name, b.name) && LexLeq(b.name, c.name) {
      LexTransitive(a.name, b.name, c.name);
    }
  }

  /** When the bag was made, or last changed if that is missing; a stored zero counts as missing. */
  function CreatedOrChanged(row: BagRow): int {
    if row.createdAt in {None, Some(0)} then row.updatedAt else row.createdAt.value
  }

  function RankOf(row: BagRow, liveItems: nat): Rank {
    Rank(liveItems, NormalizeSize(if row.sizeLiters == 0 then 46 else row.sizeLiters) != Some(L46),
         CreatedOrChanged(row), Lower(row.name))
  }

  predicate HasDefaultSize(row: BagRow) {
    row.sizeLiters in {0, 25, 44, 46}
  }

  /** Of two bags the one ranked first holds at least as many live items; if equally many, it has the
      default size if the other has; if that too is the same, it was created no later. */
  lemma RankMeans(a: BagRow, m: nat, b: BagRow, n: nat)
    requires RankLeq(RankOf(a, m), RankOf(b, n))
    ensures m >= n
    ensures m == n && HasDefaultSize(b) ==> HasDefaultSize(a)
    ensures m == n && (HasDefaultSize(a) <==> HasDefaultSize(b)) ==> CreatedOrChanged(a) <= CreatedOrChanged(b)
    ensures (m == n && (HasDefaultSize(a) <==> HasDefaultSize(b)) && a.createdAt.Some? && b.createdAt.Some?
             && a.createdAt.value != 0 && b.createdAt.value != 0) ==>
              a.createdAt.value <= b.createdAt.value
    ensures m == n && (HasDefaultSize(a) <==> HasDefaultSize(b)) && a.createdAt in {None, Some(0)} ==>
              a.updatedAt <= if b.createdAt in {None, Some(0)} then b.updatedAt else b.createdAt.value
    ensures m == n && (HasDefaultSize(a) <==> HasDefaultSize(b)) && CreatedOrChanged(a) == CreatedOrChanged(b) ==>
              LexLeq(Lower(a.name), Lower(b.name))
    ensures RankLeq(RankOf(b, n), RankOf(a, m)) ==> m == n && Lower(a.name) == Lower(b.name)
  {
    if LexLeq(Lower(a.name), Lower(b.name)) && LexLeq(Lower(b.name), Lower(a.name)) {
      LexAntisymmetric(Lower(a.name), Lower(b.name));
    }
  }
}
