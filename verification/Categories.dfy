/** Category text as the Pi server reads it: exact spellings first, then keywords. */
module Categories {
  import opened Text
  import opened Inventory

  function NameOf(category: Category): string {
    match category
    case WaterFood => "Water & Food"
    case MedicalHealth => "Medical & Health"
    case LightCommunication => "Light & Communication"
    case ToolsProtection => "Tools & Protection"
    case Hygiene => "Hygiene"
    case Other => "Other"
  }

  function Classify(raw: string): Category {
    var value := Lower(Strip(raw));
    if value in {"water & food", "water_food", "water-food"} then WaterFood
    else if value in {"medical & health", "medical_health", "medical-health"} then MedicalHealth
    else if value in {"light & communication", "light_communication", "light-communication"} then LightCommunication
    else if value in {"tools & protection", "tools_protection", "tools-protection"} then ToolsProtection
    else if value == "hygiene" then Hygiene
    else if value == "other" then Other
    else ClassifyByKeyword(value)
  }

  function ClassifyByKeyword(value: string): Category {
    if ContainsAny(value, ["food", "water", "hydration", "drink"]) then WaterFood
    else if ContainsAny(value, ["med", "health", "first aid", "first-aid", "sanit"]) then MedicalHealth
    else if ContainsAny(value, ["light", "radio", "whistle", "communication"]) then LightCommunication
    else if ContainsAny(value, ["tool", "protection", "map", "duct tape", "blanket", "poncho"]) then ToolsProtection
    else if ContainsAny(value, ["hygiene", "toilet", "soap"]) then Hygiene
    else Other
  }

  function NormalizeCategoryName(raw: string): string {
    NameOf(Classify(raw))
  }

  /** Category text as the merge sees it. */
  function ParseCategory(raw: string): CategoryText {
    if raw == NormalizeCategoryName(raw) then Named(Classify(raw)) else Free(raw, Classify(raw))
  }

  lemma LowerIs(s: string, lowered: string)
    requires |s| == |lowered| && forall i | 0 <= i < |s| :: LowerChar(s[i]) == lowered[i]
    ensures Lower(s) == lowered
  {
  }

  function ExactSpelling(category: Category): string {
    match category
    case WaterFood => "water & food"
    case MedicalHealth => "medical & health"
    case LightCommunication => "light & communication"
    case ToolsProtection => "tools & protection"
    case Hygiene => "hygiene"
    case Other => "other"
  }

  lemma LowerName(category: Category)
    ensures Lower(NameOf(category)) == ExactSpelling(category)
  {
    match category {
      case WaterFood => LowerIs("Water & Food", "water & food");
      case MedicalHealth => LowerIs("Medical & Health", "medical & health");
      case LightCommunication => LowerIs("Light & Communication", "light & communication");
      case ToolsProtection => LowerIs("Tools & Protection", "tools & protection");
      case Hygiene => LowerIs("Hygiene", "hygiene");
      case Other => LowerIs("Other", "other");
    }
  }

  /** Ordering categories by rank is ordering them by name. */
  lemma RankIsAlphabetical(a: Category, b: Category)
    ensures LexLeq(NameOf(a), NameOf(b)) <==> AlphabeticalRank(a) <= AlphabeticalRank(b)
  {
    if a == b {
      LexTotal(NameOf(a), NameOf(a));
    } else {
      assert NameOf(a)[0] < NameOf(b)[0] <==> AlphabeticalRank(a) < AlphabeticalRank(b);
      assert NameOf(a)[0] != NameOf(b)[0];
    }
  }

  /** Every canonical name is read back as its own category, so normalising is idempotent. */
  lemma NamesAreFixedPoints(category: Category)
    ensures Classify(NameOf(category)) == category
  {
    LowerName(category);
    assert Trimmed(NameOf(category));
    TrimmedIsStripped(NameOf(category));
  }

  lemma NormalizeIsIdempotent(raw: string)
    ensures NormalizeCategoryName(NormalizeCategoryName(raw)) == NormalizeCategoryName(raw)
  {
    NamesAreFixedPoints(Classify(raw));
  }

  function TextOf(parsed: CategoryText): string {
    match parsed
    case Named(category) => NameOf(category)
    case Free(text, _) => text
  }

  /** Comparing and normalising parsed categories is comparing and normalising their text. */
  lemma ParsedCategoriesStandForText(a: string, b: string)
    ensures TextOf(ParseCategory(a)) == a
    ensures ParseCategory(a) == ParseCategory(b) <==> a == b
    ensures TextOf(NormalizeCategory(ParseCategory(a))) == NormalizeCategoryName(a)
    ensures NormalizeCategory(ParseCategory(a)) == ParseCategory(NormalizeCategoryName(a))
  {
    NormalizeIsIdempotent(a);
    NamesAreFixedPoints(Classify(a));
  }
}
