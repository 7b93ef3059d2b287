/** How five weights become section readings and one percentage. */
module Percent {
  import opened Inventory

  const SECTION_COUNT := 5
  const SECTION_PERCENT := 20.0

  type Weights = w: seq<real> | |w| == SECTION_COUNT witness [0.0, 0.0, 0.0, 0.0, 0.0]

  /** The weight at which a section counts as full, and the least weight it reports. */
  datatype Scale = Scale(fullKg: real, thresholdKg: real)

  /** Five scales; configured values below zero are raised to zero when they are parsed. */
  type Config = c: seq<Scale> |
      |c| == SECTION_COUNT && forall k | 0 <= k < |c| :: c[k].fullKg >= 0.0 && c[k].thresholdKg >= 0.0
    witness [Scale(1.0, 0.05), Scale(1.0, 0.05), Scale(1.0, 0.05), Scale(1.0, 0.05), Scale(1.0, 0.05)]

  datatype Section = Section(
    index: int, scale: Scale, weightKg: Option<real>, detected: bool, fill: Option<real>, percent: Option<real>)

  function Min(a: real, b: real): real {
    if a <= b then a else b
  }

  function Max(a: real, b: real): real {
    if a >= b then a else b
  }

  function EmptySections(cfg: Config): seq<Section> {
    seq(SECTION_COUNT, k requires 0 <= k < SECTION_COUNT => Section(k + 1, cfg[k], None, false, None, None))
  }

  /** A full weight of zero stands for one kilogram. */
  function FullKg(scale: Scale): real {
    if scale.fullKg == 0.0 then 1.0 else scale.fullKg
  }

  function FillOf(scale: Scale, kg: real): real
    requires scale.fullKg >= 0.0
  {
    var current := Max(kg, 0.0);
    var effective := if current >= scale.thresholdKg then current else 0.0;
    Min(effective / FullKg(scale), 1.0)
  }

  function Measured(index: int, scale: Scale, kg: real): Section
    requires scale.fullKg >= 0.0
  {
    var fill := FillOf(scale, kg);
    Section(index, Scale(FullKg(scale), scale.thresholdKg), Some(Max(kg, 0.0)), Max(kg, 0.0) >= scale.thresholdKg,
            Some(fill), Some(fill * SECTION_PERCENT))
  }

  function MeasuredSections(cfg: Config, weights: Weights): seq<Section> {
    seq(SECTION_COUNT, k requires 0 <= k < SECTION_COUNT => Measured(k + 1, cfg[k], weights[k]))
  }

  function Share(s: Section): real {
    if s.percent.Some? then s.percent.value else 0.0
  }

  function TotalShare(sections: seq<Section>): real {
    if sections == [] then 0.0
    else TotalShare(sections[..|sections| - 1]) + Share(sections[|sections| - 1])
  }

  function Exact(sections: seq<Section>): real {
    Min(TotalShare(sections), 100.0)
  }

  /** Python's `round` to an integer: to the nearest, and to the even one from halfway. */
  function Round(x: real): int {
    var below := x.Floor;
    var rest := x - below as real;
    if rest < 0.5 || (rest == 0.5 && below % 2 == 0) then below else below + 1
  }

  function Total(sections: seq<Section>): int {
    var n := Round(Exact(sections));
    if n <= 100 then n else 100
  }

  /** `Round` gives the one integer that is nearest, or the even one of the two nearest. */
  lemma RoundIsNearestEven(x: real, n: int)
    ensures Round(x) == n <==>
              -0.5 < x - n as real < 0.5 || ((x - n as real == 0.5 || x - n as real == -0.5) && n % 2 == 0)
  {
    var below := x.Floor;
    if n < below {
      assert x - n as real >= 1.0;
    } else if n > below + 1 {
      assert n >= below + 2;
      assert x - n as real < -1.0;
    } else if n == below + 1 {
      assert (below + 1) as real == below as real + 1.0;
    }
  }

  lemma RoundIsMonotone(x: real, y: real)
    requires x <= y
    ensures Round(x) <= Round(y)
  {
    if x.Floor < y.Floor {
      assert Round(x) <= x.Floor + 1 <= y.Floor <= Round(y);
    }
  }

  lemma SignOfProduct(x: real, d: real)
    requires d > 0.0
    ensures x * d >= 0.0 <==> x >= 0.0
  {
  }

  lemma QuotientsOrdered(a: real, b: real, d: real)
    requires a <= b && d > 0.0
    ensures a / d <= b / d
  {
    var x := b / d - a / d;
    assert x * d == (b / d) * d - (a / d) * d == b - a;
    SignOfProduct(x, d);
  }

  /** Below its threshold a section counts as empty; from its full weight on it counts as full, and in
      between as full as the share of its full weight that lies on it. */
  lemma FillInPlainTerms(scale: Scale, kg: real)
    requires scale.fullKg >= 0.0 && scale.thresholdKg >= 0.0
    ensures var full := if scale.fullKg == 0.0 then 1.0 else scale.fullKg;
            && (kg < scale.thresholdKg || kg <= 0.0 ==> FillOf(scale, kg) == 0.0)
            && (kg >= scale.thresholdKg && kg >= full ==> FillOf(scale, kg) == 1.0)
            && (kg >= scale.thresholdKg && 0.0 <= kg <= full ==> FillOf(scale, kg) * full == kg)
  {
    var full := FullKg(scale);
    assert 0.0 / full == 0.0;
    QuotientReachesOne(Max(kg, 0.0), full);
    QuotientTimes(kg, full);
    if kg == full {
      assert full / full == 1.0;
    }
  }

  lemma QuotientTimes(a: real, b: real)
    requires b > 0.0
    ensures (a / b) * b == a
  {
  }

  /** What a section adds to the percentage, said without the measuring functions: nothing below its threshold,
      20 points from its full weight on, and in between 20 times the share of its full weight. */
  function Points(scale: Scale, kg: real): real
    requires scale.fullKg >= 0.0
  {
    var full := if scale.fullKg == 0.0 then 1.0 else scale.fullKg;
    if kg < scale.thresholdKg || kg <= 0.0 then 0.0 else if kg >= full then 20.0 else 20.0 * (kg / full)
  }

  lemma PointsAreShares(scale: Scale, kg: real, index: int)
    requires scale.fullKg >= 0.0 && scale.thresholdKg >= 0.0
    ensures Share(Measured(index, scale, kg)) == Points(scale, kg) <= 20.0
  {
    var full := FullKg(scale);
    FillIsMonotone(scale, kg, kg);
    FillInPlainTerms(scale, kg);
    if !(kg < scale.thresholdKg || kg <= 0.0) && kg < full {
      QuotientReachesOne(kg, full);
    }
  }

  lemma TotalOfFive(s: seq<Section>)
    requires |s| == SECTION_COUNT
    ensures TotalShare(s) == Share(s[0]) + Share(s[1]) + Share(s[2]) + Share(s[3]) + Share(s[4])
  {
    var four, three, two, one := s[..4], s[..3], s[..2], s[..1];
    assert four[..3] == three && three[..2] == two && two[..1] == one && one[..0] == [];
    assert TotalShare(s) == TotalShare(four) + Share(s[4]);
    assert TotalShare(four) == TotalShare(three) + Share(s[3]);
    assert TotalShare(three) == TotalShare(two) + Share(s[2]);
    assert TotalShare(two) == TotalShare(one) + Share(s[1]);
    assert TotalShare(one) == TotalShare([]) + Share(s[0]);
  }

  /** The exact percentage is the sum of the five sections' points; each section shows its weight, whether it
      reached its threshold, and its points. */
  ghost predicate ShowsWeights(cfg: Config, weights: Weights, sections: seq<Section>, exact: real) {
    && |sections| == SECTION_COUNT
    && (forall k | 0 <= k < SECTION_COUNT ::
          && sections[k].index == k + 1
          && sections[k].weightKg == Some(if weights[k] > 0.0 then weights[k] else 0.0)
          && (sections[k].detected <==> weights[k] >= cfg[k].thresholdKg || cfg[k].thresholdKg == 0.0)
          && sections[k].scale
             == Scale(if cfg[k].fullKg == 0.0 then 1.0 else cfg[k].fullKg, cfg[k].thresholdKg)
          && sections[k].fill.Some? && sections[k].fill.value * 20.0 == Points(cfg[k], weights[k])
          && sections[k].percent == Some(Points(cfg[k], weights[k])))
    && exact == Points(cfg[0], weights[0]) + Points(cfg[1], weights[1]) + Points(cfg[2], weights[2])
                + Points(cfg[3], weights[3]) + Points(cfg[4], weights[4])
  }

  lemma MeasuredShowsWeights(cfg: Config, weights: Weights)
    ensures ShowsWeights(cfg, weights, MeasuredSections(cfg, weights), Exact(MeasuredSections(cfg, weights)))
  {
    hide FillOf, Points;
    var sections := MeasuredSections(cfg, weights);
    forall k | 0 <= k < SECTION_COUNT
      ensures Share(sections[k]) == Points(cfg[k], weights[k]) <= 20.0
    {
      PointsAreShares(cfg[k], weights[k], k + 1);
    }
    TotalOfFive(sections);
  }

  /** With every weight between its threshold and its full weight, the exact percentage is 20 times the sum of
      the shares, a full weight of zero standing for one kilogram. */
  lemma ExactIsTwentyTimesShares(cfg: Config, weights: Weights)
    requires forall k | 0 <= k < SECTION_COUNT ::
               cfg[k].thresholdKg <= weights[k] <= if cfg[k].fullKg == 0.0 then 1.0 else cfg[k].fullKg
    ensures var full := k requires 0 <= k < SECTION_COUNT => if cfg[k].fullKg == 0.0 then 1.0 else cfg[k].fullKg;
            Exact(MeasuredSections(cfg, weights))
            == 20.0 * (weights[0] / full(0) + weights[1] / full(1) + weights[2] / full(2) + weights[3] / full(3)
                       + weights[4] / full(4))
  {
    MeasuredShowsWeights(cfg, weights);
    forall k | 0 <= k < SECTION_COUNT
      ensures Points(cfg[k], weights[k]) == 20.0 * (weights[k] / if cfg[k].fullKg == 0.0 then 1.0 else cfg[k].fullKg)
    {
      PointsInBetween(cfg[k], weights[k]);
    }
  }

  lemma PointsInBetween(scale: Scale, kg: real)
    requires 0.0 <= scale.thresholdKg <= kg && scale.fullKg >= 0.0
    requires kg <= if scale.fullKg == 0.0 then 1.0 else scale.fullKg
    ensures Points(scale, kg) == 20.0 * (kg / if scale.fullKg == 0.0 then 1.0 else scale.fullKg)
  {
    var full := FullKg(scale);
    assert 0.0 / full == 0.0 && full / full == 1.0;
  }

  /** More weight never fills a section less, and a section is filled between none and all of it. */
  lemma FillIsMonotone(scale: Scale, kg: real, more: real)
    requires scale.fullKg >= 0.0 && kg <= more
    ensures 0.0 <= FillOf(scale, kg) <= FillOf(scale, more) <= 1.0
  {
    var a := if Max(kg, 0.0) >= scale.thresholdKg then Max(kg, 0.0) else 0.0;
    var b := if Max(more, 0.0) >= scale.thresholdKg then Max(more, 0.0) else 0.0;
    assert 0.0 / FullKg(scale) == 0.0;
    QuotientsOrdered(0.0, a, FullKg(scale));
    QuotientsOrdered(a, b, FullKg(scale));
  }

  lemma {:induction false} SharesOrdered(s: seq<Section>, t: seq<Section>)
    requires |s| == |t|
    requires forall k | 0 <= k < |s| :: 0.0 <= Share(s[k]) <= Share(t[k]) <= SECTION_PERCENT
    ensures 0.0 <= TotalShare(s) <= TotalShare(t) <= |s| as real * SECTION_PERCENT
  {
    if s == [] {
    } else {
      SharesOrdered(s[..|s| - 1], t[..|t| - 1]);
    }
  }

  /** The percentage lies in 0..100 and within half a point of the exact value, for any weights. */
  lemma TotalIsNearExact(cfg: Config, weights: Weights)
    ensures var sections := MeasuredSections(cfg, weights);
            && 0 <= Total(sections) <= 100
            && 0.0 <= Exact(sections) <= 100.0
            && -0.5 <= Total(sections) as real - Exact(sections) <= 0.5
  {
    var sections := MeasuredSections(cfg, weights);
    forall k | 0 <= k < SECTION_COUNT
      ensures 0.0 <= Share(sections[k]) <= SECTION_PERCENT
    {
      FillIsMonotone(cfg[k], weights[k], weights[k]);
    }
    SharesOrdered(sections, sections);
    RoundIsMonotone(0.0, Exact(sections));
    RoundIsMonotone(Exact(sections), 100.0);
  }

  /** Putting more weight on any sections never lowers the percentage. */
  lemma TotalIsMonotone(cfg: Config, weights: Weights, more: Weights)
    requires forall k | 0 <= k < SECTION_COUNT :: weights[k] <= more[k]
    ensures Total(MeasuredSections(cfg, weights)) <= Total(MeasuredSections(cfg, more))
  {
    var s, t := MeasuredSections(cfg, weights), MeasuredSections(cfg, more);
    forall k | 0 <= k < SECTION_COUNT
      ensures 0.0 <= Share(s[k]) <= Share(t[k]) <= SECTION_PERCENT
    {
      FillIsMonotone(cfg[k], weights[k], more[k]);
    }
    SharesOrdered(s, t);
    RoundIsMonotone(Exact(s), Exact(t));
  }

  lemma {:induction false} SharesReachTop(s: seq<Section>)
    requires forall k | 0 <= k < |s| :: 0.0 <= Share(s[k]) <= SECTION_PERCENT
    ensures TotalShare(s) == |s| as real * SECTION_PERCENT <==>
              forall k | 0 <= k < |s| :: Share(s[k]) == SECTION_PERCENT
  {
    if s == [] {
    } else {
      var front := s[..|s| - 1];
      SharesOrdered(front, front);
      SharesReachTop(front);
      assert forall k | 0 <= k < |front| :: front[k] == s[k];
    }
  }

  lemma FilledExactly(scale: Scale, kg: real)
    requires scale.fullKg >= 0.0
    ensures FillOf(scale, kg) == 1.0 <==> kg >= FullKg(scale) && kg >= scale.thresholdKg
  {
    var full := FullKg(scale);
    var effective := if Max(kg, 0.0) >= scale.thresholdKg then Max(kg, 0.0) else 0.0;
    QuotientReachesOne(effective, full);
  }

  lemma QuotientReachesOne(a: real, b: real)
    requires b > 0.0
    ensures a / b >= 1.0 <==> a >= b
  {
    assert (a / b - 1.0) * b == (a / b) * b - b == a - b;
    SignOfProduct(a / b - 1.0, b);
  }

  /** The exact value is 100 exactly when every section holds its full weight and reaches its threshold. */
  lemma FullExactly(cfg: Config, weights: Weights)
    ensures Exact(MeasuredSections(cfg, weights)) == 100.0 <==>
              forall k | 0 <= k < SECTION_COUNT :: weights[k] >= FullKg(cfg[k]) && weights[k] >= cfg[k].thresholdKg
  {
    var sections := MeasuredSections(cfg, weights);
    forall k | 0 <= k < SECTION_COUNT
      ensures 0.0 <= Share(sections[k]) <= SECTION_PERCENT
      ensures Share(sections[k]) == SECTION_PERCENT <==>
                weights[k] >= FullKg(cfg[k]) && weights[k] >= cfg[k].thresholdKg
    {
      FillIsMonotone(cfg[k], weights[k], weights[k]);
      FilledExactly(cfg[k], weights[k]);
    }
    SharesOrdered(sections, sections);
    SharesReachTop(sections);
  }
}
