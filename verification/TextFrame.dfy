/** Gathering the ESP32's text block: section lines between a header and a footer. A line arrives
    here already told apart by its pattern. */
module TextFrame {
  import opened Inventory
  import opened Percent

  type Index = i: int | 1 <= i <= SECTION_COUNT witness 1

  /** What a section line reports: a weight in kilograms, or that there is none to be had. */
  datatype Report = Weight(kg: real) | Problem

  datatype Line = Header | SectionLine(index: Index, report: Report) | Footer | OtherText

  datatype Frame = Frame(active: bool, seen: set<Index>, weights: map<Index, real>, errors: set<Index>)

  const NO_FRAME := Frame(false, {}, map[], {})

  datatype Outcome = NotConsumed | Consumed | Broken | Complete(weights: Weights)

  const ALL: set<Index> := set i: Index | 1 <= i <= SECTION_COUNT

  predicate Usable(f: Frame) {
    f.errors == {} && f.weights.Keys == ALL
  }

  function InOrder(m: map<Index, real>): Weights
    requires m.Keys == ALL
  {
    assert forall i: Index :: i in ALL;
    seq(SECTION_COUNT, k requires 0 <= k < SECTION_COUNT => var i: Index := k + 1; m[i])
  }

  function Finalized(f: Frame): Outcome {
    if !f.active then Consumed else if Usable(f) then Complete(InOrder(f.weights)) else Broken
  }

  function WithSection(f: Frame, index: Index, report: Report): Frame {
    var started := if f.active then f else NO_FRAME.(active := true);
    var seen := started.(seen := started.seen + {index});
    match report
    case Weight(kg) => seen.(weights := seen.weights[index := Max(kg, 0.0)])
    case Problem => seen.(errors := seen.errors + {index})
  }

  /** The frame after a line, and what the line brought about. */
  function Consume(f: Frame, line: Line): (Frame, Outcome) {
    match line
    case Header => (NO_FRAME.(active := true), Consumed)
    case SectionLine(index, report) =>
      var g := WithSection(f, index, report);
      if |g.seen| == SECTION_COUNT then (NO_FRAME, Finalized(g)) else (g, Consumed)
    case Footer => if f.active then (NO_FRAME, Finalized(f)) else (f, NotConsumed)
    case OtherText => (f, if f.active then Consumed else NotConsumed)
  }

  function FrameAfter(lines: seq<Line>): Frame {
    if lines == [] then NO_FRAME else Consume(FrameAfter(lines[..|lines| - 1]), lines[|lines| - 1]).0
  }

  /** What the last line brought about. */
  function OutcomeOf(lines: seq<Line>): Outcome
    requires lines != []
  {
    Consume(FrameAfter(lines[..|lines| - 1]), lines[|lines| - 1]).1
  }

  // The same, told from the lines alone: which reports belong to the pending frame.

  type Reports = seq<(Index, Report)>

  function Indices(p: Reports): set<Index> {
    set e | e in p :: e.0
  }

  /** The section reports received since the last reset: a header, a footer and a fifth distinct
      section each reset the frame, and no other line does. */
  function Pending(lines: seq<Line>): Reports {
    if lines == [] then []
    else
      var before, last := Pending(lines[..|lines| - 1]), lines[|lines| - 1];
      match last
      case Header => []
      case SectionLine(i, report) => if Indices(before + [(i, report)]) == ALL then [] else before + [(i, report)]
      case Footer => []
      case OtherText => before
  }

  /** The weight last reported for section `i`, not below zero. */
  function LastKg(p: Reports, i: Index): Option<real> {
    if p == [] then None
    else
      var last := p[|p| - 1];
      if last.0 == i && last.1.Weight? then Some(Max(last.1.kg, 0.0)) else LastKg(p[..|p| - 1], i)
  }

  /** The frame built up step by step holds what the reports since the last reset say. */
  ghost predicate Holds(f: Frame, p: Reports) {
    && f.seen == Indices(p)
    && (forall i: Index :: i in f.errors <==> (i, Problem) in p)
    && (forall i: Index :: Find(f.weights, i) == LastKg(p, i))
    && (p != [] ==> f.active)
  }

  lemma SubsetIsSmaller<T>(s: set<T>, t: set<T>)
    requires s < t
    ensures |s| < |t|
  {
    assert t == s + (t - s);
    assert t - s != {};
  }

  lemma AllFive(s: set<Index>)
    ensures |s| <= SECTION_COUNT
    ensures |s| == SECTION_COUNT <==> s == ALL
  {
    var five: set<Index> := {1, 2, 3, 4, 5};
    assert ALL == five && |five| == SECTION_COUNT;
    assert s <= ALL;
    if s != ALL {
      SubsetIsSmaller(s, ALL);
    }
  }

  lemma SectionKeepsHold(f: Frame, p: Reports, i: Index, report: Report)
    requires Holds(f, p) && (!f.active ==> f == NO_FRAME)
    ensures Holds(WithSection(f, i, report), p + [(i, report)])
  {
    var q := p + [(i, report)];
    assert q[..|p|] == p;
    assert forall e :: e in q <==> e in p || e == (i, report);
    IndicesGrow(p, (i, report));
  }

  /** After any lines the frame is exactly what the reports since the last reset make it, and fewer
      than five sections are pending. */
  lemma {:induction false} FrameTellsPending(lines: seq<Line>)
    ensures var f := FrameAfter(lines);
            && Holds(f, Pending(lines)) && (!f.active ==> f == NO_FRAME) && |f.seen| < SECTION_COUNT
  {
    if lines == [] {
    } else {
      var front, last := lines[..|lines| - 1], lines[|lines| - 1];
      FrameTellsPending(front);
      if last.SectionLine? {
        var p := Pending(front) + [(last.index, last.report)];
        SectionKeepsHold(FrameAfter(front), Pending(front), last.index, last.report);
        AllFive(Indices(p));
      }
    }
  }

  lemma {:induction false} KnownWeights(p: Reports)
    requires forall e | e in p :: e.1.Weight?
    ensures forall i: Index :: LastKg(p, i).Some? <==> i in Indices(p)
  {
    if p == [] {
    } else {
      var front, last := p[..|p| - 1], p[|p| - 1];
      assert p == front + [last];
      assert forall e :: e in p <==> e in front || e == last;
      KnownWeights(front);
      IndicesGrow(front, last);
    }
  }

  lemma IndicesGrow(p: Reports, e: (Index, Report))
    ensures Indices(p + [e]) == Indices(p) + {e.0}
  {
    assert forall d :: d in p + [e] <==> d in p || d == e;
    forall i | i in Indices(p) + {e.0}
      ensures i in Indices(p + [e])
    {
      if i == e.0 {
        assert e in p + [e];
      } else {
        var d :| d in p && d.0 == i;
        assert d in p + [e];
      }
    }
  }

  lemma UsableExactly(f: Frame, p: Reports)
    requires Holds(f, p)
    ensures Usable(f) <==> Indices(p) == ALL && forall e | e in p :: e.1.Weight?
  {
    if f.errors == {} {
      forall e | e in p
        ensures e.1.Weight?
      {
        assert e.1.Problem? ==> (e.0, Problem) == e;
      }
      KnownWeights(p);
      assert forall i: Index :: i in f.weights <==> Find(f.weights, i).Some?;
      assert forall i: Index :: i in f.weights.Keys <==> i in Indices(p);
      assert f.weights.Keys == Indices(p);
    } else {
      var i :| i in f.errors;
      assert (i, Problem) in p;
    }
  }

  lemma UsableWeights(f: Frame, p: Reports)
    requires Holds(f, p) && Usable(f)
    ensures f.weights.Keys == ALL
    ensures forall i: Index :: LastKg(p, i) == Some(InOrder(f.weights)[i - 1])
  {
    assert forall i: Index :: i in ALL;
    assert forall i: Index :: Find(f.weights, i) == LastKg(p, i);
  }

  /** The reports of the frame that the last line closes, if it is a section line. */
  function Closed(lines: seq<Line>): Reports
    requires lines != [] && lines[|lines| - 1].SectionLine?
  {
    var last := lines[|lines| - 1];
    Pending(lines[..|lines| - 1]) + [(last.index, last.report)]
  }

  /** A line completes a reading exactly when it is a section line, it makes the fifth distinct section
      since the last reset, and no line since then reported a problem. The five weights are the last
      ones reported since the reset; a footer never completes a reading. */
  lemma CompletesExactly(lines: seq<Line>)
    requires lines != []
    ensures OutcomeOf(lines).Complete? <==>
              && lines[|lines| - 1].SectionLine?
              && Indices(Closed(lines)) == ALL
              && forall e | e in Closed(lines) :: e.1.Weight?
    ensures OutcomeOf(lines).Complete? ==>
              forall i: Index :: LastKg(Closed(lines), i) == Some(OutcomeOf(lines).weights[i - 1])
  {
    hide Pending, FrameAfter, LastKg, Indices, WithSection, Usable;
    var front, last := lines[..|lines| - 1], lines[|lines| - 1];
    var f := FrameAfter(front);
    FrameTellsPending(front);
    AllFive(f.seen);
    if last.SectionLine? {
      var p, g := Closed(lines), WithSection(f, last.index, last.report);
      SectionKeepsHold(f, Pending(front), last.index, last.report);
      AllFive(g.seen);
      UsableExactly(g, p);
      if Usable(g) {
        UsableWeights(g, p);
      }
    } else {
      UsableExactly(f, Pending(front));
    }
  }

  /** Whether the lines leave a frame open: a header or a section line opens one, and a footer or the fifth
      distinct section closes it. */
  predicate IsOpen(lines: seq<Line>) {
    && lines != []
    && var front, last := lines[..|lines| - 1], lines[|lines| - 1];
       match last
       case Header => true
       case SectionLine(i, report) => Indices(Pending(front) + [(i, report)]) != ALL
       case Footer => false
       case OtherText => IsOpen(front)
  }

  lemma {:induction false} OpenExactly(lines: seq<Line>)
    ensures FrameAfter(lines).active <==> IsOpen(lines)
  {
    hide Pending, Indices, Usable;
    if lines == [] {
    } else {
      var front, last := lines[..|lines| - 1], lines[|lines| - 1];
      OpenExactly(front);
      if last.SectionLine? {
        FrameTellsPending(front);
        SectionKeepsHold(FrameAfter(front), Pending(front), last.index, last.report);
        AllFive(WithSection(FrameAfter(front), last.index, last.report).seen);
      }
    }
  }

  /** The other two answers. A frame is given up when its fifth section arrives and some section reported a
      problem, or when a footer ends it early. A line is left to the other parsers when no frame is open and
      it is neither a header nor a section line. */
  lemma BrokenExactly(lines: seq<Line>)
    requires lines != []
    ensures var front, last := lines[..|lines| - 1], lines[|lines| - 1];
            && (OutcomeOf(lines).Broken? <==>
                  || (last.Footer? && IsOpen(front))
                  || (last.SectionLine? && Indices(Closed(lines)) == ALL
                      && exists e :: e in Closed(lines) && e.1.Problem?))
            && (OutcomeOf(lines).NotConsumed? <==> (last.Footer? || last.OtherText?) && !IsOpen(front))
  {
    hide Pending, FrameAfter, Indices, WithSection, Usable;
    var front, last := lines[..|lines| - 1], lines[|lines| - 1];
    var f := FrameAfter(front);
    OpenExactly(front);
    FrameTellsPending(front);
    if last.SectionLine? {
      var p, g := Closed(lines), WithSection(f, last.index, last.report);
      SectionKeepsHold(f, Pending(front), last.index, last.report);
      AllFive(g.seen);
      UsableExactly(g, p);
    } else {
      AllFive(f.seen);
      UsableExactly(f, Pending(front));
    }
  }

  /** The section lines among `lines`. */
  function Sections(lines: seq<Line>): Reports {
    if lines == [] then []
    else
      var last := lines[|lines| - 1];
      Sections(lines[..|lines| - 1]) + if last.SectionLine? then [(last.index, last.report)] else []
  }

  predicate NoBoundary(lines: seq<Line>) {
    forall k | 0 <= k < |lines| :: lines[k].SectionLine? || lines[k].OtherText?
  }

  lemma {:induction false} IndicesBound(p: Reports)
    ensures |Indices(p)| <= |p|
  {
    if p == [] {
    } else {
      var front, last := p[..|p| - 1], p[|p| - 1];
      assert p == front + [last];
      IndicesBound(front);
      IndicesGrow(front, last);
    }
  }

  lemma {:induction false} FewSectionsStayPending(before: seq<Line>, lines: seq<Line>)
    requires Pending(before) == [] && NoBoundary(lines) && |Sections(lines)| < SECTION_COUNT
    ensures Pending(before + lines) == Sections(lines)
    decreases |lines|
  {
    hide Indices;
    if lines == [] {
      assert before + lines == before;
    } else {
      var front, all := lines[..|lines| - 1], before + lines;
      assert all[..|all| - 1] == before + front && all[|all| - 1] == lines[|lines| - 1];
      FewSectionsStayPending(before, front);
      IndicesBound(Sections(lines));
      AllFive(Indices(Sections(lines)));
    }
  }

  lemma {:induction false} OnlyWeightFound(p: Reports, kg: Weights, i: Index)
    requires i in Indices(p) && forall e | e in p :: e.1 == Weight(kg[e.0 - 1])
    ensures LastKg(p, i) == Some(Max(kg[i - 1], 0.0))
  {
    var front, last := p[..|p| - 1], p[|p| - 1];
    assert p == front + [last] && last in p;
    assert forall e | e in front :: e in p;
    IndicesGrow(front, last);
    if last.0 == i {
    } else {
      OnlyWeightFound(front, kg, i);
    }
  }

  /** Five section lines for five sections, each with its weight, and other text between them. */
  predicate FiveGoodLines(lines: seq<Line>, kg: Weights) {
    && lines != [] && lines[|lines| - 1].SectionLine? && NoBoundary(lines)
    && |Sections(lines)| == SECTION_COUNT && Indices(Sections(lines)) == ALL
    && forall e | e in Sections(lines) :: e.1 == Weight(kg[e.0 - 1])
  }

  /** Just after a reset, five good lines give the same five weights in whatever order they come and
      whatever other text comes between them. */
  lemma AnyOrderGivesTheSameWeights(before: seq<Line>, lines: seq<Line>, kg: Weights)
    requires Pending(before) == [] && FiveGoodLines(lines, kg)
    ensures OutcomeOf(before + lines)
            == Complete(seq(SECTION_COUNT, k requires 0 <= k < SECTION_COUNT => Max(kg[k], 0.0)))
  {
    hide Indices, LastKg, Pending, FrameAfter, OutcomeOf;
    var front, all := lines[..|lines| - 1], before + lines;
    assert all[..|all| - 1] == before + front && all[|all| - 1] == lines[|lines| - 1];
    assert |Sections(lines)| == |Sections(front)| + 1;
    FewSectionsStayPending(before, front);
    assert Closed(all) == Sections(lines);
    CompletesExactly(all);
    var ws := OutcomeOf(all).weights;
    forall k | 0 <= k < SECTION_COUNT
      ensures ws[k] == Max(kg[k], 0.0)
    {
      var i: Index := k + 1;
      assert i in ALL;
      OnlyWeightFound(Closed(all), kg, i);
      assert LastKg(Closed(all), i) == Some(ws[i - 1]);
    }
  }
}
