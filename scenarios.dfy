/**
 * Worked cases of one annotation type ("Disease") in one document `doc`,
 * matched from fresh statistics under both policies: they show where strict
 * and relax matching agree and where boundary disagreements split them.
 */
module Scenarios {
  import opened Spans
  import opened Evaluation
  import opened StrictMatch
  import opened RelaxMatch
  import opened Comparison

  /** Identical spans: one true positive under both policies. */
  lemma ExactSpanMatchesUnderBoth(doc: string)
    ensures var x := Span("Disease", 10, 20, "fever");
      && TypeStep(Initial(), doc, [x], [x], true) == Initial().AddTp(1)
      && TypeStep(Initial(), doc, [x], [x], false) == Initial().AddTp(1)
  {
    var x := Span("Disease", 10, 20, "fever");
    assert SortByStart([x]) == [x];
    assert StrictLoop(Initial(), doc, [x], [x], 0, 0) == Walk(Initial().AddTp(1), 1, 1);
    assert StrictType(Initial(), doc, [x], [x]) == Initial().AddTp(1);
    assert Overlapping([x], x) == {0};
    assert RelaxLoop(Initial(), doc, [x], [x], 1) == Pass(Initial().AddTp(1), {0});
    assert Unclaimed({0}, 1) == [];
    assert RelaxType(Initial(), doc, [x], [x]) == Initial().AddTp(1);
  }

  /**
   * A system span that strictly contains the reference span: strict matching
   * reports one false positive and one false negative, and records both spans.
   */
  lemma ContainedSpanFailsStrict(doc: string)
    ensures var x, y := Span("Disease", 10, 20, "a fever"), Span("Disease", 12, 18, "fever");
      TypeStep(Initial(), doc, [x], [y], true) == Initial().AddFp(1).AppendFps(doc, [x]).AddFn(1).AppendFns(doc, [y])
  {
    var x, y := Span("Disease", 10, 20, "a fever"), Span("Disease", 12, 18, "fever");
    assert SortByStart([x]) == [x];
    assert SortByStart([y]) == [y];
    var afterFp := Initial().AddFp(1).AppendFps(doc, [x]);
    assert StrictLoop(Initial(), doc, [x], [y], 0, 0) == Walk(afterFp, 1, 0);
    assert [y][0..] == [y];
  }

  /** The same pair under relax matching: the overlap is one true positive. */
  lemma ContainedSpanPassesRelax(doc: string)
    ensures var x, y := Span("Disease", 10, 20, "a fever"), Span("Disease", 12, 18, "fever");
      TypeStep(Initial(), doc, [x], [y], false) == Initial().AddTp(1)
  {
    var x, y := Span("Disease", 10, 20, "a fever"), Span("Disease", 12, 18, "fever");
    assert Overlapping([x], y) == {0};
    assert RelaxLoop(Initial(), doc, [x], [y], 1) == Pass(Initial().AddTp(1), {0});
    assert Unclaimed({0}, 1) == [];
  }

  /** A reference span with no system span of its type: one false negative under both policies. */
  lemma MissedSpanUnderBoth(doc: string)
    ensures var y := Span("Disease", 5, 15, "cough");
      && TypeStep(Initial(), doc, [], [y], true) == Initial().AddFn(1).AppendFns(doc, [y])
      && TypeStep(Initial(), doc, [], [y], false) == Initial().AddFn(1).AppendFns(doc, [y])
  {
    var y := Span("Disease", 5, 15, "cough");
    assert SortByStart([y]) == [y];
    assert SortByStart([]) == [];
    assert [y][0..] == [y];
    assert StrictLoop(Initial(), doc, [], [y], 0, 0) == Walk(Initial(), 0, 0);
    assert StrictType(Initial(), doc, [], [y]) == Initial().AddFn(1).AppendFns(doc, [y]);
    assert Overlapping([], y) == {};
    assert RelaxLoop(Initial(), doc, [], [y], 1) == Pass(Initial().AddFn(1).AppendFns(doc, [y]), {});
    assert Unclaimed({}, 0) == [];
    assert RelaxType(Initial(), doc, [], [y]) == Initial().AddFn(1).AppendFns(doc, [y]);
  }

  /**
   * Two system spans that each overlap one reference span: strict matching
   * counts both as false positives and the reference span as a false negative.
   */
  lemma TwoOverlapsFailStrict(doc: string)
    ensures var x1, x2, y := Span("Disease", 0, 5, "flu"), Span("Disease", 10, 15, "fever"), Span("Disease", 3, 12, "the flu fever");
      TypeStep(Initial(), doc, [x1, x2], [y], true)
        == Initial().AddFp(1).AppendFps(doc, [x1]).AddFn(1).AppendFns(doc, [y]).AddFp(1).AppendFps(doc, [x2])
  {
    var x1, x2, y := Span("Disease", 0, 5, "flu"), Span("Disease", 10, 15, "fever"), Span("Disease", 3, 12, "the flu fever");
    assert SortByStart([x2]) == [x2];
    assert [x1, x2][1..] == [x2];
    assert SortByStart([x1, x2]) == [x1, x2];
    assert SortByStart([y]) == [y];
    var afterFp := Initial().AddFp(1).AppendFps(doc, [x1]);
    var afterFn := afterFp.AddFn(1).AppendFns(doc, [y]);
    assert StrictLoop(Initial(), doc, [x1, x2], [y], 0, 0) == StrictLoop(afterFp, doc, [x1, x2], [y], 1, 0);
    assert StrictLoop(afterFp, doc, [x1, x2], [y], 1, 0) == Walk(afterFn, 1, 1);
  }

  /** The same spans under relax matching: the reference span claims both with one true positive. */
  lemma TwoOverlapsPassRelax(doc: string)
    ensures var x1, x2, y := Span("Disease", 0, 5, "flu"), Span("Disease", 10, 15, "fever"), Span("Disease", 3, 12, "the flu fever");
      TypeStep(Initial(), doc, [x1, x2], [y], false) == Initial().AddTp(1)
  {
    var x1, x2, y := Span("Disease", 0, 5, "flu"), Span("Disease", 10, 15, "fever"), Span("Disease", 3, 12, "the flu fever");
    assert Overlapping([x1, x2], y) == {0, 1};
    assert RelaxLoop(Initial(), doc, [x1, x2], [y], 1) == Pass(Initial().AddTp(1), {0, 1});
    assert Unclaimed({0, 1}, 2) == [];
  }

  /**
   * Equal starts, different ends: strict matching counts the reference span
   * as a false negative and drops the system span uncounted, so `tp + fp`
   * stays below the number of system spans.
   */
  lemma TiedStartDropsSystemSpan(doc: string)
    ensures var x, y := Span("Disease", 10, 20, "a fever"), Span("Disease", 10, 15, "a fe");
      var r := TypeStep(Initial(), doc, [x], [y], true);
      && r == Initial().AddFn(1).AppendFns(doc, [y])
      && r.tp + r.fp < 1
  {
    var x, y := Span("Disease", 10, 20, "a fever"), Span("Disease", 10, 15, "a fe");
    assert SortByStart([x]) == [x];
    assert SortByStart([y]) == [y];
    var afterFn := Initial().AddFn(1).AppendFns(doc, [y]);
    assert StrictLoop(Initial(), doc, [x], [y], 0, 0) == Walk(afterFn, 1, 1);
  }
}
