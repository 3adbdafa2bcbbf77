/**
 * Strict matching (`strict_compare_one_doc`, compare_utils.py:144-189): two
 * spans match only when both offsets are equal.  Both span lists are stably
 * sorted by start offset and walked with one cursor each.
 */
module StrictMatch {
  import opened Spans
  import opened Evaluation

  /** The statistics and the two cursors when the two-pointer loop stops. */
  datatype Walk = Walk(st: Stats, p1: nat, p2: nat)

  /**
   * The `while` loop over the sorted system spans `a1` (cursor `p1`) and the
   * sorted reference spans `a2` (cursor `p2`).  Every step advances at least
   * one cursor, and the loop stops once either side is used up.
   */
  function StrictLoop(st: Stats, doc: string, a1: seq<Span>, a2: seq<Span>, p1: nat, p2: nat): (w: Walk)
    requires p1 <= |a1| && p2 <= |a2|
    ensures p1 <= w.p1 <= |a1| && p2 <= w.p2 <= |a2|
    ensures w.p1 == |a1| || w.p2 == |a2|
    decreases |a1| - p1 + |a2| - p2
  {
    if p1 < |a1| && p2 < |a2| then
      var x, y := a1[p1], a2[p2];
      if x.start == y.start then
        if x.end == y.end then StrictLoop(st.AddTp(1), doc, a1, a2, p1 + 1, p2 + 1)
        // same start, different end: the reference span is the miss; the system span is dropped
        else StrictLoop(st.AddFn(1).AppendFns(doc, [y]), doc, a1, a2, p1 + 1, p2 + 1)
      else if x.start < y.start then StrictLoop(st.AddFp(1).AppendFps(doc, [x]), doc, a1, a2, p1 + 1, p2)
      else StrictLoop(st.AddFn(1).AppendFns(doc, [y]), doc, a1, a2, p1, p2 + 1)
    else Walk(st, p1, p2)
  }

  /**
   * After the loop, corrected: unconsumed system spans are false positives
   * recorded with `append_fps`, unconsumed reference spans false negatives
   * recorded with `append_fns`.
   */
  function Leftover(doc: string, a1: seq<Span>, a2: seq<Span>, w: Walk): Stats
    requires w.p1 <= |a1| && w.p2 <= |a2|
  {
    if w.p1 < |a1| then w.st.AddFp(|a1| - w.p1).AppendFps(doc, a1[w.p1..])
    else if w.p2 < |a2| then w.st.AddFn(|a2| - w.p2).AppendFns(doc, a2[w.p2..])
    else w.st
  }

  /** How the code after the loop ends as written: normally, or failing on the missing `add_fps` method. */
  datatype TailOutcome = Finished(st: Stats) | MissingAttribute(counted: Stats)

  /**
   * After the loop, as written: the counter is raised and then `evaluator.add_fps`
   * is called, which `Evaluator` does not define, so the call fails with the
   * counter already raised and no evidence recorded.
   */
  function LeftoverAsWritten(a1: seq<Span>, a2: seq<Span>, w: Walk): (r: TailOutcome)
    requires w.p1 <= |a1| && w.p2 <= |a2|
    ensures r.MissingAttribute? <==> w.p1 < |a1| || w.p2 < |a2|
    ensures r.Finished? ==> r.st == w.st
    ensures r.MissingAttribute? ==> r.counted.fps == w.st.fps && r.counted.fns == w.st.fns
  {
    if w.p1 < |a1| then MissingAttribute(w.st.AddFp(|a1| - w.p1))
    else if w.p2 < |a2| then MissingAttribute(w.st.AddFn(|a2| - w.p2))
    else Finished(w.st)
  }

  /** One annotation type of one document, corrected. */
  function StrictType(st: Stats, doc: string, sys: seq<Span>, ref: seq<Span>): Stats {
    if ref == [] then st.AddFp(|sys|)
    else
      var a1, a2 := SortByStart(sys), SortByStart(ref);
      Leftover(doc, a1, a2, StrictLoop(st, doc, a1, a2, 0, 0))
  }

  /** One annotation type of one document, as written. */
  function StrictTypeAsWritten(st: Stats, doc: string, sys: seq<Span>, ref: seq<Span>): TailOutcome {
    if ref == [] then Finished(st.AddFp(|sys|))
    else
      var a1, a2 := SortByStart(sys), SortByStart(ref);
      LeftoverAsWritten(a1, a2, StrictLoop(st, doc, a1, a2, 0, 0))
  }

  /** Per step of the loop: a tp raises tp + fn and tp + fp by one, an fn only tp + fn, an fp only tp + fp. */
  lemma {:induction false} StrictLoopCounts(st: Stats, doc: string, a1: seq<Span>, a2: seq<Span>, p1: nat, p2: nat)
    requires p1 <= |a1| && p2 <= |a2|
    ensures var w := StrictLoop(st, doc, a1, a2, p1, p2);
      && w.st.tp + w.st.fn == st.tp + st.fn + (w.p2 - p2)
      && w.st.tp + w.st.fp <= st.tp + st.fp + (w.p1 - p1)
      && st.tp <= w.st.tp && st.fp <= w.st.fp && st.fn <= w.st.fn && w.st.tn == st.tn
    decreases |a1| - p1 + |a2| - p2
  {
    if p1 < |a1| && p2 < |a2| {
      var x, y := a1[p1], a2[p2];
      var next: Stats;
      if x.start == y.start && x.end == y.end {
        next := st.AddTp(1);
      } else if x.start < y.start {
        next := st.AddFp(1).AppendFps(doc, [x]);
      } else {
        next := st.AddFn(1).AppendFns(doc, [y]);
      }
      var q1, q2 := if x.start <= y.start then p1 + 1 else p1, if x.start >= y.start then p2 + 1 else p2;
      assert StrictLoop(st, doc, a1, a2, p1, p2) == StrictLoop(next, doc, a1, a2, q1, q2);
      StrictLoopCounts(next, doc, a1, a2, q1, q2);
    }
  }

  /** One step of the loop: the span it records, if any, is one of the spans it consumes. */
  lemma StrictStepEvidence(st: Stats, doc: string, a1: seq<Span>, a2: seq<Span>, p1: nat, p2: nat)
    returns (next: Stats, q1: nat, q2: nat)
    requires p1 < |a1| && p2 < |a2|
    ensures p1 <= q1 <= |a1| && p2 <= q2 <= |a2| && p1 + p2 < q1 + q2
    ensures StrictLoop(st, doc, a1, a2, p1, p2) == StrictLoop(next, doc, a1, a2, q1, q2)
    ensures GrewBy(st.fns.Get(doc, []), next.fns.Get(doc, []), next.fn - st.fn, a2[p2..q2])
    ensures GrewBy(st.fps.Get(doc, []), next.fps.Get(doc, []), next.fp - st.fp, a1[p1..q1])
    ensures forall d :: d != doc ==> next.fns.Get(d, []) == st.fns.Get(d, []) && next.fps.Get(d, []) == st.fps.Get(d, [])
    ensures st.Valid() ==> next.Valid()
  {
    var x, y := a1[p1], a2[p2];
    if x.start == y.start && x.end == y.end {
      next := st.AddTp(1);
    } else if x.start < y.start {
      next := st.AddFp(1).AppendFps(doc, [x]);
    } else {
      next := st.AddFn(1).AppendFns(doc, [y]);
    }
    q1, q2 := if x.start <= y.start then p1 + 1 else p1, if x.start >= y.start then p2 + 1 else p2;
    var n0, n1 := st.fns.Get(doc, []), next.fns.Get(doc, []);
    var f0, f1 := st.fps.Get(doc, []), next.fps.Get(doc, []);
    assert n1[|n0|..] == if next.fn == st.fn then [] else [y];
    assert f1[|f0|..] == if next.fp == st.fp then [] else [x];
  }

  /**
   * The false negatives the loop records under `doc` are, as a multiset, drawn
   * from the reference spans it consumes, one per counted fn; the false
   * positives likewise from the consumed system spans; nothing else is recorded.
   */
  lemma {:induction false} StrictLoopEvidence(st: Stats, doc: string, a1: seq<Span>, a2: seq<Span>, p1: nat, p2: nat)
    requires p1 <= |a1| && p2 <= |a2|
    ensures var w := StrictLoop(st, doc, a1, a2, p1, p2);
      && GrewBy(st.fns.Get(doc, []), w.st.fns.Get(doc, []), w.st.fn - st.fn, a2[p2..w.p2])
      && GrewBy(st.fps.Get(doc, []), w.st.fps.Get(doc, []), w.st.fp - st.fp, a1[p1..w.p1])
      && (forall d :: d != doc ==> w.st.fns.Get(d, []) == st.fns.Get(d, []) && w.st.fps.Get(d, []) == st.fps.Get(d, []))
      && (SortedByStart(a1) && SortedByStart(a2) ==>
            && SortedBelow(w.st.fns.Get(doc, [])[|st.fns.Get(doc, [])|..], a2[w.p2..])
            && SortedBelow(w.st.fps.Get(doc, [])[|st.fps.Get(doc, [])|..], a1[w.p1..]))
    decreases |a1| - p1 + |a2| - p2
  {
    if SortedByStart(a1) && SortedByStart(a2) {
      var kn, kf := |st.fns.Get(doc, [])|, |st.fps.Get(doc, [])|;
      assert st.fns.Get(doc, [])[kn..] == [] && st.fps.Get(doc, [])[kf..] == [];
      StrictLoopSorted(st, doc, a1, a2, p1, p2, kn, kf);
    }
    if p1 < |a1| && p2 < |a2| {
      var next, q1, q2 := StrictStepEvidence(st, doc, a1, a2, p1, p2);
      StrictLoopEvidence(next, doc, a1, a2, q1, q2);
      var w := StrictLoop(next, doc, a1, a2, q1, q2);
      GrewByJoin(st.fns.Get(doc, []), next.fns.Get(doc, []), w.st.fns.Get(doc, []), next.fn - st.fn, w.st.fn - next.fn, a2, p2, q2, w.p2);
      GrewByJoin(st.fps.Get(doc, []), next.fps.Get(doc, []), w.st.fps.Get(doc, []), next.fp - st.fp, w.st.fp - next.fp, a1, p1, q1, w.p1);
    } else {
      assert a2[p2..p2] == [] && a1[p1..p1] == [];
    }
  }

  /**
   * On sorted inputs the loop records spans in start order: the false negatives
   * recorded since position `kn` stay sorted and start no later than any
   * unconsumed reference span, and the false positives since `kf` likewise
   * against the unconsumed system spans.
   */
  lemma {:induction false} StrictLoopSorted(st: Stats, doc: string, a1: seq<Span>, a2: seq<Span>, p1: nat, p2: nat, kn: nat, kf: nat)
    requires p1 <= |a1| && p2 <= |a2| && SortedByStart(a1) && SortedByStart(a2)
    requires kn <= |st.fns.Get(doc, [])| && kf <= |st.fps.Get(doc, [])|
    requires SortedBelow(st.fns.Get(doc, [])[kn..], a2[p2..])
    requires SortedBelow(st.fps.Get(doc, [])[kf..], a1[p1..])
    ensures var w := StrictLoop(st, doc, a1, a2, p1, p2);
      && kn <= |w.st.fns.Get(doc, [])| && kf <= |w.st.fps.Get(doc, [])|
      && SortedBelow(w.st.fns.Get(doc, [])[kn..], a2[w.p2..])
      && SortedBelow(w.st.fps.Get(doc, [])[kf..], a1[w.p1..])
    decreases |a1| - p1 + |a2| - p2
  {
    if p1 < |a1| && p2 < |a2| {
      var x, y := a1[p1], a2[p2];
      var n0, f0 := st.fns.Get(doc, []), st.fps.Get(doc, []);
      var next: Stats;
      var q1, q2: nat;
      if x.start == y.start && x.end == y.end {
        next, q1, q2 := st.AddTp(1), p1 + 1, p2 + 1;
        SortedBelowDrop(n0[kn..], a2, p2, q2);
        SortedBelowDrop(f0[kf..], a1, p1, q1);
      } else if x.start == y.start {
        next, q1, q2 := st.AddFn(1).AppendFns(doc, [y]), p1 + 1, p2 + 1;
        assert next.fns.Get(doc, [])[kn..] == n0[kn..] + [y];
        SortedBelowTake(n0[kn..], a2, p2);
        SortedBelowDrop(f0[kf..], a1, p1, q1);
      } else if x.start < y.start {
        next, q1, q2 := st.AddFp(1).AppendFps(doc, [x]), p1 + 1, p2;
        assert next.fps.Get(doc, [])[kf..] == f0[kf..] + [x];
        SortedBelowTake(f0[kf..], a1, p1);
      } else {
        next, q1, q2 := st.AddFn(1).AppendFns(doc, [y]), p1, p2 + 1;
        assert next.fns.Get(doc, [])[kn..] == n0[kn..] + [y];
        SortedBelowTake(n0[kn..], a2, p2);
      }
      assert StrictLoop(st, doc, a1, a2, p1, p2) == StrictLoop(next, doc, a1, a2, q1, q2);
      StrictLoopSorted(next, doc, a1, a2, q1, q2, kn, kf);
    }
  }

  /** The loop keeps both evidence dictionaries well formed. */
  lemma {:induction false} StrictLoopValid(st: Stats, doc: string, a1: seq<Span>, a2: seq<Span>, p1: nat, p2: nat)
    requires p1 <= |a1| && p2 <= |a2| && st.Valid()
    ensures StrictLoop(st, doc, a1, a2, p1, p2).st.Valid()
    decreases |a1| - p1 + |a2| - p2
  {
    if p1 < |a1| && p2 < |a2| {
      var next, q1, q2 := StrictStepEvidence(st, doc, a1, a2, p1, p2);
      StrictLoopValid(next, doc, a1, a2, q1, q2);
    }
  }

  /** Strict matching of one type keeps both evidence dictionaries well formed. */
  lemma StrictTypeValid(st: Stats, doc: string, sys: seq<Span>, ref: seq<Span>)
    requires st.Valid()
    ensures StrictType(st, doc, sys, ref).Valid()
  {
    if ref != [] {
      StrictLoopValid(st, doc, SortByStart(sys), SortByStart(ref), 0, 0);
    }
  }

  /** Each true positive consumes a distinct reference span that has an exact twin among the system spans. */
  lemma {:induction false} StrictLoopTpBound(st: Stats, doc: string, a1: seq<Span>, a2: seq<Span>, p1: nat, p2: nat)
    requires p1 <= |a1| && p2 <= |a2|
    ensures StrictLoop(st, doc, a1, a2, p1, p2).st.tp <= st.tp + Count(a2[p2..], y => HasTwin(y, a1))
    decreases |a1| - p1 + |a2| - p2
  {
    if p1 < |a1| && p2 < |a2| {
      var x, y := a1[p1], a2[p2];
      CountAt(a2, y => HasTwin(y, a1), p2);
      if x.start == y.start {
        if x.end == y.end {
          assert x in a1 && SameInterval(x, y);
          StrictLoopTpBound(st.AddTp(1), doc, a1, a2, p1 + 1, p2 + 1);
        } else {
          StrictLoopTpBound(st.AddFn(1).AppendFns(doc, [y]), doc, a1, a2, p1 + 1, p2 + 1);
        }
      } else if x.start < y.start {
        StrictLoopTpBound(st.AddFp(1).AppendFps(doc, [x]), doc, a1, a2, p1 + 1, p2);
      } else {
        StrictLoopTpBound(st.AddFn(1).AppendFns(doc, [y]), doc, a1, a2, p1, p2 + 1);
      }
    }
  }

  /**
   * Over one type, `tp + fn` rises by exactly the number of reference spans,
   * `tp + fp` by at most the number of system spans (a start tie with
   * different ends consumes a system span without counting it), and no
   * counter falls.
   */
  lemma StrictTypeCounts(st: Stats, doc: string, sys: seq<Span>, ref: seq<Span>)
    ensures var r := StrictType(st, doc, sys, ref);
      && r.tp + r.fn == st.tp + st.fn + |ref|
      && r.tp + r.fp <= st.tp + st.fp + |sys|
      && st.tp <= r.tp && st.fp <= r.fp && st.fn <= r.fn && r.tn == st.tn
  {
    if ref != [] {
      StrictLoopCounts(st, doc, SortByStart(sys), SortByStart(ref), 0, 0);
    }
  }

  /**
   * Over one type with reference spans, the false negatives recorded under
   * `doc` are, as a multiset, drawn from the reference spans, one per counted
   * fn; the false positives likewise from the system spans; other documents'
   * evidence is untouched.
   */
  lemma StrictTypeEvidence(st: Stats, doc: string, sys: seq<Span>, ref: seq<Span>)
    requires ref != []
    ensures var r := StrictType(st, doc, sys, ref);
      && GrewBy(st.fns.Get(doc, []), r.fns.Get(doc, []), r.fn - st.fn, ref)
      && GrewBy(st.fps.Get(doc, []), r.fps.Get(doc, []), r.fp - st.fp, sys)
      && (forall d :: d != doc ==> r.fns.Get(d, []) == st.fns.Get(d, []) && r.fps.Get(d, []) == st.fps.Get(d, []))
      && |st.fns.Get(doc, [])| <= |r.fns.Get(doc, [])| && |st.fps.Get(doc, [])| <= |r.fps.Get(doc, [])|
      && SortedByStart(r.fns.Get(doc, [])[|st.fns.Get(doc, [])|..])
      && SortedByStart(r.fps.Get(doc, [])[|st.fps.Get(doc, [])|..])
  {
    StrictTypeSorted(st, doc, sys, ref);
    var a1, a2 := SortByStart(sys), SortByStart(ref);
    WalkDrawn(st, doc, a1, a2);
    var r := StrictType(st, doc, sys, ref);
    GrewByWiden(st.fns.Get(doc, []), r.fns.Get(doc, []), r.fn - st.fn, a2, ref);
    GrewByWiden(st.fps.Get(doc, []), r.fps.Get(doc, []), r.fp - st.fp, a1, sys);
  }

  /**
   * Strict matching records the false negatives of one type in start order, and
   * the false positives likewise: each is the sorted reference (system) list
   * with the matched spans taken out.
   */
  lemma StrictTypeSorted(st: Stats, doc: string, sys: seq<Span>, ref: seq<Span>)
    requires ref != []
    ensures var r := StrictType(st, doc, sys, ref);
      && |st.fns.Get(doc, [])| <= |r.fns.Get(doc, [])| && |st.fps.Get(doc, [])| <= |r.fps.Get(doc, [])|
      && SortedByStart(r.fns.Get(doc, [])[|st.fns.Get(doc, [])|..])
      && SortedByStart(r.fps.Get(doc, [])[|st.fps.Get(doc, [])|..])
  {
    var a1, a2 := SortByStart(sys), SortByStart(ref);
    var kn, kf := |st.fns.Get(doc, [])|, |st.fps.Get(doc, [])|;
    assert st.fns.Get(doc, [])[kn..] == [] && st.fps.Get(doc, [])[kf..] == [];
    StrictLoopSorted(st, doc, a1, a2, 0, 0, kn, kf);
    LeftoverSorted(doc, a1, a2, StrictLoop(st, doc, a1, a2, 0, 0), kn, kf);
  }

  /** The leftover step appends a whole sorted remainder, which keeps the recorded spans sorted. */
  lemma LeftoverSorted(doc: string, a1: seq<Span>, a2: seq<Span>, w: Walk, kn: nat, kf: nat)
    requires w.p1 <= |a1| && w.p2 <= |a2| && SortedByStart(a1) && SortedByStart(a2)
    requires kn <= |w.st.fns.Get(doc, [])| && kf <= |w.st.fps.Get(doc, [])|
    requires SortedBelow(w.st.fns.Get(doc, [])[kn..], a2[w.p2..])
    requires SortedBelow(w.st.fps.Get(doc, [])[kf..], a1[w.p1..])
    ensures var r := Leftover(doc, a1, a2, w);
      && kn <= |r.fns.Get(doc, [])| && kf <= |r.fps.Get(doc, [])|
      && SortedByStart(r.fns.Get(doc, [])[kn..]) && SortedByStart(r.fps.Get(doc, [])[kf..])
  {
    LeftoverEvidence(doc, a1, a2, w);
    var r := Leftover(doc, a1, a2, w);
    var n0, f0 := w.st.fns.Get(doc, []), w.st.fps.Get(doc, []);
    if w.p1 < |a1| {
      assert r.fps.Get(doc, [])[kf..] == f0[kf..] + a1[w.p1..];
      assert r.fns.Get(doc, []) == n0;
      SortedBelowAppendRest(f0[kf..], a1, w.p1);
    } else {
      assert r.fns.Get(doc, [])[kn..] == n0[kn..] + a2[w.p2..];
      assert r.fps.Get(doc, []) == f0;
      SortedBelowAppendRest(n0[kn..], a2, w.p2);
    }
  }

  /** The loop and the leftover step together record only spans drawn from their inputs. */
  lemma WalkDrawn(st: Stats, doc: string, a1: seq<Span>, a2: seq<Span>)
    ensures var r := Leftover(doc, a1, a2, StrictLoop(st, doc, a1, a2, 0, 0));
      && GrewBy(st.fns.Get(doc, []), r.fns.Get(doc, []), r.fn - st.fn, a2)
      && GrewBy(st.fps.Get(doc, []), r.fps.Get(doc, []), r.fp - st.fp, a1)
      && (forall d :: d != doc ==> r.fns.Get(d, []) == st.fns.Get(d, []) && r.fps.Get(d, []) == st.fps.Get(d, []))
  {
    var w := StrictLoop(st, doc, a1, a2, 0, 0);
    var r := Leftover(doc, a1, a2, w);
    StrictLoopEvidence(st, doc, a1, a2, 0, 0);
    LeftoverDrawn(doc, a1, a2, w);
    GrewByJoin(st.fns.Get(doc, []), w.st.fns.Get(doc, []), r.fns.Get(doc, []), w.st.fn - st.fn, r.fn - w.st.fn, a2, 0, w.p2, |a2|);
    GrewByJoin(st.fps.Get(doc, []), w.st.fps.Get(doc, []), r.fps.Get(doc, []), w.st.fp - st.fp, r.fp - w.st.fp, a1, 0, w.p1, |a1|);
    assert a2[0..|a2|] == a2 && a1[0..|a1|] == a1;
  }

  /** What the leftover step records is drawn from the unconsumed spans. */
  lemma LeftoverDrawn(doc: string, a1: seq<Span>, a2: seq<Span>, w: Walk)
    requires w.p1 <= |a1| && w.p2 <= |a2|
    ensures var r := Leftover(doc, a1, a2, w);
      && GrewBy(w.st.fns.Get(doc, []), r.fns.Get(doc, []), r.fn - w.st.fn, a2[w.p2..|a2|])
      && GrewBy(w.st.fps.Get(doc, []), r.fps.Get(doc, []), r.fp - w.st.fp, a1[w.p1..|a1|])
      && (forall d :: d != doc ==> r.fns.Get(d, []) == w.st.fns.Get(d, []) && r.fps.Get(d, []) == w.st.fps.Get(d, []))
  {
    var r := Leftover(doc, a1, a2, w);
    var n0, n1 := w.st.fns.Get(doc, []), r.fns.Get(doc, []);
    var f0, f1 := w.st.fps.Get(doc, []), r.fps.Get(doc, []);
    if w.p1 < |a1| {
      assert r == w.st.AddFp(|a1| - w.p1).AppendFps(doc, a1[w.p1..]);
      assert n1 == n0 && f1 == f0 + a1[w.p1..];
      assert f1[|f0|..] == a1[w.p1..|a1|];
      assert n1[|n0|..] == [];
    } else if w.p2 < |a2| {
      assert r == w.st.AddFn(|a2| - w.p2).AppendFns(doc, a2[w.p2..]);
      assert f1 == f0 && n1 == n0 + a2[w.p2..];
      assert n1[|n0|..] == a2[w.p2..|a2|];
      assert f1[|f0|..] == [];
    } else {
      assert r == w.st;
      assert n1[|n0|..] == [] && f1[|f0|..] == [];
    }
  }

  /**
   * Corrected leftover step: the unconsumed system spans, if any, are appended
   * as false positives and counted, and otherwise the unconsumed reference
   * spans are appended as false negatives and counted; nothing else changes.
   */
  lemma LeftoverEvidence(doc: string, a1: seq<Span>, a2: seq<Span>, w: Walk)
    requires w.p1 <= |a1| && w.p2 <= |a2|
    ensures var r := Leftover(doc, a1, a2, w);
      var fpTail := if w.p1 < |a1| then a1[w.p1..] else [];
      var fnTail := if w.p1 < |a1| then [] else a2[w.p2..];
      && r.fps.Get(doc, []) == w.st.fps.Get(doc, []) + fpTail && r.fp == w.st.fp + |fpTail|
      && r.fns.Get(doc, []) == w.st.fns.Get(doc, []) + fnTail && r.fn == w.st.fn + |fnTail|
      && r.tp == w.st.tp && r.tn == w.st.tn
      && (forall d :: d != doc ==> r.fns.Get(d, []) == w.st.fns.Get(d, []) && r.fps.Get(d, []) == w.st.fps.Get(d, []))
  {
  }

  /** Strict true positives never exceed the reference spans that have an exact twin among the system spans. */
  lemma StrictTypeTpBound(st: Stats, doc: string, sys: seq<Span>, ref: seq<Span>)
    ensures StrictType(st, doc, sys, ref).tp <= st.tp + Count(ref, y => HasTwin(y, sys))
  {
    if ref != [] {
      var a1, a2 := SortByStart(sys), SortByStart(ref);
      StrictLoopTpBound(st, doc, a1, a2, 0, 0);
      assert a2[0..] == a2;
      forall y | y in a2 && HasTwin(y, a1) ensures HasTwin(y, sys) {
        var x :| x in a1 && SameInterval(x, y);
        assert x in multiset(a1);
      }
      CountMonotone(a2, y => HasTwin(y, a1), y => HasTwin(y, sys));
      CountSortByStart(ref, y => HasTwin(y, sys));
    }
  }

  /**
   * As written, the type fails exactly when the walk leaves spans over; the
   * corrected version then raises the same counter and also records the
   * leftover spans.
   */
  lemma AsWrittenFailsOnLeftover(st: Stats, doc: string, sys: seq<Span>, ref: seq<Span>)
    requires ref != []
    ensures var a1, a2 := SortByStart(sys), SortByStart(ref);
      var w := StrictLoop(st, doc, a1, a2, 0, 0);
      var out := StrictTypeAsWritten(st, doc, sys, ref);
      var fixed := StrictType(st, doc, sys, ref);
      && (out.MissingAttribute? <==> w.p1 < |a1| || w.p2 < |a2|)
      && (out.Finished? ==> out.st == fixed)
      && (out.MissingAttribute? ==> out.counted == fixed.(fps := w.st.fps, fns := w.st.fns))
  {
  }

  /**
   * System span (10,20) against reference span (12,18): the walk counts the
   * system span as a false positive and leaves the reference span over, so
   * the code as written fails after raising `fn`, while the corrected
   * version ends with fp = 1, fn = 1 and both spans recorded.
   */
  lemma LeftoverCounterexample(doc: string)
    ensures var x, y := Span("Disease", 10, 20, "a"), Span("Disease", 12, 18, "b");
      && StrictTypeAsWritten(Initial(), doc, [x], [y]) == MissingAttribute(Initial().AddFp(1).AppendFps(doc, [x]).AddFn(1))
      && StrictType(Initial(), doc, [x], [y]) == Initial().AddFp(1).AppendFps(doc, [x]).AddFn(1).AppendFns(doc, [y])
  {
    var x, y := Span("Disease", 10, 20, "a"), Span("Disease", 12, 18, "b");
    assert SortByStart([x]) == [x];
    assert SortByStart([y]) == [y];
    var afterFp := Initial().AddFp(1).AppendFps(doc, [x]);
    assert StrictLoop(Initial(), doc, [x], [y], 0, 0) == StrictLoop(afterFp, doc, [x], [y], 1, 0) == Walk(afterFp, 1, 0);
    assert [y][0..] == [y];
  }

  /** One iteration of the two-pointer loop on the evaluator: the walk from the new cursors ends where the walk from the old ones does. */
  method StrictStep(ev: Evaluator, doc: string, a1: seq<Span>, a2: seq<Span>, p1: nat, p2: nat) returns (q1: nat, q2: nat)
    requires p1 < |a1| && p2 < |a2|
    modifies ev
    ensures p1 <= q1 <= |a1| && p2 <= q2 <= |a2| && p1 + p2 < q1 + q2
    ensures StrictLoop(ev.Value(), doc, a1, a2, q1, q2) == StrictLoop(old(ev.Value()), doc, a1, a2, p1, p2)
  {
    var x, y := a1[p1], a2[p2];
    ghost var st := ev.Value();
    if x.start == y.start {
      if x.end == y.end {
        ev.AddTp(1);
        assert ev.Value() == st.AddTp(1);
      } else {
        ev.AddFn(1);
        ev.AppendFns(doc, [y]);
        assert ev.Value() == st.AddFn(1).AppendFns(doc, [y]);
      }
      q1, q2 := p1 + 1, p2 + 1;
    } else if x.start < y.start {
      q1, q2 := p1 + 1, p2;
      ev.AddFp(1);
      ev.AppendFps(doc, [x]);
      assert ev.Value() == st.AddFp(1).AppendFps(doc, [x]);
    } else {
      q1, q2 := p1, p2 + 1;
      ev.AddFn(1);
      ev.AppendFns(doc, [y]);
      assert ev.Value() == st.AddFn(1).AppendFns(doc, [y]);
    }
  }

  /** After the loop, corrected: the unconsumed spans of one side are counted and recorded. */
  method StrictTail(ev: Evaluator, doc: string, a1: seq<Span>, a2: seq<Span>, p1: nat, p2: nat)
    requires p1 <= |a1| && p2 <= |a2|
    modifies ev
    ensures ev.Value() == Leftover(doc, a1, a2, Walk(old(ev.Value()), p1, p2))
  {
    if p1 < |a1| {
      ev.AddFp(|a1| - p1);
      ev.AppendFps(doc, a1[p1..]);
    } else if p2 < |a2| {
      ev.AddFn(|a2| - p2);
      ev.AppendFns(doc, a2[p2..]);
    }
  }

  /** `strict_compare_one_doc` for one type, corrected, on one evaluator. */
  method StrictCompareType(ev: Evaluator, doc: string, sys: seq<Span>, ref: seq<Span>)
    modifies ev
    ensures ev.Value() == StrictType(old(ev.Value()), doc, sys, ref)
  {
    if ref == [] {
      ev.AddFp(|sys|);
      return;
    }
    var a1 := SortByStart(sys);
    var a2 := SortByStart(ref);
    var p1: nat, p2: nat := 0, 0;
    while p1 < |a1| && p2 < |a2|
      invariant p1 <= |a1| && p2 <= |a2|
      invariant StrictLoop(ev.Value(), doc, a1, a2, p1, p2) == StrictLoop(old(ev.Value()), doc, a1, a2, 0, 0)
      decreases |a1| - p1 + |a2| - p2
    {
      p1, p2 := StrictStep(ev, doc, a1, a2, p1, p2);
    }
    assert StrictLoop(old(ev.Value()), doc, a1, a2, 0, 0) == Walk(ev.Value(), p1, p2);
    StrictTail(ev, doc, a1, a2, p1, p2);
  }
}
