/**
 * Relax matching (`relax_compare_one_doc`, compare_utils.py:192-228): a
 * reference span is matched when any system span of its type overlaps it.
 * The interval tree over the system spans is modelled by the set of indices
 * its overlap query returns.
 */
module RelaxMatch {
  import opened Spans
  import opened Evaluation

  /**
   * The system span `x` overlaps the half-open query range of the reference
   * span `y`; an empty query range overlaps nothing.
   */
  predicate Overlaps(x: Span, y: Span) {
    y.start < y.end && x.start < y.end && y.start < x.end
  }

  /** `annos1_tree[y.start:y.end]`, as the indices each returned interval carries. */
  function Overlapping(sys: seq<Span>, y: Span): (ids: set<nat>)
    ensures forall i :: i in ids ==> i < |sys| && Overlaps(sys[i], y)
    ensures forall i :: 0 <= i < |sys| && Overlaps(sys[i], y) ==> i in ids
    ensures y.start >= y.end ==> ids == {}
  {
    set i: nat | i < |sys| && Overlaps(sys[i], y)
  }

  /** Every system span has a non-empty interval; the interval tree refuses any other. */
  predicate NullFree(sys: seq<Span>) {
    forall i :: 0 <= i < |sys| ==> sys[i].start < sys[i].end
  }

  /**
   * `build_interval_tree` (compare_utils.py:192-198): adds `[start, end)`
   * tagged with its index for each system span in turn, failing on the first
   * empty interval.  The tree's contents are what `Overlapping` queries.
   */
  method BuildIntervalTree(sys: seq<Span>) returns (ok: bool)
    ensures ok <==> NullFree(sys)
  {
    for i := 0 to |sys|
      invariant forall k :: 0 <= k < i ==> sys[k].start < sys[k].end
    {
      if sys[i].start >= sys[i].end {
        return false;
      }
    }
    return true;
  }

  /** The statistics and the claimed system indices part-way through the reference spans. */
  datatype Pass = Pass(st: Stats, claimed: set<nat>)

  /** The loop over the first `k` reference spans. */
  function RelaxLoop(st: Stats, doc: string, sys: seq<Span>, ref: seq<Span>, k: nat): Pass
    requires k <= |ref|
  {
    if k == 0 then Pass(st, {})
    else
      var p := RelaxLoop(st, doc, sys, ref, k - 1);
      var y := ref[k - 1];
      var overlapped := Overlapping(sys, y);
      if |overlapped| == 0 then Pass(p.st.AddFn(1).AppendFns(doc, [y]), p.claimed)
      else Pass(p.st.AddTp(1), p.claimed + overlapped)
  }

  /** `remain_ids`: the indices below `n` that are not claimed, in ascending order. */
  function Unclaimed(claimed: set<nat>, n: nat): (r: seq<nat>)
    ensures forall i: nat :: i in r <==> i < n && i !in claimed
    ensures forall k :: 0 <= k < |r| ==> r[k] < n
    ensures forall j, k :: 0 <= j < k < |r| ==> r[j] < r[k]
  {
    if n == 0 then []
    else
      var init := Unclaimed(claimed, n - 1);
      assert forall k :: 0 <= k < |init| ==> init[k] < n - 1;
      init + (if n - 1 in claimed then [] else [n - 1])
  }

  /** `[annos[i] for i in ids]` */
  function Pick(sys: seq<Span>, ids: seq<nat>): seq<Span>
    requires forall k :: 0 <= k < |ids| ==> ids[k] < |sys|
  {
    if ids == [] then [] else [sys[ids[0]]] + Pick(sys, ids[1..])
  }

  /** The system indices that some reference span overlaps. */
  function AllClaimed(sys: seq<Span>, ref: seq<Span>): set<nat> {
    set i: nat | i < |sys| && exists j :: 0 <= j < |ref| && Overlaps(sys[i], ref[j])
  }

  /** One annotation type of one document. */
  function RelaxType(st: Stats, doc: string, sys: seq<Span>, ref: seq<Span>): Stats {
    if ref == [] then st.AddFp(|sys|)
    else
      var p := RelaxLoop(st, doc, sys, ref, |ref|);
      var remain := Unclaimed(p.claimed, |sys|);
      if |remain| > 0 then p.st.AddFp(|remain|).AppendFps(doc, Pick(sys, remain)) else p.st
  }

  /** A reference span that some system span overlaps. */
  predicate Hit(sys: seq<Span>, y: Span) {
    Overlapping(sys, y) != {}
  }

  /**
   * After `k` reference spans: each was one tp (overlapped) or one fn
   * recorded under `doc`.
   */
  lemma {:induction false} RelaxLoopCounts(st: Stats, doc: string, sys: seq<Span>, ref: seq<Span>, k: nat)
    requires k <= |ref|
    ensures var p := RelaxLoop(st, doc, sys, ref, k);
      && p.st.tp == st.tp + Count(ref[..k], y => Hit(sys, y))
      && p.st.fn == st.fn + k - Count(ref[..k], y => Hit(sys, y))
      && p.st.fp == st.fp && p.st.tn == st.tn && p.st.fps == st.fps
  {
    if k > 0 {
      RelaxLoopCounts(st, doc, sys, ref, k - 1);
      assert ref[..k] == ref[..k - 1] + [ref[k - 1]];
      CountSnoc(ref[..k - 1], ref[k - 1], y => Hit(sys, y));
    }
  }

  /** The reference spans that no system span overlaps, in input order. */
  function Misses(sys: seq<Span>, ref: seq<Span>): (m: seq<Span>)
    ensures |m| <= |ref|
    ensures forall y :: y in m ==> y in ref && !Hit(sys, y)
    ensures forall y :: y in ref && !Hit(sys, y) ==> y in m
  {
    if ref == [] then []
    else
      var init, y := ref[..|ref| - 1], ref[|ref| - 1];
      assert ref == init + [y];
      Misses(sys, init) + (if Hit(sys, y) then [] else [y])
  }

  /**
   * The false negatives recorded under `doc` for the first `k` reference spans
   * are exactly the missed ones among them, in order, one per counted fn.
   */
  lemma {:induction false} RelaxLoopEvidence(st: Stats, doc: string, sys: seq<Span>, ref: seq<Span>, k: nat)
    requires k <= |ref|
    ensures var p := RelaxLoop(st, doc, sys, ref, k);
      && p.st.fns.Get(doc, []) == st.fns.Get(doc, []) + Misses(sys, ref[..k])
      && p.st.fn == st.fn + |Misses(sys, ref[..k])|
      && (forall d :: d != doc ==> p.st.fns.Get(d, []) == st.fns.Get(d, []))
  {
    if k > 0 {
      RelaxLoopEvidence(st, doc, sys, ref, k - 1);
      var p, y := RelaxLoop(st, doc, sys, ref, k - 1), ref[k - 1];
      assert ref[..k][..k - 1] == ref[..k - 1];
      assert ref[..k][k - 1] == y;
      assert Misses(sys, ref[..k]) == Misses(sys, ref[..k - 1]) + (if Hit(sys, y) then [] else [y]);
      if Hit(sys, y) {
        assert |Overlapping(sys, y)| != 0;
        assert RelaxLoop(st, doc, sys, ref, k).st == p.st.AddTp(1);
      } else {
        assert RelaxLoop(st, doc, sys, ref, k).st == p.st.AddFn(1).AppendFns(doc, [y]);
      }
    }
  }

  /** The loop keeps both evidence dictionaries well formed. */
  lemma {:induction false} RelaxLoopValid(st: Stats, doc: string, sys: seq<Span>, ref: seq<Span>, k: nat)
    requires k <= |ref| && st.Valid()
    ensures RelaxLoop(st, doc, sys, ref, k).st.Valid()
  {
    if k > 0 {
      RelaxLoopValid(st, doc, sys, ref, k - 1);
    }
  }

  /** Relax matching of one type keeps both evidence dictionaries well formed. */
  lemma RelaxTypeValid(st: Stats, doc: string, sys: seq<Span>, ref: seq<Span>)
    requires st.Valid()
    ensures RelaxType(st, doc, sys, ref).Valid()
  {
    if ref != [] {
      RelaxLoopValid(st, doc, sys, ref, |ref|);
    }
  }

  /** The claimed indices are exactly those some of the first `k` reference spans overlap. */
  lemma {:induction false} RelaxLoopClaims(st: Stats, doc: string, sys: seq<Span>, ref: seq<Span>, k: nat)
    requires k <= |ref|
    ensures forall i: nat :: i in RelaxLoop(st, doc, sys, ref, k).claimed
                         <==> i < |sys| && exists j :: 0 <= j < k && Overlaps(sys[i], ref[j])
  {
    if k > 0 {
      RelaxLoopClaims(st, doc, sys, ref, k - 1);
      var p := RelaxLoop(st, doc, sys, ref, k - 1);
      var q := RelaxLoop(st, doc, sys, ref, k);
      var ov := Overlapping(sys, ref[k - 1]);
      assert q.claimed == p.claimed + ov by {
        if |ov| == 0 {
          assert ov == {};
        }
      }
      ClaimsStep(p.claimed, sys, ref, k);
    }
  }

  /** Claiming what the `k`-th reference span overlaps extends the claims of the first `k - 1`. */
  lemma ClaimsStep(claimed: set<nat>, sys: seq<Span>, ref: seq<Span>, k: nat)
    requires 0 < k <= |ref|
    requires forall i: nat :: i in claimed <==> i < |sys| && exists j :: 0 <= j < k - 1 && Overlaps(sys[i], ref[j])
    ensures forall i: nat :: i in claimed + Overlapping(sys, ref[k - 1])
                         <==> i < |sys| && exists j :: 0 <= j < k && Overlaps(sys[i], ref[j])
  {
    var ov := Overlapping(sys, ref[k - 1]);
    forall i: nat | i in claimed + ov ensures i < |sys| && exists j :: 0 <= j < k && Overlaps(sys[i], ref[j]) {
      if i !in claimed {
        assert Overlaps(sys[i], ref[k - 1]);
      }
    }
    forall i: nat | i < |sys| && exists j :: 0 <= j < k && Overlaps(sys[i], ref[j]) ensures i in claimed + ov {
      var j :| 0 <= j < k && Overlaps(sys[i], ref[j]);
      if j == k - 1 {
        assert i in ov;
      }
    }
  }

  lemma RelaxClaimed(st: Stats, doc: string, sys: seq<Span>, ref: seq<Span>)
    ensures RelaxLoop(st, doc, sys, ref, |ref|).claimed == AllClaimed(sys, ref)
  {
    RelaxLoopClaims(st, doc, sys, ref, |ref|);
  }

  /**
   * Over one type, each reference span yields exactly one tp (some system
   * span overlaps it) or one fn, so `tp + fn` rises by the number of
   * reference spans; with reference spans present, `fp` rises by the number of
   * system spans no reference span overlaps.
   */
  lemma RelaxTypeCounts(st: Stats, doc: string, sys: seq<Span>, ref: seq<Span>)
    ensures var r := RelaxType(st, doc, sys, ref);
      && r.tp + r.fn == st.tp + st.fn + |ref|
      && r.tp == st.tp + Count(ref, y => Hit(sys, y))
      && r.tn == st.tn && st.fp <= r.fp && st.fn <= r.fn
      && (ref != [] ==> r.fp == st.fp + |Unclaimed(AllClaimed(sys, ref), |sys|)|)
  {
    if ref != [] {
      RelaxLoopCounts(st, doc, sys, ref, |ref|);
      RelaxClaimed(st, doc, sys, ref);
      assert ref[..|ref|] == ref;
    }
  }

  /**
   * With reference spans present, the false positives recorded under `doc`
   * are the system spans that no reference span overlaps, one after another
   * in index order; the false negatives recorded are exactly the missed
   * reference spans, in input order; other documents are untouched.
   */
  lemma RelaxTypeEvidence(st: Stats, doc: string, sys: seq<Span>, ref: seq<Span>)
    requires ref != []
    ensures var r := RelaxType(st, doc, sys, ref);
      var remain := Unclaimed(AllClaimed(sys, ref), |sys|);
      var before, after := st.fps.Get(doc, []), r.fps.Get(doc, []);
      && (forall i: nat :: i in remain <==> i < |sys| && forall j :: 0 <= j < |ref| ==> !Overlaps(sys[i], ref[j]))
      && |after| == |before| + |remain| && before <= after
      && (forall k :: 0 <= k < |remain| ==> after[|before| + k] == sys[remain[k]])
      && r.fp == st.fp + |remain|
      && r.fns.Get(doc, []) == st.fns.Get(doc, []) + Misses(sys, ref)
      && r.fn == st.fn + |Misses(sys, ref)|
      && (forall d :: d != doc ==> r.fns.Get(d, []) == st.fns.Get(d, []) && r.fps.Get(d, []) == st.fps.Get(d, []))
  {
    RelaxLoopCounts(st, doc, sys, ref, |ref|);
    RelaxLoopEvidence(st, doc, sys, ref, |ref|);
    RelaxTypeFps(st, doc, sys, ref);
    assert ref[..|ref|] == ref;
    var p := RelaxLoop(st, doc, sys, ref, |ref|);
    var r := RelaxType(st, doc, sys, ref);
    var remain := Unclaimed(p.claimed, |sys|);
    if |remain| > 0 {
      assert r == p.st.AddFp(|remain|).AppendFps(doc, Pick(sys, remain));
      assert r.fns == p.st.fns && r.fn == p.st.fn;
      assert forall d :: d != doc ==> r.fps.Get(d, []) == p.st.fps.Get(d, []);
    } else {
      assert r == p.st;
    }
  }

  /** The false-positive half of `RelaxTypeEvidence`. */
  lemma RelaxTypeFps(st: Stats, doc: string, sys: seq<Span>, ref: seq<Span>)
    requires ref != []
    ensures var r := RelaxType(st, doc, sys, ref);
      var remain := Unclaimed(AllClaimed(sys, ref), |sys|);
      var before, after := st.fps.Get(doc, []), r.fps.Get(doc, []);
      && (forall i: nat :: i in remain <==> i < |sys| && forall j :: 0 <= j < |ref| ==> !Overlaps(sys[i], ref[j]))
      && |after| == |before| + |remain| && before <= after
      && (forall k :: 0 <= k < |remain| ==> after[|before| + k] == sys[remain[k]])
      && r.fp == st.fp + |remain|
  {
    RelaxLoopCounts(st, doc, sys, ref, |ref|);
    RelaxClaimed(st, doc, sys, ref);
    RemainUnoverlapped(sys, ref);
    var p := RelaxLoop(st, doc, sys, ref, |ref|);
    var remain := Unclaimed(p.claimed, |sys|);
    if |remain| > 0 {
      var before, picked := st.fps.Get(doc, []), Pick(sys, remain);
      PickAt(sys, remain);
      AppendedAt(before, picked);
      assert RelaxType(st, doc, sys, ref) == p.st.AddFp(|remain|).AppendFps(doc, picked);
      assert RelaxType(st, doc, sys, ref).fps.Get(doc, []) == before + picked;
    } else {
      assert RelaxType(st, doc, sys, ref) == p.st;
    }
  }

  /** Element `k` of the picked list is `sys[ids[k]]`. */
  lemma {:induction false} PickAt(sys: seq<Span>, ids: seq<nat>)
    requires forall k :: 0 <= k < |ids| ==> ids[k] < |sys|
    ensures |Pick(sys, ids)| == |ids| && forall k :: 0 <= k < |ids| ==> Pick(sys, ids)[k] == sys[ids[k]]
    decreases |ids|
  {
    if ids != [] {
      PickAt(sys, ids[1..]);
      forall k | 0 < k < |ids| ensures Pick(sys, ids)[k] == sys[ids[k]] {
        assert ids[1..][k - 1] == ids[k];
      }
    }
  }

  /** Place `|a| + k` of `a + b` holds `b[k]`. */
  lemma AppendedAt(a: seq<Span>, b: seq<Span>)
    ensures |a + b| == |a| + |b| && a <= a + b
    ensures forall k :: 0 <= k < |b| ==> (a + b)[|a| + k] == b[k]
  {
  }

  /** `remain_ids` after the loop: exactly the system spans that no reference span overlaps. */
  lemma RemainUnoverlapped(sys: seq<Span>, ref: seq<Span>)
    ensures forall i: nat :: i in Unclaimed(AllClaimed(sys, ref), |sys|)
                         <==> i < |sys| && forall j :: 0 <= j < |ref| ==> !Overlaps(sys[i], ref[j])
  {
  }

  /**
   * A system span whose interval equals a reference span's is always claimed,
   * so it is never a false positive, and that reference span is a tp.
   */
  lemma ExactTwinMatches(sys: seq<Span>, ref: seq<Span>, i: nat, j: nat)
    requires NullFree(sys)
    requires i < |sys| && j < |ref| && SameInterval(sys[i], ref[j])
    ensures Hit(sys, ref[j])
    ensures i in AllClaimed(sys, ref) && i !in Unclaimed(AllClaimed(sys, ref), |sys|)
  {
    assert Overlaps(sys[i], ref[j]);
    assert i in Overlapping(sys, ref[j]);
  }

  /** Against a system side without empty intervals, an exact twin implies an overlap. */
  lemma TwinCountAtMostHitCount(sys: seq<Span>, ref: seq<Span>)
    requires NullFree(sys)
    ensures Count(ref, y => HasTwin(y, sys)) <= Count(ref, y => Hit(sys, y))
  {
    forall y | y in ref && HasTwin(y, sys) ensures Hit(sys, y) {
      var x :| x in sys && SameInterval(x, y);
      var i :| 0 <= i < |sys| && sys[i] == x;
      assert i in Overlapping(sys, y);
    }
    CountMonotone(ref, y => HasTwin(y, sys), y => Hit(sys, y));
  }

  /** `relax_compare_one_doc` for one type on one evaluator; `ok` is false when the interval tree refuses a span. */
  method RelaxCompareType(ev: Evaluator, doc: string, sys: seq<Span>, ref: seq<Span>) returns (ok: bool)
    modifies ev
    ensures ok <==> ref == [] || NullFree(sys)
    ensures ok ==> ev.Value() == RelaxType(old(ev.Value()), doc, sys, ref)
    ensures !ok ==> ev.Value() == old(ev.Value())
  {
    if ref == [] {
      ev.AddFp(|sys|);
      return true;
    }
    ok := BuildIntervalTree(sys);
    if !ok {
      return;
    }
    var claimed: set<nat> := {};
    for j := 0 to |ref|
      invariant Pass(ev.Value(), claimed) == RelaxLoop(old(ev.Value()), doc, sys, ref, j)
    {
      var y := ref[j];
      var overlapped := Overlapping(sys, y);
      ghost var before := ev.Value();
      if |overlapped| == 0 {
        ev.AddFn(1);
        ev.AppendFns(doc, [y]);
        assert ev.Value() == before.AddFn(1).AppendFns(doc, [y]);
      } else {
        ev.AddTp(1);
        claimed := claimed + overlapped;
        assert ev.Value() == before.AddTp(1);
      }
    }
    var remain := Unclaimed(claimed, |sys|);
    if |remain| > 0 {
      ev.AddFp(|remain|);
      ev.AppendFps(doc, Pick(sys, remain));
    }
  }
}
