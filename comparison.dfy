/**
 * The comparison orchestrator (`compare`, compare_utils.py:121-139) and the
 * per-document driver shared by both matching policies
 * (compare_utils.py:144-152 and 201-209): one Evaluator per annotation type,
 * created the first time a system-side type is met and shared across all
 * documents of the corpus.
 */
module Comparison {
  import opened Outcomes
  import opened OrderedMaps
  import opened Spans
  import opened Evaluation
  import opened StrictMatch
  import opened RelaxMatch

  /** The exceptions `compare` can end with. */
  datatype CompareError =
    | UnequalDocCounts              // the ValueError raised for corpora of different sizes
    | MissingDocument(name: string) // the KeyError of a system document with no reference counterpart
    | EmptyMode                     // the IndexError of `compare_method[0]` on an empty mode
    | NullInterval                  // the ValueError of the interval tree on an empty system interval

  /** `compare_method[0].lower().startswith('s')`: only 's' and 'S' lower-case to a string starting with 's'. */
  predicate IsStrict(mode: string)
    requires mode != ""
  {
    mode[0] == 's' || mode[0] == 'S'
  }

  /** Annotation type -> the value of its Evaluator. */
  type Table = OMap<Stats>

  /** One annotation type of one document under the chosen policy. */
  function TypeStep(st: Stats, doc: string, sys: seq<Span>, ref: seq<Span>, strict: bool): Stats {
    if strict then StrictType(st, doc, sys, ref) else RelaxType(st, doc, sys, ref)
  }

  /** Relax matching can build its interval tree for type `t`: the type falls back, or no system span is empty. */
  predicate TreeOk(g1: Grouping, g2: Grouping, t: string) {
    SpansOf(g2, t) == [] || NullFree(SpansOf(g1, t))
  }

  /** The first `n` system-side types of one document, in order. */
  function DocPrefix(tab: Table, doc: string, g1: Grouping, g2: Grouping, strict: bool, n: nat): Table
    requires n <= |g1.keys|
  {
    if n == 0 then tab
    else
      var prev := DocPrefix(tab, doc, g1, g2, strict, n - 1);
      var t := g1.keys[n - 1];
      prev.Put(t, TypeStep(prev.Get(t, Initial()), doc, SpansOf(g1, t), SpansOf(g2, t), strict))
  }

  /** The first `n` system-side types can all be matched under relax matching. */
  predicate TypesOk(g1: Grouping, g2: Grouping, n: nat)
    requires n <= |g1.keys|
  {
    forall m :: 0 <= m < n ==> TreeOk(g1, g2, g1.keys[m])
  }

  lemma TypesOkStep(g1: Grouping, g2: Grouping, n: nat)
    requires n < |g1.keys| && TypesOk(g1, g2, n) && TreeOk(g1, g2, g1.keys[n])
    ensures TypesOk(g1, g2, n + 1)
  {
  }

  lemma TypesOkFails(g1: Grouping, g2: Grouping, n: nat)
    requires n < |g1.keys| && !TreeOk(g1, g2, g1.keys[n])
    ensures !TypesOk(g1, g2, |g1.keys|)
  {
  }

  lemma DocPrefixStep(tab: Table, doc: string, g1: Grouping, g2: Grouping, strict: bool, n: nat, t: string)
    requires n < |g1.keys| && t == g1.keys[n]
    ensures DocPrefix(tab, doc, g1, g2, strict, n + 1)
              == DocPrefix(tab, doc, g1, g2, strict, n).Put(t, TypeStep(DocPrefix(tab, doc, g1, g2, strict, n).Get(t, Initial()), doc, SpansOf(g1, t), SpansOf(g2, t), strict))
  {
  }

  /** Every type of the document can be matched under the chosen policy. */
  predicate DocOk(g1: Grouping, g2: Grouping, strict: bool) {
    strict || TypesOk(g1, g2, |g1.keys|)
  }

  /** `strict_compare_one_doc` / `relax_compare_one_doc` on the evaluator table. */
  function DocOutcome(tab: Table, doc: string, g1: Grouping, g2: Grouping, strict: bool): Result<Table, CompareError> {
    if DocOk(g1, g2, strict) then Ok(DocPrefix(tab, doc, g1, g2, strict, |g1.keys|)) else Err(NullInterval)
  }

  /** The loop of `compare` over the first `n` system documents. */
  function RunPrefix(docs1: OMap<Grouping>, docs2: map<string, Grouping>, mode: string, n: nat): Result<Table, CompareError>
    requires n <= |docs1.keys|
  {
    if n == 0 then Ok(Empty())
    else
      match RunPrefix(docs1, docs2, mode, n - 1)
      case Err(e) => Err(e)
      case Ok(tab) =>
        var name := docs1.keys[n - 1];
        if name !in docs2 then Err(MissingDocument(name))
        else if mode == "" then Err(EmptyMode)
        else DocOutcome(tab, name, docs1.Get(name, Empty()), docs2[name], IsStrict(mode))
  }

  /** `compare(annotated_doc_map1, annotated_doc_map2, compare_method)` as a value. */
  function CompareSpec(docs1: OMap<Grouping>, docs2: map<string, Grouping>, mode: string): Result<Table, CompareError> {
    if |docs1.keys| != |docs2| then Err(UnequalDocCounts)
    else RunPrefix(docs1, docs2, mode, |docs1.keys|)
  }

  // ---------------------------------------------------------------------------
  // The imperative driver

  /**
   * One type of one document: take the type's evaluator, created with every
   * counter at zero the first time the type is met, and match the type's
   * spans on it.  `ok` is false when relax matching meets an empty system
   * interval.  The evaluator is loaded from and stored back into the table.
   */
  method MatchType(tab: Table, t: string, doc: string, sys: seq<Span>, ref: seq<Span>, strict: bool)
      returns (ok: bool, next: Table)
    ensures ok <==> strict || ref == [] || NullFree(sys)
    ensures ok ==> next == tab.Put(t, TypeStep(tab.Get(t, Initial()), doc, sys, ref, strict))
  {
    var st := tab.Get(t, Initial());
    var ev := new Evaluator(st.tp, st.fp, st.tn, st.fn);
    ev.fps, ev.fns := st.fps, st.fns;
    ok := true;
    if strict {
      StrictCompareType(ev, doc, sys, ref);
    } else {
      ok := RelaxCompareType(ev, doc, sys, ref);
    }
    next := tab.Put(t, ev.Value());
  }

  /** One iteration of the type loop of `*_compare_one_doc`: the `i`-th system-side type is matched, or the tree cannot be built. */
  method MatchNextType(tab: Table, cur: Table, doc: string, g1: Grouping, g2: Grouping, strict: bool, i: nat)
      returns (ok: bool, next: Table)
    requires i < |g1.keys| && cur == DocPrefix(tab, doc, g1, g2, strict, i)
    ensures ok ==> next == DocPrefix(tab, doc, g1, g2, strict, i + 1)
    ensures ok ==> strict || TreeOk(g1, g2, g1.keys[i])
    ensures !ok ==> !strict && !TypesOk(g1, g2, |g1.keys|)
  {
    var t := g1.keys[i];
    ok, next := MatchType(cur, t, doc, SpansOf(g1, t), SpansOf(g2, t), strict);
    if !ok {
      TypesOkFails(g1, g2, i);
    } else {
      DocPrefixStep(tab, doc, g1, g2, strict, i, t);
    }
  }

  /** One document: every system-side type in order. */
  method CompareOneDoc(tab: Table, doc: string, g1: Grouping, g2: Grouping, strict: bool)
      returns (r: Result<Table, CompareError>)
    ensures r == DocOutcome(tab, doc, g1, g2, strict)
  {
    var cur := tab;
    for i := 0 to |g1.keys|
      invariant strict || TypesOk(g1, g2, i)
      invariant cur == DocPrefix(tab, doc, g1, g2, strict, i)
    {
      var ok, next := MatchNextType(tab, cur, doc, g1, g2, strict, i);
      if !ok {
        return Err(NullInterval);
      }
      if !strict {
        TypesOkStep(g1, g2, i);
      }
      cur := next;
    }
    return Ok(cur);
  }

  /** Once the loop of `compare` fails, the failure is its result. */
  lemma {:induction false} RunPrefixSticks(docs1: OMap<Grouping>, docs2: map<string, Grouping>, mode: string, n: nat, m: nat)
    requires n <= m <= |docs1.keys|
    requires RunPrefix(docs1, docs2, mode, n).Err?
    ensures RunPrefix(docs1, docs2, mode, m) == RunPrefix(docs1, docs2, mode, n)
    decreases m
  {
    if m > n {
      RunPrefixSticks(docs1, docs2, mode, n, m - 1);
    }
  }

  /**
   * `compare`: fails on corpora of different sizes, then matches each system
   * document against the reference document of the same name.
   */
  method Compare(docs1: OMap<Grouping>, docs2: map<string, Grouping>, mode: string)
      returns (r: Result<Table, CompareError>)
    ensures r == CompareSpec(docs1, docs2, mode)
  {
    if |docs1.keys| != |docs2| {
      return Err(UnequalDocCounts);
    }
    var evaluators: Table := Empty();
    for i := 0 to |docs1.keys|
      invariant RunPrefix(docs1, docs2, mode, i) == Ok(evaluators)
    {
      var name := docs1.keys[i];
      if name !in docs2 {
        RunPrefixSticks(docs1, docs2, mode, i + 1, |docs1.keys|);
        return Err(MissingDocument(name));
      }
      if mode == "" {
        RunPrefixSticks(docs1, docs2, mode, i + 1, |docs1.keys|);
        return Err(EmptyMode);
      }
      var outcome := CompareOneDoc(evaluators, name, docs1.Get(name, Empty()), docs2[name], IsStrict(mode));
      if outcome.Err? {
        RunPrefixSticks(docs1, docs2, mode, i + 1, |docs1.keys|);
        return Err(outcome.error);
      }
      evaluators := outcome.value;
    }
    return Ok(evaluators);
  }

  // ---------------------------------------------------------------------------
  // One type step under either policy

  /**
   * Under either policy one type's step raises `tp + fn` by the number of
   * reference spans, never lowers `tp` and leaves `tn` alone; with no
   * reference spans it only raises `fp` by the number of system spans.
   */
  lemma TypeStepCounts(st: Stats, doc: string, sys: seq<Span>, ref: seq<Span>, strict: bool)
    ensures var r := TypeStep(st, doc, sys, ref, strict);
      && r.tp + r.fn == st.tp + st.fn + |ref|
      && st.tp <= r.tp && st.fp <= r.fp && st.fn <= r.fn && r.tn == st.tn
      && (ref == [] ==> r == st.AddFp(|sys|))
  {
    if strict {
      StrictTypeCounts(st, doc, sys, ref);
    } else {
      RelaxTypeCounts(st, doc, sys, ref);
    }
  }

  /**
   * From no more true positives, strict matching of one type ends with no
   * more true positives than relax matching: an exact twin always overlaps.
   */
  lemma StepTpOrder(a: Stats, b: Stats, doc: string, sys: seq<Span>, ref: seq<Span>)
    requires a.tp <= b.tp
    requires ref == [] || NullFree(sys)
    ensures StrictType(a, doc, sys, ref).tp <= RelaxType(b, doc, sys, ref).tp
  {
    if ref != [] {
      StrictTypeTpBound(a, doc, sys, ref);
      TwinCountAtMostHitCount(sys, ref);
      RelaxTypeCounts(b, doc, sys, ref);
    }
  }

  /** Type by type, `s` holds no more true positives than `r`; an absent type counts as an unused evaluator. */
  ghost predicate TpAtMost(s: Table, r: Table) {
    forall t :: s.Get(t, Initial()).tp <= r.Get(t, Initial()).tp
  }

  lemma {:induction false} DocPrefixTpOrder(s: Table, r: Table, doc: string, g1: Grouping, g2: Grouping, n: nat)
    requires n <= |g1.keys| && TypesOk(g1, g2, n)
    requires TpAtMost(s, r)
    ensures TpAtMost(DocPrefix(s, doc, g1, g2, true, n), DocPrefix(r, doc, g1, g2, false, n))
  {
    if n > 0 {
      DocPrefixTpOrder(s, r, doc, g1, g2, n - 1);
      var ps, pr := DocPrefix(s, doc, g1, g2, true, n - 1), DocPrefix(r, doc, g1, g2, false, n - 1);
      var t := g1.keys[n - 1];
      var sys, ref := SpansOf(g1, t), SpansOf(g2, t);
      assert TreeOk(g1, g2, t);
      StepTpOrder(ps.Get(t, Initial()), pr.Get(t, Initial()), doc, sys, ref);
      var ns := ps.Put(t, StrictType(ps.Get(t, Initial()), doc, sys, ref));
      var nr := pr.Put(t, RelaxType(pr.Get(t, Initial()), doc, sys, ref));
      assert DocPrefix(s, doc, g1, g2, true, n) == ns;
      assert DocPrefix(r, doc, g1, g2, false, n) == nr;
      forall u
        ensures ns.Get(u, Initial()).tp <= nr.Get(u, Initial()).tp
      {
        if u != t {
          assert ns.Get(u, Initial()) == ps.Get(u, Initial()) && nr.Get(u, Initial()) == pr.Get(u, Initial());
        }
      }
    }
  }

  lemma {:induction false} RunPrefixTpOrder(docs1: OMap<Grouping>, docs2: map<string, Grouping>, strictMode: string, relaxMode: string, n: nat)
    requires n <= |docs1.keys|
    requires strictMode != "" && IsStrict(strictMode) && relaxMode != "" && !IsStrict(relaxMode)
    requires RunPrefix(docs1, docs2, strictMode, n).Ok? && RunPrefix(docs1, docs2, relaxMode, n).Ok?
    ensures TpAtMost(RunPrefix(docs1, docs2, strictMode, n).value, RunPrefix(docs1, docs2, relaxMode, n).value)
  {
    if n > 0 {
      RunPrefixTpOrder(docs1, docs2, strictMode, relaxMode, n - 1);
      var name := docs1.keys[n - 1];
      var g1 := docs1.Get(name, Empty());
      DocPrefixTpOrder(RunPrefix(docs1, docs2, strictMode, n - 1).value, RunPrefix(docs1, docs2, relaxMode, n - 1).value,
                       name, g1, docs2[name], |g1.keys|);
    }
  }

  /**
   * Over a whole corpus that both policies can compare, no annotation type
   * gets more true positives under strict matching than under relax matching.
   */
  lemma StrictNeverOutscoresRelax(docs1: OMap<Grouping>, docs2: map<string, Grouping>, strictMode: string, relaxMode: string)
    requires strictMode != "" && IsStrict(strictMode) && relaxMode != "" && !IsStrict(relaxMode)
    requires CompareSpec(docs1, docs2, strictMode).Ok? && CompareSpec(docs1, docs2, relaxMode).Ok?
    ensures TpAtMost(CompareSpec(docs1, docs2, strictMode).value, CompareSpec(docs1, docs2, relaxMode).value)
  {
    RunPrefixTpOrder(docs1, docs2, strictMode, relaxMode, |docs1.keys|);
  }

  // ---------------------------------------------------------------------------
  // Outcomes of `compare`

  /**
   * Document `k` passes: its name has a reference counterpart, the mode has a
   * first character, and the chosen policy can match every system-side type.
   */
  predicate DocClean(docs1: OMap<Grouping>, docs2: map<string, Grouping>, mode: string, k: nat)
    requires k < |docs1.keys|
  {
    var name := docs1.keys[k];
    name in docs2 && mode != "" && DocOk(docs1.Get(name, Empty()), docs2[name], IsStrict(mode))
  }

  /** The exception document `k` raises when it does not pass, checked in the order the loop meets them. */
  function DocError(docs1: OMap<Grouping>, docs2: map<string, Grouping>, mode: string, k: nat): CompareError
    requires k < |docs1.keys|
  {
    var name := docs1.keys[k];
    if name !in docs2 then MissingDocument(name)
    else if mode == "" then EmptyMode
    else NullInterval
  }

  lemma {:induction false} RunPrefixOk(docs1: OMap<Grouping>, docs2: map<string, Grouping>, mode: string, n: nat)
    requires n <= |docs1.keys|
    ensures RunPrefix(docs1, docs2, mode, n).Ok? <==> forall k :: 0 <= k < n ==> DocClean(docs1, docs2, mode, k)
  {
    if n > 0 {
      RunPrefixOk(docs1, docs2, mode, n - 1);
      if RunPrefix(docs1, docs2, mode, n - 1).Ok? {
        assert RunPrefix(docs1, docs2, mode, n).Ok? <==> DocClean(docs1, docs2, mode, n - 1);
      } else {
        assert exists k :: 0 <= k < n - 1 && !DocClean(docs1, docs2, mode, k);
      }
    }
  }

  /** Document `k` is the first system document that does not pass. */
  predicate FirstFailure(docs1: OMap<Grouping>, docs2: map<string, Grouping>, mode: string, k: nat)
    requires k < |docs1.keys|
  {
    (forall m :: 0 <= m < k ==> DocClean(docs1, docs2, mode, m)) && !DocClean(docs1, docs2, mode, k)
  }

  /** A failing loop fails at its first document that does not pass, with that document's exception. */
  lemma {:induction false} RunPrefixErr(docs1: OMap<Grouping>, docs2: map<string, Grouping>, mode: string, n: nat)
    requires n <= |docs1.keys|
    requires RunPrefix(docs1, docs2, mode, n).Err?
    ensures exists k :: 0 <= k < n && FirstFailure(docs1, docs2, mode, k)
                        && RunPrefix(docs1, docs2, mode, n).error == DocError(docs1, docs2, mode, k)
  {
    if RunPrefix(docs1, docs2, mode, n - 1).Err? {
      RunPrefixErr(docs1, docs2, mode, n - 1);
    } else {
      RunPrefixOk(docs1, docs2, mode, n - 1);
      assert FirstFailure(docs1, docs2, mode, n - 1);
    }
  }

  /**
   * `compare` succeeds exactly when the corpora have the same size and every
   * system document passes; otherwise it raises the size error first, and
   * then the exception of the first document that does not pass.
   */
  lemma CompareOutcomes(docs1: OMap<Grouping>, docs2: map<string, Grouping>, mode: string)
    ensures CompareSpec(docs1, docs2, mode).Ok?
        <==> |docs1.keys| == |docs2| && forall k :: 0 <= k < |docs1.keys| ==> DocClean(docs1, docs2, mode, k)
    ensures |docs1.keys| != |docs2| ==> CompareSpec(docs1, docs2, mode) == Err(UnequalDocCounts)
    ensures |docs1.keys| == |docs2| && CompareSpec(docs1, docs2, mode).Err? ==>
      exists k :: 0 <= k < |docs1.keys| && FirstFailure(docs1, docs2, mode, k)
                  && CompareSpec(docs1, docs2, mode).error == DocError(docs1, docs2, mode, k)
  {
    RunPrefixOk(docs1, docs2, mode, |docs1.keys|);
    if |docs1.keys| == |docs2| && CompareSpec(docs1, docs2, mode).Err? {
      RunPrefixErr(docs1, docs2, mode, |docs1.keys|);
    }
  }

  lemma {:induction false} RunPrefixDispatch(docs1: OMap<Grouping>, docs2: map<string, Grouping>, mode: string, n: nat)
    requires n <= |docs1.keys| && mode != ""
    ensures RunPrefix(docs1, docs2, mode, n) == RunPrefix(docs1, docs2, if IsStrict(mode) then "strict" else "relax", n)
  {
    if n > 0 {
      RunPrefixDispatch(docs1, docs2, mode, n - 1);
    }
  }

  /**
   * Only the first character of a non-empty mode matters: `compare` with it is
   * `compare` with "strict" when that character is `s` or `S`, and with
   * "relax" otherwise.
   */
  lemma CompareDispatch(docs1: OMap<Grouping>, docs2: map<string, Grouping>, mode: string)
    requires mode != ""
    ensures CompareSpec(docs1, docs2, mode) == CompareSpec(docs1, docs2, if IsStrict(mode) then "strict" else "relax")
    ensures IsStrict(mode) <==> mode[0] == 's' || mode[0] == 'S'
  {
    RunPrefixDispatch(docs1, docs2, mode, |docs1.keys|);
  }

  // ---------------------------------------------------------------------------
  // Which evaluators exist, and what each one counts

  /** One document adds an evaluator for each of its system-side types and for no other, keeping the table well formed. */
  lemma {:induction false} DocPrefixKeys(tab: Table, doc: string, g1: Grouping, g2: Grouping, strict: bool, n: nat)
    requires n <= |g1.keys|
    ensures var r := DocPrefix(tab, doc, g1, g2, strict, n);
      && (tab.Valid() ==> r.Valid())
      && forall t :: t in r.entries <==> t in tab.entries || t in g1.keys[..n]
  {
    if n > 0 {
      DocPrefixKeys(tab, doc, g1, g2, strict, n - 1);
      forall t ensures t in g1.keys[..n] <==> t in g1.keys[..n - 1] || t == g1.keys[n - 1] {
        InPrefix(g1.keys, n, t);
      }
    }
  }

  /** Every evaluator in the table holds well-formed evidence dictionaries. */
  ghost predicate EvaluatorsValid(tab: Table) {
    forall t :: t in tab.entries ==> tab.entries[t].Valid()
  }

  /** Matching one type under either policy keeps both evidence dictionaries well formed. */
  lemma TypeStepValid(st: Stats, doc: string, sys: seq<Span>, ref: seq<Span>, strict: bool)
    requires st.Valid()
    ensures TypeStep(st, doc, sys, ref, strict).Valid()
  {
    if strict {
      StrictTypeValid(st, doc, sys, ref);
    } else {
      RelaxTypeValid(st, doc, sys, ref);
    }
  }

  /** One document keeps every evaluator's evidence well formed, the new ones included. */
  lemma {:induction false} DocPrefixValid(tab: Table, doc: string, g1: Grouping, g2: Grouping, strict: bool, n: nat)
    requires n <= |g1.keys| && EvaluatorsValid(tab)
    ensures EvaluatorsValid(DocPrefix(tab, doc, g1, g2, strict, n))
  {
    if n > 0 {
      DocPrefixValid(tab, doc, g1, g2, strict, n - 1);
      var prev := DocPrefix(tab, doc, g1, g2, strict, n - 1);
      var t := g1.keys[n - 1];
      var cur := prev.Get(t, Initial());
      assert cur.Valid() by {
        if t in prev.entries {
          assert prev.entries[t].Valid();
        }
      }
      var step := TypeStep(cur, doc, SpansOf(g1, t), SpansOf(g2, t), strict);
      TypeStepValid(cur, doc, SpansOf(g1, t), SpansOf(g2, t), strict);
      var next := prev.Put(t, step);
      assert DocPrefix(tab, doc, g1, g2, strict, n) == next;
      forall u | u in next.entries ensures next.entries[u].Valid() {
        if u != t {
          assert next.entries[u] == prev.entries[u];
        }
      }
    }
  }

  /** Every evaluator in the table holds counts of at least zero. */
  ghost predicate CountsNonneg(tab: Table) {
    forall t :: t in tab.entries ==> tab.entries[t].tp >= 0 && tab.entries[t].fp >= 0 && tab.entries[t].fn >= 0
  }

  /** One document keeps every evaluator's counts at least zero, the new ones included. */
  lemma {:induction false} DocPrefixNonneg(tab: Table, doc: string, g1: Grouping, g2: Grouping, strict: bool, n: nat)
    requires n <= |g1.keys| && CountsNonneg(tab)
    ensures CountsNonneg(DocPrefix(tab, doc, g1, g2, strict, n))
  {
    if n > 0 {
      DocPrefixNonneg(tab, doc, g1, g2, strict, n - 1);
      var prev := DocPrefix(tab, doc, g1, g2, strict, n - 1);
      var t := g1.keys[n - 1];
      var st := prev.Get(t, Initial());
      assert st.tp >= 0 && st.fp >= 0 && st.fn >= 0 by {
        if t in prev.entries {
          assert prev.entries[t] == st;
        }
      }
      var step := TypeStep(st, doc, SpansOf(g1, t), SpansOf(g2, t), strict);
      TypeStepCounts(st, doc, SpansOf(g1, t), SpansOf(g2, t), strict);
      var next := prev.Put(t, step);
      assert DocPrefix(tab, doc, g1, g2, strict, n) == next;
      forall u | u in next.entries ensures next.entries[u].tp >= 0 && next.entries[u].fp >= 0 && next.entries[u].fn >= 0 {
        if u != t {
          assert next.entries[u] == prev.entries[u];
        }
      }
    }
  }

  /** The system-side types of the first `n` documents. */
  ghost predicate SeenType(docs1: OMap<Grouping>, n: nat, t: string)
    requires n <= |docs1.keys|
  {
    exists k :: 0 <= k < n && t in docs1.Get(docs1.keys[k], Empty()).keys
  }

  lemma {:induction false} RunPrefixKeys(docs1: OMap<Grouping>, docs2: map<string, Grouping>, mode: string, n: nat)
    requires n <= |docs1.keys|
    requires RunPrefix(docs1, docs2, mode, n).Ok?
    ensures var r := RunPrefix(docs1, docs2, mode, n).value;
      && r.Valid() && EvaluatorsValid(r) && CountsNonneg(r)
      && forall t :: t in r.entries <==> SeenType(docs1, n, t)
  {
    if n > 0 {
      RunPrefixKeys(docs1, docs2, mode, n - 1);
      var name := docs1.keys[n - 1];
      var g1 := docs1.Get(name, Empty());
      var prev := RunPrefix(docs1, docs2, mode, n - 1).value;
      DocPrefixKeys(prev, name, g1, docs2[name], IsStrict(mode), |g1.keys|);
      DocPrefixValid(prev, name, g1, docs2[name], IsStrict(mode), |g1.keys|);
      DocPrefixNonneg(prev, name, g1, docs2[name], IsStrict(mode), |g1.keys|);
      assert g1.keys[..|g1.keys|] == g1.keys;
      forall t
        ensures SeenType(docs1, n, t) <==> SeenType(docs1, n - 1, t) || t in g1.keys
      {
        if SeenType(docs1, n, t) && !(t in g1.keys) {
          var k :| 0 <= k < n && t in docs1.Get(docs1.keys[k], Empty()).keys;
          assert k < n - 1;
        }
      }
    }
  }

  /**
   * `compare` creates an evaluator for exactly the types that occur on the
   * system side of some document; a type found only in the reference
   * annotations gets none, so its spans are never counted.
   */
  lemma CompareEvaluatorKeys(docs1: OMap<Grouping>, docs2: map<string, Grouping>, mode: string)
    requires CompareSpec(docs1, docs2, mode).Ok?
    ensures var r := CompareSpec(docs1, docs2, mode).value;
      && r.Valid()
      && (forall t :: t in r.entries ==> r.entries[t].fps.Valid() && r.entries[t].fns.Valid())
      && (forall t :: t in r.entries ==> r.entries[t].tp >= 0 && r.entries[t].fp >= 0 && r.entries[t].fn >= 0)
      && forall t :: t in r.entries <==> SeenType(docs1, |docs1.keys|, t)
  {
    RunPrefixKeys(docs1, docs2, mode, |docs1.keys|);
  }

  /** No type is listed twice in the order of a grouping. */
  predicate DistinctTypes(g: Grouping) {
    forall i, j :: 0 <= i < j < |g.keys| ==> g.keys[i] != g.keys[j]
  }

  /** Membership in a growing prefix of the type order. */
  lemma InPrefix(ts: seq<string>, n: nat, t: string)
    requires 0 < n <= |ts|
    ensures t in ts[..n] <==> t in ts[..n - 1] || t == ts[n - 1]
  {
    assert ts[..n] == ts[..n - 1] + [ts[n - 1]];
  }

  /** In a grouping without repeated types, a type does not occur before its own place. */
  lemma NotEarlier(g: Grouping, n: nat)
    requires n < |g.keys| && DistinctTypes(g)
    ensures g.keys[n] !in g.keys[..n]
  {
    var init := g.keys[..n];
    forall i | 0 <= i < |init| ensures init[i] != g.keys[n] {
      assert init[i] == g.keys[i];
    }
  }

  /** Within one document each system-side type is matched once, on the evaluator the type had before. */
  lemma {:induction false} DocPrefixAt(tab: Table, doc: string, g1: Grouping, g2: Grouping, strict: bool, n: nat, t: string)
    requires n <= |g1.keys| && DistinctTypes(g1)
    ensures DocPrefix(tab, doc, g1, g2, strict, n).Get(t, Initial())
         == if t in g1.keys[..n] then TypeStep(tab.Get(t, Initial()), doc, SpansOf(g1, t), SpansOf(g2, t), strict)
            else tab.Get(t, Initial())
  {
    if n > 0 {
      DocPrefixAt(tab, doc, g1, g2, strict, n - 1, t);
      var prev := DocPrefix(tab, doc, g1, g2, strict, n - 1);
      var u := g1.keys[n - 1];
      var step := TypeStep(prev.Get(u, Initial()), doc, SpansOf(g1, u), SpansOf(g2, u), strict);
      DocPrefixStep(tab, doc, g1, g2, strict, n - 1, u);
      assert DocPrefix(tab, doc, g1, g2, strict, n) == prev.Put(u, step);
      InPrefix(g1.keys, n, t);
      if t == u {
        NotEarlier(g1, n - 1);
        assert prev.Get(u, Initial()) == tab.Get(u, Initial());
        assert prev.Put(u, step).Get(t, Initial()) == step;
      } else {
        assert prev.Put(u, step).Get(t, Initial()) == prev.Get(t, Initial());
      }
    }
  }

  /**
   * Over one document, the evaluator of each system-side type gains exactly
   * the type's reference spans in `tp + fn`; every other evaluator is unchanged.
   */
  lemma DocReferenceConservation(tab: Table, doc: string, g1: Grouping, g2: Grouping, strict: bool, t: string)
    requires DistinctTypes(g1)
    ensures var before, after := tab.Get(t, Initial()), DocPrefix(tab, doc, g1, g2, strict, |g1.keys|).Get(t, Initial());
      && after.tp + after.fn == before.tp + before.fn + (if t in g1.keys then |SpansOf(g2, t)| else 0)
      && (t !in g1.keys ==> after == before)
  {
    DocPrefixAt(tab, doc, g1, g2, strict, |g1.keys|, t);
    assert g1.keys[..|g1.keys|] == g1.keys;
    TypeStepCounts(tab.Get(t, Initial()), doc, SpansOf(g1, t), SpansOf(g2, t), strict);
  }

  /** The reference spans of type `t` over the first `n` documents in which `t` occurs on the system side. */
  function RefTotal(docs1: OMap<Grouping>, docs2: map<string, Grouping>, n: nat, t: string): nat
    requires n <= |docs1.keys|
  {
    if n == 0 then 0
    else
      var name := docs1.keys[n - 1];
      RefTotal(docs1, docs2, n - 1, t)
        + (if t in docs1.Get(name, Empty()).keys && name in docs2 then |SpansOf(docs2[name], t)| else 0)
  }

  lemma {:induction false} RunPrefixReference(docs1: OMap<Grouping>, docs2: map<string, Grouping>, mode: string, n: nat, t: string)
    requires n <= |docs1.keys|
    requires forall k :: 0 <= k < |docs1.keys| ==> DistinctTypes(docs1.Get(docs1.keys[k], Empty()))
    requires RunPrefix(docs1, docs2, mode, n).Ok?
    ensures var r := RunPrefix(docs1, docs2, mode, n).value.Get(t, Initial());
      r.tp + r.fn == RefTotal(docs1, docs2, n, t)
  {
    if n > 0 {
      RunPrefixReference(docs1, docs2, mode, n - 1, t);
      var name := docs1.keys[n - 1];
      var g1 := docs1.Get(name, Empty());
      DocReferenceConservation(RunPrefix(docs1, docs2, mode, n - 1).value, name, g1, docs2[name], IsStrict(mode), t);
    }
  }

  /**
   * Corpus-wide, every reference span whose type occurs on the system side of
   * its document is counted exactly once, as a tp or as an fn.
   */
  lemma CompareReferenceConservation(docs1: OMap<Grouping>, docs2: map<string, Grouping>, mode: string, t: string)
    requires forall k :: 0 <= k < |docs1.keys| ==> DistinctTypes(docs1.Get(docs1.keys[k], Empty()))
    requires CompareSpec(docs1, docs2, mode).Ok?
    ensures var r := CompareSpec(docs1, docs2, mode).value.Get(t, Initial());
      r.tp + r.fn == RefTotal(docs1, docs2, |docs1.keys|, t)
  {
    RunPrefixReference(docs1, docs2, mode, |docs1.keys|, t);
  }
}
