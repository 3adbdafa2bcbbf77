# Annotation comparison engine, modelled in Dafny

This project models the matching engine of `compare_utils.py`. The engine
scores a system annotator against a reference annotator over a corpus of
documents. Each document's annotations are grouped by type, and each span
`[start, end)` is classified as a true positive, false positive or false
negative. There is one `Evaluator` per annotation type, shared across the
whole corpus.

The model has eight modules, one per file:

- `outcomes.dfy` (`Outcomes`): `Option` and `Result`. These stand in for
  Python's `None` and for raised exceptions.
- `omap.dfy` (`OrderedMaps`): insertion-ordered dictionaries, used for
  Python's `dict` and `OrderedDict`. `keys` is the iteration order and
  `entries` is the lookup table.
- `spans.dfy` (`Spans`): the `Span` record (type, offsets, text); the
  stable sort by start offset; and the grouping loop of
  `group_brat_annotations`.
- `evaluation.dfy` (`Evaluation`): the `Evaluator` class and `Stats`, the
  value the class holds at one moment.
- `strict.dfy` (`StrictMatch`): `strict_compare_one_doc` for one type. This
  is a two-cursor walk over both sorted lists, followed by the leftover step.
  The leftover step is modelled both as written and corrected; see Findings.
- `relax.dfy` (`RelaxMatch`): `relax_compare_one_doc` for one type, and
  `build_interval_tree`. The interval tree's query is modelled as the set
  of indices of the system spans that overlap the query range.
- `comparison.dfy` (`Comparison`): the per-document loops and `compare`.
  The evaluators dict is a table `Table` from type to `Stats`. Each
  type's step runs on an `Evaluator` object loaded from the table and
  stored back into it.
- `scenarios.dfy` (`Scenarios`): worked cases that contrast strict and
  relax matching on concrete spans.

Each statement loop of the source is a `method` with a `while` or `for` loop: the
strict walk, the relax loop, interval-tree building, the per-document type
loop, the document loop of `compare`, and the grouping loop. The list comprehensions of
relax matching (compare_utils.py:222, 224, 227) are functions
(`RelaxMatch.Overlapping`, `RelaxMatch.Unclaimed`, `RelaxMatch.Pick`). Each method is
proved equal to a specification function, and the lemmas prove the
properties of those functions.

Three facts about the code shape the model:

- Evaluators are created only for annotation types that occur on the
  system side (compare_utils.py:145-147, 202-204). A type that occurs only
  in the reference is never counted (`Comparison.CompareEvaluatorKeys`).
- Under strict matching, `tp + fp` can be smaller than the number of
  system spans (compare_utils.py:165-173). Two spans with equal start and
  different end consume the system span without counting it. So only
  `tp + fp <= |sys|` holds (`StrictMatch.StrictTypeCounts`); system (10,20)
  against reference (10,15) gives tp = 0, fp = 0, fn = 1
  (`Scenarios.TiedStartDropsSystemSpan`).
- The strict leftover step (compare_utils.py:183-188) calls a method that
  `Evaluator` does not define. The model states that behaviour per type
  (`StrictMatch.StrictTypeAsWritten`) and uses the corrected step
  (`StrictMatch.StrictType`) everywhere else; rows marked "corrected
  leftover step" depend on it. See Findings.

## Model

| member | source | states |
|---|---|---|
| Evaluation.Evaluator.constructor | compare_utils.py:10-19 | The given counters, `tn` possibly absent, and empty evidence dictionaries. |
| Evaluation.Evaluator.AddTp | compare_utils.py:21-22 | `tp` rises by `n`; every other field is unchanged. |
| Evaluation.Evaluator.AddTn | compare_utils.py:24-28 | `tn` becomes `n` when absent, otherwise rises by `n`; every other field is unchanged. |
| Evaluation.Evaluator.AddFp | compare_utils.py:30-31 | `fp` rises by `n`; every other field is unchanged. |
| Evaluation.Evaluator.AddFn | compare_utils.py:33-34 | `fn` rises by `n`; every other field is unchanged. |
| Evaluation.Evaluator.AppendFps | compare_utils.py:36-39 | `fps` becomes `Extend(old fps, doc, xs)` and stays well formed; the counters and `fns` are unchanged. |
| Evaluation.Evaluator.AppendFns | compare_utils.py:41-44 | `fns` becomes `Extend(old fns, doc, xs)` and stays well formed; the counters and `fps` are unchanged. |
| Evaluation.Extend | compare_utils.py:36-44 | The entry for `doc` is its old list (or `[]`) followed by `xs`. Other documents keep their lists and their membership. The key order is kept, and a new document goes last. Well-formedness is preserved. |
| Evaluation.Initial | compare_utils.py:146-147 | The value of a fresh `Evaluator()` has well-formed evidence dictionaries. |
| Evaluation.Evaluator.Total | compare_utils.py:49-50 | Defined exactly when `tn` is present, and then equal to `tp + fp + 2*tn`. It equals the sum of all four counts exactly when `fn == tn`: `tn` is counted twice and `fn` not at all. |
| OrderedMaps.OMap.Put | compare_utils.py:87-89 | Assigning a key keeps the dictionary well formed: keys stay distinct and stay in step with the lookup table. |
| Spans.Insert | compare_utils.py:154-155 | The result is one longer than the input, starts with `x` or the old head, and is sorted if the input was sorted. |
| Spans.InsertPermutes | compare_utils.py:154-155 | Insertion adds exactly `x`, as a multiset. |
| Spans.SortByStart | compare_utils.py:154-155 | The result is sorted by start offset and is a permutation of the input. |
| Spans.SortByStartIsStable | compare_utils.py:154-155 | The sort is stable: for every offset `k`, the spans that start at `k` keep their input order. |
| Spans.CountSortByStart | compare_utils.py:154-155 | Sorting does not change how many spans satisfy any predicate. |
| Spans.Grouped | compare_utils.py:87-89 | The grouping is always a well-formed ordered dictionary. |
| Spans.GroupedByKind | compare_utils.py:87-89 | Each type's list holds exactly the records of that type, in input order. A type is a key if and only if some record has it. |
| Spans.GroupAnnotations | compare_utils.py:76-89 | The loop builds exactly `Grouped(records)`. |
| StrictMatch.StrictLoop | compare_utils.py:162-181 | The walk keeps both cursors in bounds and never moves one backwards. At exit, at least one list is fully consumed. |
| StrictMatch.StrictLoopCounts | compare_utils.py:162-181 | `tp + fn` rises by exactly the number of reference spans consumed, and `tp + fp` by at most the number of system spans consumed. No counter falls, and `tn` is untouched. |
| StrictMatch.StrictStepEvidence | compare_utils.py:163-181 | One iteration advances the cursors, leaves the walk's end unchanged, appends at most the one span it consumes (a reference span for an fn, a system span for an fp), and keeps the evidence well formed. |
| StrictMatch.StrictLoopValid | compare_utils.py:162-181 | The walk keeps both evidence dictionaries well formed. |
| StrictMatch.StrictLoopEvidence | compare_utils.py:162-181 | The walk only appends under `doc`: one fn span per counted fn, and as a multiset these are among the reference spans it consumed; one fp span per counted fp, among the system spans it consumed. Other documents' evidence is unchanged. When both lists are sorted by start, the spans it appends are in start order and start no later than any span still unconsumed on the same side. |
| StrictMatch.StrictLoopTpBound | compare_utils.py:165-167 | True positives never exceed the unconsumed reference spans that have an exact twin among the system spans. |
| StrictMatch.StrictTypeCounts | compare_utils.py:150-188 | Over one type, `tp + fn` rises by `|ref|` and `tp + fp` by at most `|sys|`. No counter falls, and `tn` is untouched. (corrected leftover step) |
| StrictMatch.StrictTypeEvidence | compare_utils.py:154-188 | Over one type, the fns appended under `doc` are one per counted fn and, as a multiset, contained in the reference spans; the fps likewise in the system spans. Each of the two appended runs is in start order. Other documents are untouched. (corrected leftover step) |
| StrictMatch.StrictLoopSorted | compare_utils.py:162-181 | On sorted lists the walk appends fns in start order, each starting no later than every unconsumed reference span, and likewise fps against the unconsumed system spans: fns are taken as `a2[p2]` with `p2` only growing, fps as `a1[p1]`. |
| StrictMatch.LeftoverSorted | compare_utils.py:183-188 | The corrected leftover step appends a whole sorted remainder after spans that start no later than it, so the recorded runs stay sorted by start. (corrected leftover step) |
| StrictMatch.StrictTypeSorted | compare_utils.py:154-188 | Over one type, the fns appended under `doc` are sorted by start, and so are the fps. (corrected leftover step) |
| StrictMatch.LeftoverEvidence | compare_utils.py:183-188 | Corrected leftover step: if system spans are left over, exactly `a1[p1..]` is appended to the fps and counted; otherwise exactly `a2[p2..]` is appended to the fns and counted. `tp`, `tn` and other documents are unchanged. |
| StrictMatch.LeftoverDrawn | compare_utils.py:183-188 | The corrected leftover step appends, one per count, only unconsumed spans of the matching side. (corrected leftover step) |
| StrictMatch.WalkDrawn | compare_utils.py:162-188 | Walk and leftover step together append, one per count, only spans drawn (as a multiset) from the two sorted lists. (corrected leftover step) |
| StrictMatch.StrictTypeValid | compare_utils.py:150-188 | Strict matching of one type keeps both evidence dictionaries well formed. (corrected leftover step) |
| StrictMatch.StrictTypeTpBound | compare_utils.py:154-181 | Strict tp never exceeds the number of reference spans that have an exact twin among the system spans. (corrected leftover step) |
| StrictMatch.LeftoverAsWritten | compare_utils.py:183-188 | As written, the step fails exactly when spans are left over. It fails after the counter update and before any evidence is recorded. |
| StrictMatch.AsWrittenFailsOnLeftover | compare_utils.py:183-188 | The type ends normally, with the corrected result, exactly when nothing is left over. Otherwise it fails with the corrected counters and the walk's evidence only. |
| StrictMatch.LeftoverCounterexample | compare_utils.py:183-188 | System (10,20) against reference (12,18): as written this fails with fp = 1, fn = 1. The corrected version records both spans. |
| StrictMatch.StrictStep | compare_utils.py:163-181 | One iteration advances at least one cursor. The walk from the new cursors and new state ends where the walk from the old ones would. |
| StrictMatch.StrictTail | compare_utils.py:183-188 | The evaluator ends as the corrected leftover step of the walk. |
| StrictMatch.StrictCompareType | compare_utils.py:150-188 | The evaluator ends in `StrictType` of its old value. (corrected leftover step) |
| RelaxMatch.Overlapping | compare_utils.py:216 | The query returns exactly the indices of the system spans whose `[start, end)` overlaps the reference range. An empty range returns nothing. |
| RelaxMatch.BuildIntervalTree | compare_utils.py:192-198 | Building succeeds if and only if no system span has an empty interval. |
| RelaxMatch.Unclaimed | compare_utils.py:224 | `remain_ids` holds exactly the unclaimed indices below `n`, in ascending order. |
| RelaxMatch.Misses | compare_utils.py:215-219 | Every span in the list is a reference span that no system span overlaps, every such reference span is in it, and it is no longer than the reference list. |
| RelaxMatch.RelaxLoopCounts | compare_utils.py:215-222 | After `k` reference spans, `tp` rose by those some system span overlaps and `fn` by the rest. `fp`, `tn` and `fps` are unchanged. |
| RelaxMatch.RelaxLoopEvidence | compare_utils.py:215-219 | After `k` reference spans, the fns under `doc` are the old list followed by exactly `Misses` of those spans, and `fn` rose by its length. Other documents are untouched. |
| RelaxMatch.RelaxLoopValid | compare_utils.py:215-222 | The loop keeps both evidence dictionaries well formed. |
| RelaxMatch.RelaxLoopClaims | compare_utils.py:214-222 | The claimed indices are exactly those that some of the first `k` reference spans overlap. |
| RelaxMatch.RelaxClaimed | compare_utils.py:214-222 | After the loop, the claimed set is every system index that any reference span overlaps. |
| RelaxMatch.RelaxTypeCounts | compare_utils.py:207-227 | Over one type, `tp + fn` rises by `|ref|`, and `tp` by the overlapped reference spans. `fp` and `fn` never fall, and `tn` is untouched. With reference spans, `fp` rises by the number of unclaimed system spans. |
| RelaxMatch.RelaxTypeEvidence | compare_utils.py:213-227 | With reference spans: the unclaimed indices are exactly the system spans no reference span overlaps; the fps under `doc` gain element `k` = `sys[remain[k]]` for each, in index order, and `fp` rises by their number. The fns gain exactly the missed reference spans in input order, and `fn` by their number. Other documents are untouched. |
| RelaxMatch.RelaxTypeFps | compare_utils.py:224-227 | With reference spans, the fps under `doc` gain `sys[remain[k]]` at place `k`, in index order, for exactly the system spans no reference span overlaps, and `fp` rises by their number. |
| RelaxMatch.RelaxTypeValid | compare_utils.py:207-227 | Relax matching of one type keeps both evidence dictionaries well formed. |
| RelaxMatch.ExactTwinMatches | compare_utils.py:216-224 | A system span with the same interval as a reference span is claimed, is never an fp, and makes that reference span a tp. |
| RelaxMatch.TwinCountAtMostHitCount | compare_utils.py:216-221 | With no empty system intervals, every reference span that has an exact twin is overlapped. |
| RelaxMatch.RelaxCompareType | compare_utils.py:207-227 | Succeeds if and only if the type falls back or has no empty system interval. On success the evaluator ends in `RelaxType` of its old value; on failure it is unchanged. |
| Comparison.MatchType | compare_utils.py:145-152 | The type's evaluator is created at zero if absent and matched under the policy. The table entry is replaced by the result. Fails only under relax matching, on an empty system interval. (corrected leftover step) |
| Comparison.MatchNextType | compare_utils.py:145-148 | One step of the type loop gives the next prefix of the document, or shows that relax matching of this document fails. (corrected leftover step) |
| Comparison.CompareOneDoc | compare_utils.py:144-152 | The per-document loop ends in `DocOutcome`: all system-side types matched in order, or the interval-tree error. (corrected leftover step) |
| Comparison.Compare | compare_utils.py:121-139 | The method ends in `CompareSpec`: the size check, then each system document in order. (corrected leftover step) |
| Comparison.RunPrefixSticks | compare_utils.py:132-137 | Once a document fails, the failure is the result of `compare`. (corrected leftover step) |
| Comparison.TypeStepCounts | compare_utils.py:150-152 | Under either policy, `tp + fn` rises by `|ref|`, no counter falls and `tn` is untouched. With no reference spans the only change is `fp += |sys|`. (corrected leftover step) |
| Comparison.TypeStepValid | compare_utils.py:150-152 | Under either policy, one type step keeps both evidence dictionaries well formed. (corrected leftover step) |
| Comparison.StepTpOrder | compare_utils.py:165-167 | From no more true positives, strict matching of a type never ends with more tp than relax matching. (corrected leftover step) |
| Comparison.DocPrefixTpOrder | compare_utils.py:144-152 | For a whole document, strict tp is at most relax tp for every type. (corrected leftover step) |
| Comparison.RunPrefixTpOrder | compare_utils.py:132-137 | Over the documents processed so far, strict tp is at most relax tp for every type. (corrected leftover step) |
| Comparison.StrictNeverOutscoresRelax | compare_utils.py:121-139 | When both modes succeed on a corpus, every type's strict tp is at most its relax tp. (corrected leftover step) |
| Comparison.RunPrefixOk | compare_utils.py:132-137 | The loop succeeds if and only if every document so far has a reference counterpart, a non-empty mode, and matchable types. (corrected leftover step) |
| Comparison.RunPrefixErr | compare_utils.py:132-137 | A failing loop fails at its first failing document, with that document's exception. (corrected leftover step) |
| Comparison.CompareOutcomes | compare_utils.py:128-139 | `compare` succeeds if and only if the sizes agree and every document passes. Otherwise it fails with the size error first, then with the first failing document's exception. (corrected leftover step) |
| Comparison.RunPrefixDispatch | compare_utils.py:134-137 | The loop under any non-empty mode is the loop under "strict" or "relax". (corrected leftover step) |
| Comparison.CompareDispatch | compare_utils.py:134-137 | `compare` under a mode is `compare` under "strict" exactly when the first character is 's' or 'S', and under "relax" otherwise. (corrected leftover step) |
| Comparison.DocPrefixKeys | compare_utils.py:145-148 | One document adds an evaluator for each of its system-side types and no other, keeping the table well formed. (corrected leftover step) |
| Comparison.DocPrefixValid | compare_utils.py:145-152 | After any prefix of a document's types, every evaluator in the table, new ones included, has well-formed evidence dictionaries. (corrected leftover step) |
| Comparison.DocPrefixNonneg | compare_utils.py:145-152 | After any prefix of a document's types, every evaluator in the table, new ones included, has `tp`, `fp` and `fn` of at least zero, because every count the core passes is at least zero. (corrected leftover step) |
| Comparison.RunPrefixKeys | compare_utils.py:132-137 | After the documents so far, the table is well formed, every evaluator's evidence dictionaries are well formed, every evaluator's `tp`, `fp` and `fn` are at least zero, and the table holds exactly the types seen on their system side. (corrected leftover step) |
| Comparison.CompareEvaluatorKeys | compare_utils.py:145-147 | The result of `compare` is well formed. Every evaluator in it has well-formed `fps` and `fns` and `tp`, `fp`, `fn` of at least zero. There is an evaluator exactly for each type seen on the system side of some document. (corrected leftover step) |
| Comparison.DocPrefixAt | compare_utils.py:145-152 | After the first `n` types of a document, each of those types holds one policy step applied to its old value, and every other type is unchanged. (corrected leftover step) |
| Comparison.DocReferenceConservation | compare_utils.py:145-152 | One document raises a type's `tp + fn` by its reference spans when the system side has that type, and otherwise leaves the type unchanged. (corrected leftover step) |
| Comparison.RunPrefixReference | compare_utils.py:132-137 | Over the documents so far, a type's `tp + fn` is the number of its reference spans in the documents whose system side has it. (corrected leftover step) |
| Comparison.CompareReferenceConservation | compare_utils.py:121-139 | Corpus-wide, every reference span whose type occurs on its document's system side is counted exactly once, as tp or fn. (corrected leftover step) |
| Scenarios.ExactSpanMatchesUnderBoth | compare_utils.py:165-167 | An identical pair of spans is one true positive under both policies. (corrected leftover step) |
| Scenarios.ContainedSpanFailsStrict | compare_utils.py:174-177 | System (10,20) against reference (12,18) is one fp and one fn under strict matching, and both spans are recorded. (corrected leftover step) |
| Scenarios.ContainedSpanPassesRelax | compare_utils.py:215-222 | The same pair is one true positive under relax matching. |
| Scenarios.MissedSpanUnderBoth | compare_utils.py:186-188 | At the level of one type step, where the system grouping lists the type with no spans: a reference span with no system span is one recorded fn under both policies. `Spans.Grouped` never builds such a grouping, and `compare` does not count a type that is missing on the system side. (corrected leftover step) |
| Scenarios.TwoOverlapsFailStrict | compare_utils.py:174-188 | Two system spans that each overlap one reference span give two fps and one fn under strict matching. (corrected leftover step) |
| Scenarios.TwoOverlapsPassRelax | compare_utils.py:215-227 | The same spans give one tp and no fp under relax matching: the reference span claims both. |
| Scenarios.TiedStartDropsSystemSpan | compare_utils.py:165-173 | System (10,20) against reference (10,15) under strict matching records one fn and nothing else, so `tp + fp` is 0 while there is one system span. (corrected leftover step) |

## Left out

- `docs_reader` and `compare_projects` (compare_utils.py:93-118): directory listing, file reading and `print` are I/O. The inputs to `compare` are parameters here.
- BRAT line tokenising in `group_brat_annotations` (compare_utils.py:77-86): this relies on Python's `str.split` and `int()`. Only the grouping of already-parsed records is modelled.
- `get_recall`, `get_precision` and `f1` (compare_utils.py:52-59): floating-point division and Python `round`.
- `report` (compare_utils.py:67-69): an empty placeholder.
- The `intervaltree` library: its internals are replaced by the overlap filter `RelaxMatch.Overlapping`.
- `AnnotatedDocument` and `Annotation` are not part of this model. A document is its `Grouping` of `Span` records, and a corpus is a map from document name to grouping.
- Comparison.Compare: strict matching uses the corrected leftover step (`StrictMatch.StrictType`). The AttributeError the source raises after counting leftovers (compare_utils.py:183-188) is modelled only per type, by `StrictMatch.StrictTypeAsWritten`, and is not a `CompareError`.
- Default arguments are not modelled: every `add_*` call passes its count, where the source defaults `n` to 1 (compare_utils.py:21-34), and `compare` always receives a mode, where the source defaults `compare_method` to 'relax' (compare_utils.py:121).
- StrictMatch.StrictTypeEvidence: states the recorded fns as a sub-multiset of the reference spans, one per count, sorted by start, and the recorded fps likewise. It does not state that they form a subsequence of the sorted list, so the order among spans with equal starts is left open. `StrictMatch.LeftoverEvidence` states the leftover part exactly.
- StrictMatch.StrictLoopEvidence: states the spans the walk records as a sub-multiset of the spans it consumed and, on sorted input, in start order. It does not state which subsequence of the sorted list they form, for the same reason.
- Evaluation.Evaluator.GetValues, Evaluation.Evaluator.GetFns, Evaluation.Evaluator.GetFps: these return fields unchanged, so there is nothing to state beyond their bodies.
- Comparison.Compare: evaluator objects are not shared by reference across the corpus. The table holds each evaluator's value, and each type step runs on an `Evaluator` loaded from the table and stored back. So aliasing of evaluator objects is not modelled.
- Relax matching with an empty system interval: the interval tree raises an error here. `RelaxMatch.RelaxCompareType` reports it and `compare` ends with `NullInterval`; there is no precondition for it.
- An empty mode string raises an index error at the first document; this is modelled as `EmptyMode`. Python's `lower()` on non-ASCII characters is not modelled; only 's' and 'S' select strict matching.
- Concurrency and integer width do not arise: Python integers are unbounded, as are Dafny's.

## Findings

| source | as written | input that shows it | evidently intended | confidence | as-written member | corrected member |
|---|---|---|---|---|---|---|
| compare_utils.py:183-188 | After the strict walk, the leftover spans are counted and then passed to `evaluator.add_fps`. `Evaluator` defines no such method (only `append_fps`, compare_utils.py:36), so the call fails after the counter has been raised. Reference-side leftovers are also routed to the fp call. | One type, system span (10,20), reference span (12,18): the walk counts the system span as fp and leaves the reference span over. | Leftover system spans are appended with `append_fps` and leftover reference spans with `append_fns`, one per counted span. | not executed | StrictMatch.LeftoverAsWritten, StrictMatch.LeftoverCounterexample | StrictMatch.LeftoverEvidence, StrictMatch.StrictTypeEvidence |
