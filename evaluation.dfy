/**
 * The per-annotation-type accumulator: counts of true positives, false
 * positives and false negatives, an optional true-negative count, and the
 * false-positive / false-negative spans kept as evidence per document.
 */
module Evaluation {
  import opened Outcomes
  import opened OrderedMaps
  import opened Spans

  /** Document name -> the spans recorded for it, in insertion order (an `OrderedDict`). */
  type Evidence = OMap<seq<Span>>

  /**
   * `append_fps` / `append_fns`: the entry for `doc` becomes its old list, or `[]`
   * when absent, followed by `xs`; other documents keep their lists, and a new
   * document goes last in the order.
   */
  function Extend(e: Evidence, doc: string, xs: seq<Span>): (r: Evidence)
    ensures e.Valid() ==> r.Valid()
    ensures doc in r.entries && r.Get(doc, []) == e.Get(doc, []) + xs
    ensures forall d :: d != doc ==> (d in r.entries <==> d in e.entries) && r.Get(d, []) == e.Get(d, [])
    ensures r.keys == if doc in e.entries then e.keys else e.keys + [doc]
  {
    e.Put(doc, e.Get(doc, []) + xs)
  }

  /**
   * `after` is `before` followed by exactly `n` spans, drawn from `pool` without
   * reuse: as a multiset, the appended spans are contained in `pool`.
   */
  ghost predicate GrewBy(before: seq<Span>, after: seq<Span>, n: int, pool: seq<Span>) {
    && |after| == |before| + n
    && before <= after
    && multiset(after[|before|..]) <= multiset(pool)
  }

  /** Two extensions in a row draw from the two pools together. */
  lemma GrewByTrans(a: seq<Span>, b: seq<Span>, c: seq<Span>, n: int, m: int, p: seq<Span>, q: seq<Span>)
    requires GrewBy(a, b, n, p) && GrewBy(b, c, m, q)
    ensures GrewBy(a, c, n + m, p + q)
  {
    assert c[|a|..] == b[|a|..] + c[|b|..];
  }

  /** Two extensions in a row drawn from adjacent slices of `s` draw from the joined slice. */
  lemma GrewByJoin(a: seq<Span>, b: seq<Span>, c: seq<Span>, n: int, m: int, s: seq<Span>, i: nat, j: nat, k: nat)
    requires i <= j <= k <= |s|
    requires GrewBy(a, b, n, s[i..j]) && GrewBy(b, c, m, s[j..k])
    ensures GrewBy(a, c, n + m, s[i..k])
  {
    GrewByTrans(a, b, c, n, m, s[i..j], s[j..k]);
    assert s[i..j] + s[j..k] == s[i..k];
  }

  /** A larger pool, as a multiset, still contains what was drawn. */
  lemma GrewByWiden(a: seq<Span>, b: seq<Span>, n: int, p: seq<Span>, q: seq<Span>)
    requires GrewBy(a, b, n, p) && multiset(p) <= multiset(q)
    ensures GrewBy(a, b, n, q)
  {
  }

  /** The value held by an Evaluator at one moment. */
  datatype Stats = Stats(tp: int, fp: int, fn: int, tn: Option<int>, fps: Evidence, fns: Evidence) {

    function AddTp(n: int): Stats { this.(tp := tp + n) }

    function AddFp(n: int): Stats { this.(fp := fp + n) }

    function AddFn(n: int): Stats { this.(fn := fn + n) }

    function AppendFps(doc: string, xs: seq<Span>): Stats { this.(fps := Extend(fps, doc, xs)) }

    function AppendFns(doc: string, xs: seq<Span>): Stats { this.(fns := Extend(fns, doc, xs)) }

    /** Both evidence dictionaries are well formed. */
    ghost predicate Valid() {
      fps.Valid() && fns.Valid()
    }
  }

  /** What `Evaluator()` starts with. */
  function Initial(): (r: Stats)
    ensures r.Valid()
  {
    Stats(0, 0, 0, None, Empty(), Empty())
  }

  class Evaluator {
    var tp: int
    var fp: int
    var tn: Option<int>
    var fn: int
    var fns: Evidence
    var fps: Evidence

    /** Both evidence dictionaries are well formed. */
    ghost predicate Valid()
      reads this
    {
      Value().Valid()
    }

    /** The whole state of this evaluator as a value. */
    function Value(): Stats
      reads this
    {
      Stats(tp, fp, fn, tn, fps, fns)
    }

    /** `Evaluator(tp=0, fp=0, tn=None, fn=0)`: the given counters and no evidence. */
    constructor (tp: int, fp: int, tn: Option<int>, fn: int)
      ensures Valid()
      ensures Value() == Stats(tp, fp, fn, tn, Empty(), Empty())
    {
      this.tp := tp;
      this.fp := fp;
      this.tn := tn;
      this.fn := fn;
      this.fns := Empty();
      this.fps := Empty();
    }

    method AddTp(n: int)
      modifies this
      ensures tp == old(tp) + n
      ensures fp == old(fp) && fn == old(fn) && tn == old(tn) && fps == old(fps) && fns == old(fns)
    {
      tp := tp + n;
    }

    /** The first call sets an absent count to `n`; later calls add `n`. */
    method AddTn(n: int)
      modifies this
      ensures tn == Some(if old(tn).None? then n else old(tn).value + n)
      ensures tp == old(tp) && fp == old(fp) && fn == old(fn) && fps == old(fps) && fns == old(fns)
    {
      if tn.None? {
        tn := Some(n);
      } else {
        tn := Some(tn.value + n);
      }
    }

    method AddFp(n: int)
      modifies this
      ensures fp == old(fp) + n
      ensures tp == old(tp) && fn == old(fn) && tn == old(tn) && fps == old(fps) && fns == old(fns)
    {
      fp := fp + n;
    }

    method AddFn(n: int)
      modifies this
      ensures fn == old(fn) + n
      ensures tp == old(tp) && fp == old(fp) && tn == old(tn) && fps == old(fps) && fns == old(fns)
    {
      fn := fn + n;
    }

    method AppendFps(doc: string, xs: seq<Span>)
      modifies this
      ensures fps == Extend(old(fps), doc, xs)
      ensures old(Valid()) ==> Valid()
      ensures tp == old(tp) && fp == old(fp) && fn == old(fn) && tn == old(tn) && fns == old(fns)
    {
      if doc !in fps.entries {
        fps := fps.Put(doc, []);
      }
      fps := fps.Put(doc, fps.entries[doc] + xs);
      assert fps.entries == old(fps).entries[doc := old(fps).Get(doc, []) + xs];
    }

    method AppendFns(doc: string, xs: seq<Span>)
      modifies this
      ensures fns == Extend(old(fns), doc, xs)
      ensures old(Valid()) ==> Valid()
      ensures tp == old(tp) && fp == old(fp) && fn == old(fn) && tn == old(tn) && fps == old(fps)
    {
      if doc !in fns.entries {
        fns := fns.Put(doc, []);
      }
      fns := fns.Put(doc, fns.entries[doc] + xs);
      assert fns.entries == old(fns).entries[doc := old(fns).Get(doc, []) + xs];
    }

    /** `get_values()` */
    function GetValues(): (int, int, Option<int>, int)
      reads this
    {
      (tp, fp, tn, fn)
    }

    /**
     * `total()`: `tn + tp + fp + tn`, so the true negatives are counted twice
     * and false negatives not at all; with `tn` absent the Python addition
     * fails, which is `None` here.
     */
    function Total(): (r: Option<int>)
      reads this
      ensures r.Some? <==> tn.Some?
      ensures r.Some? ==> r.value == tp + fp + 2 * tn.value
      ensures r.Some? ==> (r.value == tp + fp + fn + tn.value <==> fn == tn.value)
    {
      match tn
      case None => None
      case Some(t) => Some(t + tp + fp + t)
    }

    /** `get_fns()` */
    function GetFns(): Evidence
      reads this
    {
      fns
    }

    /** `get_fps()` */
    function GetFps(): Evidence
      reads this
    {
      fps
    }
  }
}
