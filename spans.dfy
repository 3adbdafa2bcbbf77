/**
 * Annotation spans, the stable sort by start offset that strict matching uses,
 * and the per-type grouping of one document's annotations.
 */
module Spans {
  import opened OrderedMaps

  /** One annotation: its type, the character offsets `[start, end)` and the covered text. */
  datatype Span = Span(kind: string, start: int, end: int, text: string)

  /** Annotation type -> the spans of that type, in insertion order. */
  type Grouping = OMap<seq<Span>>

  /** The spans of annotation type `t` in `g`, empty when `t` is absent. */
  function SpansOf(g: Grouping, t: string): seq<Span> {
    g.Get(t, [])
  }

  /** Each span starts no earlier than the one before it. */
  ghost predicate SortedByStart(s: seq<Span>) {
    forall i :: 0 < i < |s| ==> s[i - 1].start <= s[i].start
  }

  /** In a list sorted by start, a later span starts no earlier. */
  lemma {:induction false} SortedMono(s: seq<Span>, i: nat, j: nat)
    requires SortedByStart(s) && i <= j < |s|
    ensures s[i].start <= s[j].start
    decreases j - i
  {
    if i < j {
      SortedMono(s, i, j - 1);
    }
  }

  /** `xs` is sorted by start and no span of it starts after any span of `rest`. */
  ghost predicate SortedBelow(xs: seq<Span>, rest: seq<Span>) {
    && SortedByStart(xs)
    && forall i, j :: 0 <= i < |xs| && 0 <= j < |rest| ==> xs[i].start <= rest[j].start
  }

  /** Moving the head of the sorted remainder `s[p..]` onto `xs` keeps `xs` sorted below the rest. */
  lemma SortedBelowTake(xs: seq<Span>, s: seq<Span>, p: nat)
    requires SortedByStart(s) && p < |s| && SortedBelow(xs, s[p..])
    ensures SortedBelow(xs + [s[p]], s[p + 1..])
  {
    var ys := xs + [s[p]];
    forall i | 0 < i < |ys| ensures ys[i - 1].start <= ys[i].start {
      if i == |xs| {
        assert s[p..][0] == s[p];
      } else {
        assert ys[i - 1] == xs[i - 1] && ys[i] == xs[i];
      }
    }
    var rest := s[p + 1..];
    forall i, j | 0 <= i < |ys| && 0 <= j < |rest| ensures ys[i].start <= rest[j].start {
      assert rest[j] == s[p..][j + 1] == s[p + 1 + j];
      if i < |xs| {
        assert ys[i] == xs[i];
      } else {
        SortedMono(s, p, p + 1 + j);
      }
    }
  }

  /** Dropping spans from the front of the remainder keeps `xs` sorted below it. */
  lemma SortedBelowDrop(xs: seq<Span>, s: seq<Span>, p: nat, q: nat)
    requires p <= q <= |s| && SortedBelow(xs, s[p..])
    ensures SortedBelow(xs, s[q..])
  {
    var rest := s[q..];
    forall i, j | 0 <= i < |xs| && 0 <= j < |rest| ensures xs[i].start <= rest[j].start {
      assert rest[j] == s[p..][j + q - p];
    }
  }

  /** Appending the whole sorted remainder to a list sorted below it gives a sorted list. */
  lemma SortedBelowAppendRest(xs: seq<Span>, s: seq<Span>, p: nat)
    requires SortedByStart(s) && p <= |s| && SortedBelow(xs, s[p..])
    ensures SortedByStart(xs + s[p..])
  {
    var ys := xs + s[p..];
    forall i | 0 < i < |ys| ensures ys[i - 1].start <= ys[i].start {
      if i < |xs| {
        assert ys[i - 1] == xs[i - 1] && ys[i] == xs[i];
      } else if i == |xs| {
        assert ys[i - 1] == xs[i - 1] && ys[i] == s[p..][0];
      } else {
        assert ys[i - 1] == s[p + i - |xs| - 1] && ys[i] == s[p + i - |xs|];
      }
    }
  }

  /** The spans of `s` that start at offset `k`, in their order in `s`. */
  function StartingAt(s: seq<Span>, k: int): seq<Span> {
    if s == [] then []
    else (if s[0].start == k then [s[0]] else []) + StartingAt(s[1..], k)
  }

  /** Places `x` in front of the first span of `s` that starts at or after `x`. */
  function Insert(x: Span, s: seq<Span>): (r: seq<Span>)
    ensures |r| == |s| + 1
    ensures r[0] == x || (s != [] && r[0] == s[0])
    ensures SortedByStart(s) ==> SortedByStart(r)
  {
    if s == [] then [x]
    else if x.start <= s[0].start then [x] + s
    else
      assert s == [s[0]] + s[1..];
      var r := Insert(x, s[1..]);
      [s[0]] + r
  }

  /** Insertion adds exactly `x`: the result is a permutation of `s` plus `x`. */
  lemma {:induction false} InsertPermutes(x: Span, s: seq<Span>)
    ensures multiset(Insert(x, s)) == multiset(s) + multiset{x}
  {
    if s != [] && x.start > s[0].start {
      assert s == [s[0]] + s[1..];
      InsertPermutes(x, s[1..]);
    }
  }

  /** `sorted(s, key=lambda x: x.start_index)`. */
  function SortByStart(s: seq<Span>): (r: seq<Span>)
    ensures |r| == |s|
    ensures multiset(r) == multiset(s)
    ensures SortedByStart(r)
  {
    if s == [] then []
    else
      assert s == [s[0]] + s[1..];
      InsertPermutes(s[0], SortByStart(s[1..]));
      Insert(s[0], SortByStart(s[1..]))
  }

  lemma {:induction false} InsertStartingAt(x: Span, s: seq<Span>, k: int)
    ensures StartingAt(Insert(x, s), k) == (if x.start == k then [x] else []) + StartingAt(s, k)
  {
    if s == [] {
    } else if x.start <= s[0].start {
      assert ([x] + s)[1..] == s;
    } else {
      var rest := Insert(x, s[1..]);
      InsertStartingAt(x, s[1..], k);
      assert ([s[0]] + rest)[1..] == rest;
      var tail := StartingAt(s[1..], k);
      if x.start == k {
        assert s[0].start != k;
        assert StartingAt(rest, k) == [x] + tail;
        assert StartingAt(s, k) == tail;
      } else {
        assert StartingAt(rest, k) == tail;
      }
    }
  }

  /** Python's sort is stable: spans with equal start keep their original relative order. */
  lemma {:induction false} SortByStartIsStable(s: seq<Span>, k: int)
    ensures StartingAt(SortByStart(s), k) == StartingAt(s, k)
  {
    if s != [] {
      SortByStartIsStable(s[1..], k);
      InsertStartingAt(s[0], SortByStart(s[1..]), k);
    }
  }

  /** Same start and same end offset. */
  predicate SameInterval(x: Span, y: Span) {
    x.start == y.start && x.end == y.end
  }

  /** Some span of `pool` covers exactly the offsets of `y`. */
  predicate HasTwin(y: Span, pool: seq<Span>) {
    exists x :: x in pool && SameInterval(x, y)
  }

  /** How many spans of `s` satisfy `p`. */
  function Count(s: seq<Span>, p: Span -> bool): (n: nat)
    ensures n <= |s|
  {
    if s == [] then 0 else (if p(s[0]) then 1 else 0) + Count(s[1..], p)
  }

  lemma {:induction false} CountAt(s: seq<Span>, p: Span -> bool, i: nat)
    requires i < |s|
    ensures Count(s[i..], p) == (if p(s[i]) then 1 else 0) + Count(s[i + 1..], p)
  {
    assert s[i..][1..] == s[i + 1..];
  }

  lemma {:induction false} CountSnoc(s: seq<Span>, x: Span, p: Span -> bool)
    ensures Count(s + [x], p) == Count(s, p) + (if p(x) then 1 else 0)
  {
    if s != [] {
      assert (s + [x])[1..] == s[1..] + [x];
      CountSnoc(s[1..], x, p);
    }
  }

  /** A predicate that holds wherever another does is satisfied at least as often. */
  lemma {:induction false} CountMonotone(s: seq<Span>, p: Span -> bool, q: Span -> bool)
    requires forall x :: x in s && p(x) ==> q(x)
    ensures Count(s, p) <= Count(s, q)
  {
    if s != [] {
      CountMonotone(s[1..], p, q);
    }
  }

  lemma {:induction false} CountInsert(x: Span, s: seq<Span>, p: Span -> bool)
    ensures Count(Insert(x, s), p) == (if p(x) then 1 else 0) + Count(s, p)
  {
    if s != [] {
      if x.start <= s[0].start {
        assert ([x] + s)[1..] == s;
      } else {
        CountInsert(x, s[1..], p);
        assert ([s[0]] + Insert(x, s[1..]))[1..] == Insert(x, s[1..]);
      }
    }
  }

  /** Sorting does not change how many spans satisfy a predicate. */
  lemma {:induction false} CountSortByStart(s: seq<Span>, p: Span -> bool)
    ensures Count(SortByStart(s), p) == Count(s, p)
  {
    if s != [] {
      CountSortByStart(s[1..], p);
      CountInsert(s[0], SortByStart(s[1..]), p);
    }
  }

  /** The spans of `records` whose type is `t`, in input order. */
  function OfKind(records: seq<Span>, t: string): seq<Span> {
    if records == [] then []
    else OfKind(records[..|records| - 1], t) + (if records[|records| - 1].kind == t then [records[|records| - 1]] else [])
  }

  /**
   * The grouping loop of `group_brat_annotations` over already-parsed records:
   * each record is appended to the list of its type, a new type being added last.
   */
  function Grouped(records: seq<Span>): (g: Grouping)
    ensures g.Valid()
  {
    if records == [] then Empty()
    else
      var g := Grouped(records[..|records| - 1]);
      var x := records[|records| - 1];
      g.Put(x.kind, g.Get(x.kind, []) + [x])
  }

  /** Each type's list holds exactly that type's records in input order, and only types that occur are keys. */
  lemma {:induction false} GroupedByKind(records: seq<Span>, t: string)
    ensures SpansOf(Grouped(records), t) == OfKind(records, t)
    ensures t in Grouped(records).entries <==> exists i :: 0 <= i < |records| && records[i].kind == t
  {
    if records != [] {
      var init := records[..|records| - 1];
      var g0, x := Grouped(init), records[|records| - 1];
      GroupedByKind(init, t);
      assert Grouped(records) == g0.Put(x.kind, g0.Get(x.kind, []) + [x]);
      assert OfKind(records, t) == OfKind(init, t) + (if x.kind == t then [x] else []);
      if t in g0.entries {
        var i :| 0 <= i < |init| && init[i].kind == t;
        assert records[i] == init[i];
      }
      if exists i :: 0 <= i < |records| && records[i].kind == t {
        var i :| 0 <= i < |records| && records[i].kind == t;
        if i < |init| {
          assert init[i] == records[i];
        }
      }
    }
  }

  lemma GroupedPrefix(records: seq<Span>, i: nat)
    requires i < |records|
    ensures Grouped(records[..i + 1])
         == Grouped(records[..i]).Put(records[i].kind, Grouped(records[..i]).Get(records[i].kind, []) + [records[i]])
  {
    assert records[..i + 1][..i] == records[..i];
  }

  /** `group_brat_annotations` (compare_utils.py:72-90) after tokenising: the loop that fills the dict. */
  method GroupAnnotations(records: seq<Span>) returns (g: Grouping)
    ensures g == Grouped(records)
  {
    g := Empty();
    var i := 0;
    while i < |records|
      invariant 0 <= i <= |records|
      invariant g == Grouped(records[..i])
    {
      var x := records[i];
      // a type seen for the first time starts with an empty list, which then gets `x`
      var list := if x.kind in g.entries then g.entries[x.kind] else [];
      g := g.Put(x.kind, list + [x]);
      GroupedPrefix(records, i);
      i := i + 1;
    }
    assert records[..i] == records;
  }
}
