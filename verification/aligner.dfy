/**
  The greedy span aligner (`align_sentences` in modules/generation/aligner.py).

  Each source segment, in order, is matched to the best-scoring span of
  one to four consecutive target tokens that shares no index with spans
  already taken. The sentence-embedding cosine similarity is an oracle
  `sim(sourceTokens, spanTokens)`: the source embedding is the mean over the
  segment's tokens and the span embedding the mean over the span's tokens,
  so the score depends on nothing else.
 */
module Aligner {
  import opened Results
  import opened Strings

  const SimilarityThreshold: real := 0.5
  const MaxSpanLen: nat := 4

  /** The half-open range of target token indices `[start, end)`. */
  datatype Span = Span(start: nat, end: nat)

  /** One entry of the `alignments` list. */
  datatype Alignment = Alignment(source: string, target: string, similarity: real)

  /** A span of one to `MaxSpanLen` tokens inside `n` tokens. */
  predicate InRange(sp: Span, n: nat)
  {
    sp.start < sp.end <= n && sp.end - sp.start <= MaxSpanLen
  }

  /** No index of the span is already used. */
  predicate Free(sp: Span, used: set<nat>)
  {
    forall i :: sp.start <= i < sp.end ==> i !in used
  }

  /** The indices `start`, ..., `end - 1`, as `range(start, end)`. */
  function Indices(start: nat, end: nat): (s: set<nat>)
    ensures forall i :: i in s <==> start <= i < end
    decreases end - start
  {
    if start >= end then {} else {start} + Indices(start + 1, end)
  }

  /** The two spans share no index. */
  predicate Disjoint(a: Span, b: Span)
  {
    a.end <= b.start || b.end <= a.start
  }

  /** The enumeration order: by start, then by end. */
  predicate Before(a: Span, b: Span)
  {
    a.start < b.start || (a.start == b.start && a.end < b.end)
  }

  /** The inner loop: ends `end`, `end + 1`, ... up to `min(start + MaxSpanLen, n)`,
      keeping the free spans. */
  function SpansAt(start: nat, end: nat, n: nat, used: set<nat>): seq<Span>
    requires start < end
    decreases start + MaxSpanLen + 1 - end
  {
    if end > n || end > start + MaxSpanLen then []
    else (if Free(Span(start, end), used) then [Span(start, end)] else []) + SpansAt(start, end + 1, n, used)
  }

  /** The outer loop over starts `start`, ..., `n - 1`. */
  function CandidatesFrom(start: nat, n: nat, used: set<nat>): seq<Span>
    decreases n - start
  {
    if start >= n then []
    else SpansAt(start, start + 1, n, used) + CandidatesFrom(start + 1, n, used)
  }

  /** Every span the nested loops try without skipping, in the order tried. */
  function Candidates(n: nat, used: set<nat>): seq<Span>
  {
    CandidatesFrom(0, n, used)
  }

  /** Every span is a free span of one to `MaxSpanLen` of the `n` tokens. */
  predicate AllFree(r: seq<Span>, n: nat, used: set<nat>)
  {
    forall k :: 0 <= k < |r| ==> InRange(r[k], n) && Free(r[k], used)
  }

  /** The spans come in enumeration order. */
  predicate InOrder(r: seq<Span>)
  {
    forall k, m :: 0 <= k < m < |r| ==> Before(r[k], r[m])
  }

  /** The inner loop yields free in-range spans with the given start, by increasing end. */
  lemma {:induction false} SpansAtSound(start: nat, end: nat, n: nat, used: set<nat>)
    requires start < end
    ensures AllFree(SpansAt(start, end, n, used), n, used)
    ensures forall k :: 0 <= k < |SpansAt(start, end, n, used)| ==>
              SpansAt(start, end, n, used)[k].start == start && end <= SpansAt(start, end, n, used)[k].end
    ensures InOrder(SpansAt(start, end, n, used))
    decreases start + MaxSpanLen + 1 - end
  {
    if !(end > n || end > start + MaxSpanLen) {
      SpansAtSound(start, end + 1, n, used);
      var here := if Free(Span(start, end), used) then [Span(start, end)] else [];
      var later := SpansAt(start, end + 1, n, used);
      assert SpansAt(start, end, n, used) == here + later;
      forall k | 0 <= k < |here + later|
        ensures InRange((here + later)[k], n) && Free((here + later)[k], used)
        ensures (here + later)[k].start == start && end <= (here + later)[k].end
      {
        if k >= |here| {
          assert (here + later)[k] == later[k - |here|];
        }
      }
      forall k, m | 0 <= k < m < |here + later| ensures Before((here + later)[k], (here + later)[m]) {
        assert (here + later)[m] == later[m - |here|];
        if k >= |here| {
          assert (here + later)[k] == later[k - |here|];
        }
      }
    }
  }

  /** The outer loop yields free in-range spans starting at `start` or later,
      in enumeration order. */
  lemma {:induction false} CandidatesFromSound(start: nat, n: nat, used: set<nat>)
    ensures AllFree(CandidatesFrom(start, n, used), n, used)
    ensures forall k :: 0 <= k < |CandidatesFrom(start, n, used)| ==> start <= CandidatesFrom(start, n, used)[k].start
    ensures InOrder(CandidatesFrom(start, n, used))
    decreases n - start
  {
    if start < n {
      SpansAtSound(start, start + 1, n, used);
      CandidatesFromSound(start + 1, n, used);
      var here := SpansAt(start, start + 1, n, used);
      var later := CandidatesFrom(start + 1, n, used);
      assert CandidatesFrom(start, n, used) == here + later;
      forall k | 0 <= k < |here + later|
        ensures InRange((here + later)[k], n) && Free((here + later)[k], used) && start <= (here + later)[k].start
      {
        if k < |here| {
          assert (here + later)[k] == here[k];
        } else {
          assert (here + later)[k] == later[k - |here|];
        }
      }
      forall k, m | 0 <= k < m < |here + later| ensures Before((here + later)[k], (here + later)[m]) {
        if m < |here| {
          assert (here + later)[k] == here[k] && (here + later)[m] == here[m];
        } else if k >= |here| {
          assert (here + later)[k] == later[k - |here|] && (here + later)[m] == later[m - |here|];
        } else {
          assert (here + later)[k] == here[k] && (here + later)[m] == later[m - |here|];
        }
      }
    }
  }

  /** Every candidate is a free in-range span, and the candidates come in
      enumeration order: by start, then by end. */
  lemma CandidatesSound(n: nat, used: set<nat>)
    ensures AllFree(Candidates(n, used), n, used)
    ensures InOrder(Candidates(n, used))
  {
    CandidatesFromSound(0, n, used);
  }

  lemma {:induction false} SpansAtComplete(start: nat, end: nat, n: nat, used: set<nat>, e: nat)
    requires start < end <= e && InRange(Span(start, e), n) && Free(Span(start, e), used)
    ensures Span(start, e) in SpansAt(start, end, n, used)
    decreases e - end
  {
    if end < e {
      SpansAtComplete(start, end + 1, n, used, e);
    }
  }

  lemma {:induction false} CandidatesFromComplete(start: nat, n: nat, used: set<nat>, sp: Span)
    requires start <= sp.start && InRange(sp, n) && Free(sp, used)
    ensures sp in CandidatesFrom(start, n, used)
    decreases n - start
  {
    if sp.start == start {
      SpansAtComplete(start, start + 1, n, used, sp.end);
    } else {
      CandidatesFromComplete(start + 1, n, used, sp);
    }
  }

  /** The candidates are exactly the free in-range spans. */
  lemma CandidatesExactly(n: nat, used: set<nat>, sp: Span)
    ensures sp in Candidates(n, used) <==> InRange(sp, n) && Free(sp, used)
  {
    CandidatesSound(n, used);
    if InRange(sp, n) && Free(sp, used) {
      CandidatesFromComplete(0, n, used, sp);
    }
  }

  /** The source tokens the segment is embedded from. */
  function SourceTokens(seg: string): seq<string>
  {
    Split(Strip(seg))
  }

  /** The tokens of a span. */
  function SpanTokens(tokens: seq<string>, sp: Span): seq<string>
    requires sp.start <= sp.end <= |tokens|
  {
    tokens[sp.start..sp.end]
  }

  /** Every span lies within `n` tokens. */
  predicate Bounded(cands: seq<Span>, n: nat)
  {
    forall k :: 0 <= k < |cands| ==> cands[k].start <= cands[k].end <= n
  }

  /** The loop state `(best_score, best_span)` after the first `m` candidates
      (as a position among them): it starts at `(-1, None)` and moves only on
      a strictly greater score. */
  function Best(src: seq<string>, tokens: seq<string>, cands: seq<Span>,
                sim: (seq<string>, seq<string>) -> real, m: nat): (r: (real, Option<nat>))
    requires m <= |cands| && Bounded(cands, |tokens|)
    ensures r.1.Some? ==> r.1.value < m
  {
    if m == 0 then (-1.0, None)
    else
      var prev := Best(src, tokens, cands, sim, m - 1);
      var s := sim(src, SpanTokens(tokens, cands[m - 1]));
      if s > prev.0 then (s, Some(m - 1)) else prev
  }

  /** The chosen position holds the first maximum of the scores, which
      exceeds -1; when nothing is chosen every score is at most -1. */
  lemma {:induction false} BestIsFirstMax(src: seq<string>, tokens: seq<string>, cands: seq<Span>,
                                          sim: (seq<string>, seq<string>) -> real, m: nat)
    requires m <= |cands| && Bounded(cands, |tokens|)
    ensures var r := Best(src, tokens, cands, sim, m);
            && (r.1.None? ==> r.0 == -1.0 && forall k :: 0 <= k < m ==> sim(src, SpanTokens(tokens, cands[k])) <= -1.0)
            && (r.1.Some? ==>
                  && r.0 == sim(src, SpanTokens(tokens, cands[r.1.value])) > -1.0
                  && (forall k :: 0 <= k < m ==> sim(src, SpanTokens(tokens, cands[k])) <= r.0)
                  && (forall k :: 0 <= k < r.1.value ==> sim(src, SpanTokens(tokens, cands[k])) < r.0))
  {
    if m > 0 {
      BestIsFirstMax(src, tokens, cands, sim, m - 1);
    }
  }

  /** The outcome of the inner loops over the free spans: the final
      `best_score` and `best_span`. */
  function BestSpan(src: seq<string>, tokens: seq<string>, used: set<nat>,
                    sim: (seq<string>, seq<string>) -> real): (r: (real, Option<Span>))
    ensures r.1.Some? ==> InRange(r.1.value, |tokens|) && Free(r.1.value, used)
  {
    var cands := Candidates(|tokens|, used);
    CandidatesSound(|tokens|, used);
    var best := Best(src, tokens, cands, sim, |cands|);
    (best.0, if best.1.Some? then Some(cands[best.1.value]) else None)
  }

  /** One pass of the outer `for src_segment` loop, given the segment's
      tokens: the span chosen, or `None` when the segment is blank or the
      best score is below the threshold. */
  function AlignOne(src: seq<string>, tokens: seq<string>, used: set<nat>,
                    sim: (seq<string>, seq<string>) -> real, threshold: real): (r: Option<Span>)
    ensures r.Some? ==> src != [] && InRange(r.value, |tokens|) && Free(r.value, used)
  {
    if src == [] then None
    else
      var best := BestSpan(src, tokens, used, sim);
      if best.1.Some? && best.0 >= threshold then best.1 else None
  }

  /** In a list ordered by `Before`, the order of two entries is the order
      of their positions. */
  lemma OrderedPositions(cands: seq<Span>, a: nat, b: nat)
    requires InOrder(cands)
    requires a < |cands| && b < |cands|
    ensures Before(cands[a], cands[b]) <==> a < b
  {
    if b < a {
      assert Before(cands[b], cands[a]);
    }
  }

  /** The span chosen scores `best_score`, more than -1; no free span scores
      higher, and every free span enumerated before it scores strictly
      lower. When none is chosen, every free span scores at most -1. */
  lemma BestSpanIsFirstMax(src: seq<string>, tokens: seq<string>, used: set<nat>, sim: (seq<string>, seq<string>) -> real)
    ensures var best := BestSpan(src, tokens, used, sim);
            && (best.1.Some? ==>
                  && best.0 == sim(src, SpanTokens(tokens, best.1.value)) > -1.0
                  && (forall sp: Span :: InRange(sp, |tokens|) && Free(sp, used) ==>
                        sim(src, SpanTokens(tokens, sp)) <= best.0)
                  && (forall sp: Span :: InRange(sp, |tokens|) && Free(sp, used) && Before(sp, best.1.value) ==>
                        sim(src, SpanTokens(tokens, sp)) < best.0))
            && (best.1.None? ==> forall sp: Span :: InRange(sp, |tokens|) && Free(sp, used) ==> sim(src, SpanTokens(tokens, sp)) <= -1.0)
  {
    var cands := Candidates(|tokens|, used);
    CandidatesSound(|tokens|, used);
    BestIsFirstMax(src, tokens, cands, sim, |cands|);
    var best := Best(src, tokens, cands, sim, |cands|);
    forall sp: Span | InRange(sp, |tokens|) && Free(sp, used)
      ensures exists k :: 0 <= k < |cands| && cands[k] == sp
    {
      CandidatesExactly(|tokens|, used, sp);
    }
    if best.1.Some? {
      var j := best.1.value;
      forall sp: Span | InRange(sp, |tokens|) && Free(sp, used) && Before(sp, cands[j])
        ensures sim(src, SpanTokens(tokens, sp)) < best.0
      {
        var k :| 0 <= k < |cands| && cands[k] == sp;
        OrderedPositions(cands, k, j);
      }
    }
  }

  /** An accepted span scores at least the threshold, no free span scores
      higher, and every free span enumerated before it scores strictly lower:
      ties go to the earliest start, then to the shortest span. */
  lemma AlignOneIsBest(src: seq<string>, tokens: seq<string>, used: set<nat>,
                       sim: (seq<string>, seq<string>) -> real, threshold: real)
    requires AlignOne(src, tokens, used, sim, threshold).Some?
    ensures var sp := AlignOne(src, tokens, used, sim, threshold).value;
            var best := sim(src, SpanTokens(tokens, sp));
            && best >= threshold
            && (forall other: Span :: InRange(other, |tokens|) && Free(other, used) ==>
                  sim(src, SpanTokens(tokens, other)) <= best)
            && (forall other: Span :: InRange(other, |tokens|) && Free(other, used) && Before(other, sp) ==>
                  sim(src, SpanTokens(tokens, other)) < best)
  {
    BestSpanIsFirstMax(src, tokens, used, sim);
  }

  /** An accepted span scores at least the threshold. */
  lemma AlignOneAccepts(src: seq<string>, tokens: seq<string>, used: set<nat>,
                        sim: (seq<string>, seq<string>) -> real, threshold: real)
    requires AlignOne(src, tokens, used, sim, threshold).Some?
    ensures sim(src, SpanTokens(tokens, AlignOne(src, tokens, used, sim, threshold).value)) >= threshold
  {
    BestSpanIsFirstMax(src, tokens, used, sim);
  }

  /** A source segment is rejected exactly when it is blank, or when every
      free span scores below the threshold or no better than -1 (the
      starting `best_score`, which is never replaced by an equal score). */
  lemma AlignOneRejects(src: seq<string>, tokens: seq<string>, used: set<nat>,
                        sim: (seq<string>, seq<string>) -> real, threshold: real)
    ensures AlignOne(src, tokens, used, sim, threshold).None? <==>
              || src == []
              || forall sp: Span :: InRange(sp, |tokens|) && Free(sp, used) ==>
                   sim(src, SpanTokens(tokens, sp)) < threshold || sim(src, SpanTokens(tokens, sp)) <= -1.0
  {
    if src != [] {
      BestSpanIsFirstMax(src, tokens, used, sim);
      var best := BestSpan(src, tokens, used, sim);
      if best.1.Some? && best.0 >= threshold {
        var sp := best.1.value;
        assert !(sim(src, SpanTokens(tokens, sp)) < threshold || sim(src, SpanTokens(tokens, sp)) <= -1.0);
      }
    }
  }

  /** The per-segment choice the outer loop makes, given a segment's tokens
      and the indices used so far. */
  type Chooser = (seq<string>, set<nat>) -> Option<Span>

  /** The choice the source makes: `AlignOne` over a fixed target. */
  function Greedy(tokens: seq<string>, sim: (seq<string>, seq<string>) -> real, threshold: real): Chooser
  {
    (src, used) => AlignOne(src, tokens, used, sim, threshold)
  }

  /** A choice only ever picks, for a non-blank segment, a free span of one
      to `MaxSpanLen` tokens. */
  ghost predicate Chooses(choose: Chooser, tokens: seq<string>)
  {
    forall src, used :: choose(src, used).Some? ==>
      src != [] && InRange(choose(src, used).value, |tokens|) && Free(choose(src, used).value, used)
  }

  /** Every span a choice picks scores at least `threshold`. */
  ghost predicate AboveThreshold(choose: Chooser, tokens: seq<string>, sim: (seq<string>, seq<string>) -> real, threshold: real)
    requires Chooses(choose, tokens)
  {
    forall src, used :: choose(src, used).Some? ==>
      sim(src, SpanTokens(tokens, choose(src, used).value)) >= threshold
  }

  /** The greedy choice picks only free spans, scoring at least the threshold. */
  lemma GreedyChooses(tokens: seq<string>, sim: (seq<string>, seq<string>) -> real, threshold: real)
    ensures Chooses(Greedy(tokens, sim, threshold), tokens)
    ensures AboveThreshold(Greedy(tokens, sim, threshold), tokens, sim, threshold)
  {
    var g := Greedy(tokens, sim, threshold);
    forall src, used | g(src, used).Some?
      ensures sim(src, SpanTokens(tokens, g(src, used).value)) >= threshold
    {
      AlignOneAccepts(src, tokens, used, sim, threshold);
    }
  }

  /** The result of the outer loop from some point on: the alignments, the
      span of each, the position in the source list each came from, and the
      final set of used indices. */
  datatype Aligned = Aligned(alignments: seq<Alignment>, spans: seq<Span>, from: seq<nat>, used: set<nat>)

  /** Positions in `segs[1..]` as positions in `segs`. */
  function Shifted(from: seq<nat>): (r: seq<nat>)
    ensures |r| == |from| && forall k :: 0 <= k < |from| ==> r[k] == from[k] + 1
  {
    if from == [] then [] else [from[0] + 1] + Shifted(from[1..])
  }

  /** The indices in use after a pass: those of the accepted span are added. */
  function Consume(used: set<nat>, pick: Option<Span>): set<nat>
  {
    match pick
    case None => used
    case Some(sp) => used + Indices(sp.start, sp.end)
  }

  /** The effect of one pass on the rest of the loop: an accepted span is
      recorded in front; a rejected segment leaves nothing. */
  function Record(seg: string, src: seq<string>, tokens: seq<string>, pick: Option<Span>, rest: Aligned,
                  sim: (seq<string>, seq<string>) -> real): (r: Aligned)
    requires pick.Some? ==> pick.value.start <= pick.value.end <= |tokens|
  {
    match pick
    case None => Aligned(rest.alignments, rest.spans, Shifted(rest.from), rest.used)
    case Some(sp) =>
      var record := Alignment(seg, Join(SpanTokens(tokens, sp), " "), sim(src, SpanTokens(tokens, sp)));
      Aligned([record] + rest.alignments, [sp] + rest.spans, [0] + Shifted(rest.from), rest.used)
  }

  /** The outer loop over `segs`, whose tokens are `srcs`, starting with the
      indices in `used` taken: an accepted span is recorded and its indices
      marked used; a rejected segment is skipped. */
  function AlignFrom(segs: seq<string>, srcs: seq<seq<string>>, tokens: seq<string>, used: set<nat>,
                     choose: Chooser, sim: (seq<string>, seq<string>) -> real): (r: Aligned)
    requires |srcs| == |segs| && Chooses(choose, tokens)
    ensures |r.spans| == |r.alignments| == |r.from| <= |segs|
    ensures forall k :: 0 <= k < |r.spans| ==> InRange(r.spans[k], |tokens|) && r.from[k] < |segs|
    decreases |segs|
  {
    if segs == [] then Aligned([], [], [], used)
    else
      var pick := choose(srcs[0], used);
      var rest := AlignFrom(segs[1..], srcs[1..], tokens, Consume(used, pick), choose, sim);
      Record(segs[0], srcs[0], tokens, pick, rest, sim)
  }

  /** Alignments come in source order. */
  lemma {:induction false} AlignFromOrdered(segs: seq<string>, srcs: seq<seq<string>>, tokens: seq<string>, used: set<nat>,
                                            choose: Chooser, sim: (seq<string>, seq<string>) -> real, k: nat, m: nat)
    requires |srcs| == |segs| && Chooses(choose, tokens)
    requires k < m < |AlignFrom(segs, srcs, tokens, used, choose, sim).from|
    ensures AlignFrom(segs, srcs, tokens, used, choose, sim).from[k] < AlignFrom(segs, srcs, tokens, used, choose, sim).from[m]
    decreases |segs|
  {
    var r := AlignFrom(segs, srcs, tokens, used, choose, sim);
    match choose(srcs[0], used)
    case None =>
      var rest := AlignFrom(segs[1..], srcs[1..], tokens, used, choose, sim);
      assert r.from == Shifted(rest.from);
      AlignFromOrdered(segs[1..], srcs[1..], tokens, used, choose, sim, k, m);
    case Some(sp) =>
      var used' := Consume(used, Some(sp));
      var rest := AlignFrom(segs[1..], srcs[1..], tokens, used', choose, sim);
      assert r.from == [0] + Shifted(rest.from);
      assert r.from[m] == rest.from[m - 1] + 1;
      if k > 0 {
        AlignFromOrdered(segs[1..], srcs[1..], tokens, used', choose, sim, k - 1, m - 1);
      }
  }

  /** Each alignment comes from a non-blank segment whose text it carries
      unchanged; its target is the space-joined tokens of its span, and its
      similarity is that span's score. */
  lemma {:induction false} AlignFromRecord(segs: seq<string>, srcs: seq<seq<string>>, tokens: seq<string>, used: set<nat>,
                                           choose: Chooser, sim: (seq<string>, seq<string>) -> real, k: nat)
    requires |srcs| == |segs| && Chooses(choose, tokens)
    requires k < |AlignFrom(segs, srcs, tokens, used, choose, sim).spans|
    ensures var r := AlignFrom(segs, srcs, tokens, used, choose, sim);
            && r.alignments[k].source == segs[r.from[k]]
            && srcs[r.from[k]] != []
            && r.alignments[k].target == Join(SpanTokens(tokens, r.spans[k]), " ")
            && r.alignments[k].similarity == sim(srcs[r.from[k]], SpanTokens(tokens, r.spans[k]))
    decreases |segs|
  {
    var r := AlignFrom(segs, srcs, tokens, used, choose, sim);
    match choose(srcs[0], used)
    case None =>
      var rest := AlignFrom(segs[1..], srcs[1..], tokens, used, choose, sim);
      AlignFromRecord(segs[1..], srcs[1..], tokens, used, choose, sim, k);
      assert segs[r.from[k]] == segs[1..][rest.from[k]];
      assert srcs[r.from[k]] == srcs[1..][rest.from[k]];
    case Some(sp) =>
      var used' := Consume(used, Some(sp));
      var rest := AlignFrom(segs[1..], srcs[1..], tokens, used', choose, sim);
      if k > 0 {
        AlignFromRecord(segs[1..], srcs[1..], tokens, used', choose, sim, k - 1);
        assert segs[r.from[k]] == segs[1..][rest.from[k - 1]];
        assert srcs[r.from[k]] == srcs[1..][rest.from[k - 1]];
      }
  }

  /** One turn of the loop: the run records its first segment's pick in
      front of the run over the remaining segments. */
  lemma AlignFromStep(segs: seq<string>, srcs: seq<seq<string>>, tokens: seq<string>, used: set<nat>,
                      choose: Chooser, sim: (seq<string>, seq<string>) -> real)
    requires |srcs| == |segs| > 0 && Chooses(choose, tokens)
    ensures var pick := choose(srcs[0], used);
            AlignFrom(segs, srcs, tokens, used, choose, sim)
            == Record(segs[0], srcs[0], tokens, pick, AlignFrom(segs[1..], srcs[1..], tokens, Consume(used, pick), choose, sim), sim)
  {
  }

  /** How `Record` extends the rest of the run: a rejected segment only
      shifts the segment numbers, an accepted one puts its span first. */
  lemma RecordShape(seg: string, src: seq<string>, tokens: seq<string>, pick: Option<Span>, rest: Aligned,
                    sim: (seq<string>, seq<string>) -> real)
    requires pick.Some? ==> pick.value.start <= pick.value.end <= |tokens|
    ensures var r := Record(seg, src, tokens, pick, rest, sim);
            && (pick.None? ==> r.spans == rest.spans && r.from == Shifted(rest.from))
            && (pick.Some? ==> r.spans == [pick.value] + rest.spans && r.from == [0] + Shifted(rest.from))
  {
  }

  /** The indices taken by the first `k + 1` spans when `sp` comes first. */
  lemma CoveredCons(sp: Span, spans: seq<Span>, k: nat)
    requires k <= |spans|
    ensures Covered(([sp] + spans)[..k + 1]) == Indices(sp.start, sp.end) + Covered(spans[..k])
  {
    assert ([sp] + spans)[..k + 1][1..] == spans[..k];
  }

  /** The indices taken before the `k + 1`-th span when `sp` comes first. */
  lemma TakenCons(used: set<nat>, sp: Span, spans: seq<Span>, all: seq<Span>, k: nat)
    requires all == [sp] + spans && k <= |spans|
    ensures used + Covered(all[..k + 1]) == Consume(used, Some(sp)) + Covered(spans[..k])
  {
    CoveredCons(sp, spans, k);
  }

  lemma CoveredNone(used: set<nat>, spans: seq<Span>)
    ensures used + Covered(spans[..0]) == used
  {
    assert spans[..0] == [];
  }

  /** The first alignment of a run is the choice against `used` alone. */
  lemma PickedFirst(choose: Chooser, src: seq<string>, used: set<nat>, sp: Span, r: Aligned)
    requires choose(src, used) == Some(sp) && r.spans != [] && r.spans[0] == sp
    ensures choose(src, used + Covered(r.spans[..0])) == Some(r.spans[0])
  {
    CoveredNone(used, r.spans);
  }

  /** Past a rejected segment the alignments and what they took are those of
      the rest of the run. */
  lemma PickedRejected(choose: Chooser, srcs: seq<seq<string>>, used: set<nat>, rest: Aligned, r: Aligned, k: nat)
    requires r.spans == rest.spans && r.from == Shifted(rest.from)
    requires |rest.spans| == |rest.from| && k < |rest.spans| && rest.from[k] + 1 < |srcs|
    requires choose(srcs[1..][rest.from[k]], used + Covered(rest.spans[..k])) == Some(rest.spans[k])
    ensures r.from[k] < |srcs| && choose(srcs[r.from[k]], used + Covered(r.spans[..k])) == Some(r.spans[k])
  {
    assert r.from[k] == rest.from[k] + 1;
    assert srcs[r.from[k]] == srcs[1..][rest.from[k]];
  }

  /** Past an accepted segment the later alignments took its span as well. */
  lemma PickedAccepted(choose: Chooser, srcs: seq<seq<string>>, used: set<nat>, sp: Span, rest: Aligned, r: Aligned, k: nat)
    requires r.spans == [sp] + rest.spans && r.from == [0] + Shifted(rest.from)
    requires |rest.spans| == |rest.from| && 0 < k <= |rest.spans| && rest.from[k - 1] + 1 < |srcs|
    requires choose(srcs[1..][rest.from[k - 1]], Consume(used, Some(sp)) + Covered(rest.spans[..k - 1])) == Some(rest.spans[k - 1])
    ensures r.from[k] < |srcs| && choose(srcs[r.from[k]], used + Covered(r.spans[..k])) == Some(r.spans[k])
  {
    assert r.from[k] == Shifted(rest.from)[k - 1] == rest.from[k - 1] + 1;
    assert srcs[r.from[k]] == srcs[1..][rest.from[k - 1]];
    assert r.spans[k] == rest.spans[k - 1];
    TakenCons(used, sp, rest.spans, r.spans, k - 1);
  }

  /** Each alignment's span is what the choice returns for its source
      segment once the indices of the alignments before it are taken. */
  lemma {:induction false} AlignFromPicked(segs: seq<string>, srcs: seq<seq<string>>, tokens: seq<string>, used: set<nat>,
                                           choose: Chooser, sim: (seq<string>, seq<string>) -> real, k: nat)
    requires |srcs| == |segs| && Chooses(choose, tokens)
    requires k < |AlignFrom(segs, srcs, tokens, used, choose, sim).spans|
    ensures var r := AlignFrom(segs, srcs, tokens, used, choose, sim);
            choose(srcs[r.from[k]], used + Covered(r.spans[..k])) == Some(r.spans[k])
    decreases |segs|
  {
    var pick := choose(srcs[0], used);
    var used' := Consume(used, pick);
    var rest := AlignFrom(segs[1..], srcs[1..], tokens, used', choose, sim);
    var r := Record(segs[0], srcs[0], tokens, pick, rest, sim);
    assert AlignFrom(segs, srcs, tokens, used, choose, sim) == r;
    RecordShape(segs[0], srcs[0], tokens, pick, rest, sim);
    if pick.None? {
      AlignFromPicked(segs[1..], srcs[1..], tokens, used', choose, sim, k);
      PickedRejected(choose, srcs, used, rest, r, k);
    } else if k > 0 {
      AlignFromPicked(segs[1..], srcs[1..], tokens, used', choose, sim, k - 1);
      PickedAccepted(choose, srcs, used, pick.value, rest, r, k);
    } else {
      PickedFirst(choose, srcs[0], used, pick.value, r);
    }
  }

  /** How many of the recorded alignments come from segments before `j`. */
  function RecordsBefore(from: seq<nat>, j: nat): (c: nat)
    ensures c <= |from|
  {
    if from == [] then 0
    else (if from[0] < j then 1 else 0) + RecordsBefore(from[1..], j)
  }

  lemma {:induction false} RecordsBeforeShifted(from: seq<nat>, j: nat)
    requires j > 0
    ensures RecordsBefore(Shifted(from), j) == RecordsBefore(from, j - 1)
  {
    if from != [] {
      RecordsBeforeShifted(from[1..], j);
      assert Shifted(from)[1..] == Shifted(from[1..]);
    }
  }

  lemma RecordsBeforeFirst(from: seq<nat>, j: nat)
    requires j > 0
    ensures RecordsBefore([0] + Shifted(from), j) == 1 + RecordsBefore(from, j - 1)
  {
    assert ([0] + Shifted(from))[1..] == Shifted(from);
    RecordsBeforeShifted(from, j);
  }

  lemma {:induction false} RecordsBeforeZero(from: seq<nat>)
    ensures RecordsBefore(from, 0) == 0
  {
    if from != [] {
      RecordsBeforeZero(from[1..]);
    }
  }

  /** The segment numbers of the rest of the run, seen one segment later. */
  lemma ShiftedHas(from: seq<nat>, j: nat)
    ensures (exists k :: 0 <= k < |Shifted(from)| && Shifted(from)[k] == j + 1) <==> exists k :: 0 <= k < |from| && from[k] == j
    ensures (exists k :: 0 <= k < |[0] + Shifted(from)| && ([0] + Shifted(from))[k] == j + 1) <==> exists k :: 0 <= k < |from| && from[k] == j
  {
    var f := [0] + Shifted(from);
    if exists k :: 0 <= k < |f| && f[k] == j + 1 {
      var k :| 0 <= k < |f| && f[k] == j + 1;
      assert from[k - 1] == j;
    }
    if exists k :: 0 <= k < |from| && from[k] == j {
      var k :| 0 <= k < |from| && from[k] == j;
      assert f[k + 1] == j + 1;
      assert Shifted(from)[k] == j + 1;
    }
  }

  /** The decision for segment `j` in a run started with `used` taken: with
      `c` alignments recorded for the segments before `j`, the choice for `j`,
      made against `used` and the indices of those `c` spans, is `Some`
      exactly when an alignment for `j` is recorded (and it is then the
      `c`-th), and it is that alignment's span. */
  ghost predicate DecidedAt(choose: Chooser, src: seq<string>, used: set<nat>, r: Aligned, j: nat)
  {
    var c := RecordsBefore(r.from, j);
    && |r.spans| == |r.from|
    && ((exists k :: 0 <= k < |r.from| && r.from[k] == j) <==> c < |r.from| && r.from[c] == j)
    && choose(src, used + Covered(r.spans[..c])) == (if c < |r.from| && r.from[c] == j then Some(r.spans[c]) else None)
  }

  /** The decision for the first segment is the choice against `used`. */
  lemma DecidesFirst(choose: Chooser, seg: string, srcs: seq<seq<string>>, tokens: seq<string>, used: set<nat>,
                     rest: Aligned, sim: (seq<string>, seq<string>) -> real)
    requires |srcs| > 0 && Chooses(choose, tokens) && |rest.spans| == |rest.from|
    ensures DecidedAt(choose, srcs[0], used, Record(seg, srcs[0], tokens, choose(srcs[0], used), rest, sim), 0)
  {
    var pick := choose(srcs[0], used);
    var r := Record(seg, srcs[0], tokens, pick, rest, sim);
    RecordShape(seg, srcs[0], tokens, pick, rest, sim);
    RecordsBeforeZero(r.from);
    CoveredNone(used, r.spans);
    if pick.None? && r.from != [] {
      assert r.from[0] == rest.from[0] + 1;
    }
  }

  /** The step of `AlignFromDecides` past a segment the choice rejects. */
  lemma DecidesRejected(choose: Chooser, seg: string, srcs: seq<seq<string>>, tokens: seq<string>, used: set<nat>,
                        pick: Option<Span>, rest: Aligned, sim: (seq<string>, seq<string>) -> real, j: nat)
    requires 0 < j < |srcs| && |rest.spans| == |rest.from| && pick == None
    requires DecidedAt(choose, srcs[1..][j - 1], Consume(used, pick), rest, j - 1)
    ensures DecidedAt(choose, srcs[j], used, Record(seg, srcs[0], tokens, pick, rest, sim), j)
  {
    var r := Record(seg, srcs[0], tokens, pick, rest, sim);
    RecordShape(seg, srcs[0], tokens, pick, rest, sim);
    var c, c' := RecordsBefore(r.from, j), RecordsBefore(rest.from, j - 1);
    RecordsBeforeShifted(rest.from, j);
    ShiftedHas(rest.from, j - 1);
    assert c == c';
    assert srcs[1..][j - 1] == srcs[j];
    var hit, hit' := c < |r.from| && r.from[c] == j, c' < |rest.from| && rest.from[c'] == j - 1;
    assert hit == hit' by {
      if c' < |rest.from| {
        assert r.from[c'] == rest.from[c'] + 1;
      }
    }
    assert r.spans[..c] == rest.spans[..c'];
  }

  /** The step of `AlignFromDecides` past a segment the choice accepts. */
  lemma DecidesAccepted(choose: Chooser, seg: string, srcs: seq<seq<string>>, tokens: seq<string>, used: set<nat>,
                        pick: Option<Span>, rest: Aligned, sim: (seq<string>, seq<string>) -> real, j: nat)
    requires 0 < j < |srcs| && |rest.spans| == |rest.from|
    requires pick.Some? && pick.value.start <= pick.value.end <= |tokens|
    requires DecidedAt(choose, srcs[1..][j - 1], Consume(used, pick), rest, j - 1)
    ensures DecidedAt(choose, srcs[j], used, Record(seg, srcs[0], tokens, pick, rest, sim), j)
  {
    var sp := pick.value;
    var r := Record(seg, srcs[0], tokens, pick, rest, sim);
    RecordShape(seg, srcs[0], tokens, pick, rest, sim);
    var c, c' := RecordsBefore(r.from, j), RecordsBefore(rest.from, j - 1);
    RecordsBeforeFirst(rest.from, j);
    ShiftedHas(rest.from, j - 1);
    assert srcs[1..][j - 1] == srcs[j];
    var hit, hit' := c < |r.from| && r.from[c] == j, c' < |rest.from| && rest.from[c'] == j - 1;
    assert hit == hit' by {
      if c' < |rest.from| {
        assert r.from[1 + c'] == Shifted(rest.from)[c'] == rest.from[c'] + 1;
      }
    }
    assert hit ==> r.spans[c] == rest.spans[c'];
    assert c == c' + 1;
    TakenCons(used, sp, rest.spans, r.spans, c');
  }

  /** The decision for a later segment carries over from the rest of the run. */
  lemma DecidesLater(choose: Chooser, seg: string, srcs: seq<seq<string>>, tokens: seq<string>, used: set<nat>,
                     rest: Aligned, sim: (seq<string>, seq<string>) -> real, j: nat)
    requires 0 < j < |srcs| && |rest.spans| == |rest.from| && Chooses(choose, tokens)
    requires DecidedAt(choose, srcs[1..][j - 1], Consume(used, choose(srcs[0], used)), rest, j - 1)
    ensures DecidedAt(choose, srcs[j], used, Record(seg, srcs[0], tokens, choose(srcs[0], used), rest, sim), j)
  {
    var pick := choose(srcs[0], used);
    if pick.None? {
      DecidesRejected(choose, seg, srcs, tokens, used, pick, rest, sim, j);
    } else {
      DecidesAccepted(choose, seg, srcs, tokens, used, pick, rest, sim, j);
    }
  }

  /** The decision for segment `j`: the choice, made against the indices used
      by the alignments recorded for the segments before `j`, is `Some` exactly
      when an alignment for `j` is recorded, and then it is that alignment's
      span. */
  lemma {:induction false} AlignFromDecides(segs: seq<string>, srcs: seq<seq<string>>, tokens: seq<string>, used: set<nat>,
                                            choose: Chooser, sim: (seq<string>, seq<string>) -> real, j: nat)
    requires |srcs| == |segs| && Chooses(choose, tokens)
    requires j < |segs|
    ensures DecidedAt(choose, srcs[j], used, AlignFrom(segs, srcs, tokens, used, choose, sim), j)
    decreases |segs|
  {
    var pick := choose(srcs[0], used);
    var used' := Consume(used, pick);
    var rest := AlignFrom(segs[1..], srcs[1..], tokens, used', choose, sim);
    AlignFromStep(segs, srcs, tokens, used, choose, sim);
    if j == 0 {
      DecidesFirst(choose, segs[0], srcs, tokens, used, rest, sim);
    } else {
      AlignFromDecides(segs[1..], srcs[1..], tokens, used', choose, sim, j - 1);
      DecidesLater(choose, segs[0], srcs, tokens, used, rest, sim, j);
    }
  }

  /** Accepted spans avoid the indices used before. */
  lemma {:induction false} AlignFromFree(segs: seq<string>, srcs: seq<seq<string>>, tokens: seq<string>, used: set<nat>,
                                         choose: Chooser, sim: (seq<string>, seq<string>) -> real, k: nat)
    requires |srcs| == |segs| && Chooses(choose, tokens)
    requires k < |AlignFrom(segs, srcs, tokens, used, choose, sim).spans|
    ensures Free(AlignFrom(segs, srcs, tokens, used, choose, sim).spans[k], used)
    decreases |segs|
  {
    match choose(srcs[0], used)
    case None =>
      AlignFromFree(segs[1..], srcs[1..], tokens, used, choose, sim, k);
    case Some(sp) =>
      if k > 0 {
        AlignFromFree(segs[1..], srcs[1..], tokens, Consume(used, Some(sp)), choose, sim, k - 1);
      }
  }

  /** A span free of another span's indices does not overlap it. */
  lemma FreeOfTaken(sp: Span, o: Span, used: set<nat>)
    requires sp.start < sp.end && o.start < o.end
    requires Free(o, used + Indices(sp.start, sp.end))
    ensures Disjoint(sp, o)
  {
    if sp.start <= o.start {
      assert o.start !in Indices(sp.start, sp.end);
    } else {
      assert sp.start in Indices(sp.start, sp.end);
    }
  }

  /** No two of the spans share an index. */
  predicate PairwiseDisjoint(spans: seq<Span>)
  {
    forall k, m :: 0 <= k < m < |spans| ==> Disjoint(spans[k], spans[m])
  }

  lemma ConsDisjoint(sp: Span, spans: seq<Span>)
    requires PairwiseDisjoint(spans)
    requires forall k :: 0 <= k < |spans| ==> Disjoint(sp, spans[k])
    ensures PairwiseDisjoint([sp] + spans)
  {
    forall k, m | 0 <= k < m < |[sp] + spans| ensures Disjoint(([sp] + spans)[k], ([sp] + spans)[m]) {
      assert ([sp] + spans)[m] == spans[m - 1];
      if k > 0 {
        assert ([sp] + spans)[k] == spans[k - 1];
      }
    }
  }

  /** Every accepted span avoids the indices used before the loop. */
  lemma AlignFromAllFree(segs: seq<string>, srcs: seq<seq<string>>, tokens: seq<string>, used: set<nat>,
                         choose: Chooser, sim: (seq<string>, seq<string>) -> real)
    requires |srcs| == |segs| && Chooses(choose, tokens)
    ensures forall k :: 0 <= k < |AlignFrom(segs, srcs, tokens, used, choose, sim).spans| ==>
              Free(AlignFrom(segs, srcs, tokens, used, choose, sim).spans[k], used)
  {
    forall k | 0 <= k < |AlignFrom(segs, srcs, tokens, used, choose, sim).spans|
      ensures Free(AlignFrom(segs, srcs, tokens, used, choose, sim).spans[k], used)
    {
      AlignFromFree(segs, srcs, tokens, used, choose, sim, k);
    }
  }

  /** Two accepted spans never share an index: no target index is consumed twice. */
  lemma {:induction false} AlignFromDisjoint(segs: seq<string>, srcs: seq<seq<string>>, tokens: seq<string>, used: set<nat>,
                                             choose: Chooser, sim: (seq<string>, seq<string>) -> real)
    requires |srcs| == |segs| && Chooses(choose, tokens)
    ensures PairwiseDisjoint(AlignFrom(segs, srcs, tokens, used, choose, sim).spans)
    decreases |segs|
  {
    if segs != [] {
      var r := AlignFrom(segs, srcs, tokens, used, choose, sim);
      match choose(srcs[0], used)
      case None =>
        AlignFromDisjoint(segs[1..], srcs[1..], tokens, used, choose, sim);
        assert r.spans == AlignFrom(segs[1..], srcs[1..], tokens, used, choose, sim).spans;
      case Some(sp) =>
        var used' := Consume(used, Some(sp));
        var rest := AlignFrom(segs[1..], srcs[1..], tokens, used', choose, sim);
        AlignFromDisjoint(segs[1..], srcs[1..], tokens, used', choose, sim);
        AlignFromAllFree(segs[1..], srcs[1..], tokens, used', choose, sim);
        forall k | 0 <= k < |rest.spans| ensures Disjoint(sp, rest.spans[k]) {
          FreeOfTaken(sp, rest.spans[k], used);
        }
        ConsDisjoint(sp, rest.spans);
        assert r.spans == [sp] + rest.spans;
    }
  }

  /** The union of the indices of some spans. */
  function Covered(spans: seq<Span>): set<nat>
  {
    if spans == [] then {} else Indices(spans[0].start, spans[0].end) + Covered(spans[1..])
  }

  /** An index is covered exactly when one of the spans contains it. */
  lemma {:induction false} CoveredMembers(spans: seq<Span>)
    ensures forall i :: i in Covered(spans) <==> exists k :: 0 <= k < |spans| && spans[k].start <= i < spans[k].end
  {
    if spans != [] {
      var rest := Covered(spans[1..]);
      CoveredMembers(spans[1..]);
      forall i | i in rest ensures exists k :: 1 <= k < |spans| && spans[k].start <= i < spans[k].end {
        var k :| 0 <= k < |spans[1..]| && spans[1..][k].start <= i < spans[1..][k].end;
        assert spans[k + 1] == spans[1..][k];
      }
      forall i, k | 1 <= k < |spans| && spans[k].start <= i < spans[k].end ensures i in rest {
        assert spans[1..][k - 1] == spans[k];
      }
    }
  }

  /** The indices used after the loop are exactly the old ones plus those of
      the accepted spans: a rejected source consumes none. */
  lemma {:induction false} AlignFromUsed(segs: seq<string>, srcs: seq<seq<string>>, tokens: seq<string>, used: set<nat>,
                                         choose: Chooser, sim: (seq<string>, seq<string>) -> real)
    requires |srcs| == |segs| && Chooses(choose, tokens)
    ensures var r := AlignFrom(segs, srcs, tokens, used, choose, sim);
            r.used == used + Covered(r.spans)
    decreases |segs|
  {
    if segs != [] {
      match choose(srcs[0], used)
      case None =>
        AlignFromUsed(segs[1..], srcs[1..], tokens, used, choose, sim);
      case Some(sp) =>
        var used' := Consume(used, Some(sp));
        AlignFromUsed(segs[1..], srcs[1..], tokens, used', choose, sim);
        var rest := AlignFrom(segs[1..], srcs[1..], tokens, used', choose, sim);
        assert ([sp] + rest.spans)[1..] == rest.spans;
    }
  }

  /** The tokens of every source segment. */
  function Tokenise(segs: seq<string>): (r: seq<seq<string>>)
    ensures |r| == |segs|
  {
    seq(|segs|, k requires 0 <= k < |segs| => SourceTokens(segs[k]))
  }

  /** `align_sentences`, keeping the spans and source positions of the
      alignments: nothing for an empty source list or a blank target;
      otherwise the outer loop over the target's tokens with no index used
      yet, choosing greedily. */
  function AlignRun(segs: seq<string>, target: string,
                    sim: (seq<string>, seq<string>) -> real, threshold: real): (r: Aligned)
  {
    if segs == [] || Strip(target) == [] then Aligned([], [], [], {})
    else
      var tokens := Split(Strip(target));
      GreedyChooses(tokens, sim, threshold);
      AlignFrom(segs, Tokenise(segs), tokens, {}, Greedy(tokens, sim, threshold), sim)
  }

  /** `align_sentences`: the list of alignments. */
  function AlignSentences(segs: seq<string>, target: string,
                          sim: (seq<string>, seq<string>) -> real, threshold: real): seq<Alignment>
  {
    AlignRun(segs, target, sim, threshold).alignments
  }

  /** An empty source list or a target of only whitespace gives no alignments. */
  lemma AlignSentencesEmpty(segs: seq<string>, target: string,
                            sim: (seq<string>, seq<string>) -> real, threshold: real)
    requires segs == [] || AllSpace(target)
    ensures AlignSentences(segs, target, sim, threshold) == []
  {
    StripEmptyIffAllSpace(target);
  }

  /** At most one alignment per source segment, in source order, over
      spans of the target's tokens that never share an index. */
  lemma AlignSentencesShape(segs: seq<string>, target: string,
                            sim: (seq<string>, seq<string>) -> real, threshold: real)
    ensures var r := AlignRun(segs, target, sim, threshold);
            && |r.alignments| == |r.spans| == |r.from| <= |segs|
            && (forall k :: 0 <= k < |r.spans| ==> InRange(r.spans[k], |Split(Strip(target))|) && r.from[k] < |segs|)
            && (forall k, m :: 0 <= k < m < |r.from| ==> r.from[k] < r.from[m])
            && PairwiseDisjoint(r.spans)
  {
    if !(segs == [] || Strip(target) == []) {
      var tokens := Split(Strip(target));
      GreedyChooses(tokens, sim, threshold);
      var g := Greedy(tokens, sim, threshold);
      var r := AlignFrom(segs, Tokenise(segs), tokens, {}, g, sim);
      forall k, m | 0 <= k < m < |r.from| ensures r.from[k] < r.from[m] {
        AlignFromOrdered(segs, Tokenise(segs), tokens, {}, g, sim, k, m);
      }
      AlignFromDisjoint(segs, Tokenise(segs), tokens, {}, g, sim);
    }
  }

  /** Each alignment carries the text of a segment with at least one token,
      the space-joined tokens of its span, and that span's score for the
      segment. */
  lemma AlignSentencesRecord(segs: seq<string>, target: string,
                             sim: (seq<string>, seq<string>) -> real, threshold: real, k: nat)
    requires k < |AlignRun(segs, target, sim, threshold).alignments|
    ensures var r := AlignRun(segs, target, sim, threshold);
            var tokens := Split(Strip(target));
            && r.from[k] < |segs|
            && InRange(r.spans[k], |tokens|)
            && r.alignments[k].source == segs[r.from[k]]
            && SourceTokens(segs[r.from[k]]) != []
            && r.alignments[k].target == Join(SpanTokens(tokens, r.spans[k]), " ")
            && r.alignments[k].similarity == sim(SourceTokens(segs[r.from[k]]), SpanTokens(tokens, r.spans[k]))
  {
    var tokens := Split(Strip(target));
    GreedyChooses(tokens, sim, threshold);
    var srcs := Tokenise(segs);
    var r := AlignFrom(segs, srcs, tokens, {}, Greedy(tokens, sim, threshold), sim);
    AlignFromRecord(segs, srcs, tokens, {}, Greedy(tokens, sim, threshold), sim, k);
    assert srcs[r.from[k]] == SourceTokens(segs[r.from[k]]);
  }

  /** Each alignment's span is the greedy pick for its segment against the
      indices of the alignments before it, so its similarity is at least the
      threshold. */
  lemma AlignSentencesPicked(segs: seq<string>, target: string,
                             sim: (seq<string>, seq<string>) -> real, threshold: real, k: nat)
    requires k < |AlignRun(segs, target, sim, threshold).alignments|
    ensures var r := AlignRun(segs, target, sim, threshold);
            && r.from[k] < |segs|
            && r.alignments[k].similarity >= threshold
            && AlignOne(SourceTokens(segs[r.from[k]]), Split(Strip(target)), Covered(r.spans[..k]), sim, threshold) == Some(r.spans[k])
  {
    var tokens := Split(Strip(target));
    GreedyChooses(tokens, sim, threshold);
    var g := Greedy(tokens, sim, threshold);
    var srcs := Tokenise(segs);
    var r := AlignFrom(segs, srcs, tokens, {}, g, sim);
    AlignFromRecord(segs, srcs, tokens, {}, g, sim, k);
    AlignFromPicked(segs, srcs, tokens, {}, g, sim, k);
    assert {} + Covered(r.spans[..k]) == Covered(r.spans[..k]);
    assert srcs[r.from[k]] == SourceTokens(segs[r.from[k]]);
  }

  /** `DecidedAt` for the greedy chooser, written out through `AlignOne`. */
  lemma GreedyDecided(tokens: seq<string>, sim: (seq<string>, seq<string>) -> real, threshold: real,
                      src: seq<string>, r: Aligned, j: nat)
    requires DecidedAt(Greedy(tokens, sim, threshold), src, {}, r, j)
    ensures var c := RecordsBefore(r.from, j);
            && |r.spans| == |r.from|
            && ((exists k :: 0 <= k < |r.from| && r.from[k] == j) <==> c < |r.from| && r.from[c] == j)
            && AlignOne(src, tokens, Covered(r.spans[..c]), sim, threshold)
               == (if c < |r.from| && r.from[c] == j then Some(r.spans[c]) else None)
  {
    var c := RecordsBefore(r.from, j);
    assert {} + Covered(r.spans[..c]) == Covered(r.spans[..c]);
  }

  /** With no target tokens no pick succeeds. */
  lemma BlankPick(src: seq<string>, used: set<nat>, sim: (seq<string>, seq<string>) -> real, threshold: real)
    ensures AlignOne(src, [], used, sim, threshold) == None
  {
  }

  /** A run over a non-blank target is the greedy loop from no used indices. */
  lemma AlignRunGreedy(segs: seq<string>, target: string, sim: (seq<string>, seq<string>) -> real, threshold: real)
    requires segs != [] && Strip(target) != []
    ensures var tokens := Split(Strip(target));
            && Chooses(Greedy(tokens, sim, threshold), tokens)
            && AlignRun(segs, target, sim, threshold) == AlignFrom(segs, Tokenise(segs), tokens, {}, Greedy(tokens, sim, threshold), sim)
  {
    GreedyChooses(Split(Strip(target)), sim, threshold);
  }

  /** For a blank target nothing is recorded and no pick succeeds. */
  lemma BlankDecides(segs: seq<string>, target: string,
                     sim: (seq<string>, seq<string>) -> real, threshold: real, j: nat)
    requires j < |segs| && Strip(target) == []
    ensures AlignRun(segs, target, sim, threshold) == Aligned([], [], [], {})
    ensures AlignOne(SourceTokens(segs[j]), Split(Strip(target)), {}, sim, threshold) == None
  {
    assert Split(Strip(target)) == [];
    BlankPick(SourceTokens(segs[j]), {}, sim, threshold);
  }

  /** `AlignSentencesDecides` for a target with tokens: the greedy loop's
      decision. */
  lemma GreedyDecides(segs: seq<string>, target: string,
                      sim: (seq<string>, seq<string>) -> real, threshold: real, j: nat)
    requires j < |segs| && Strip(target) != []
    ensures var r := AlignRun(segs, target, sim, threshold);
            var c := RecordsBefore(r.from, j);
            && |r.spans| == |r.from|
            && ((exists k :: 0 <= k < |r.from| && r.from[k] == j) <==> c < |r.from| && r.from[c] == j)
            && AlignOne(SourceTokens(segs[j]), Split(Strip(target)), Covered(r.spans[..c]), sim, threshold)
               == (if c < |r.from| && r.from[c] == j then Some(r.spans[c]) else None)
  {
    var tokens := Split(Strip(target));
    AlignRunGreedy(segs, target, sim, threshold);
    var g := Greedy(tokens, sim, threshold);
    var srcs := Tokenise(segs);
    AlignFromDecides(segs, srcs, tokens, {}, g, sim, j);
    assert srcs[j] == SourceTokens(segs[j]);
    GreedyDecided(tokens, sim, threshold, srcs[j], AlignFrom(segs, srcs, tokens, {}, g, sim), j);
  }

  /** The decision for each source segment `j`: with `c` alignments recorded
      for the segments before it, the greedy pick for `j` against the indices
      of those `c` spans is `Some` exactly when an alignment for `j` is
      recorded (it is then the `c`-th), and it is that alignment's span. A
      segment without an alignment is one whose pick found nothing at or
      above the threshold. */
  lemma AlignSentencesDecides(segs: seq<string>, target: string,
                              sim: (seq<string>, seq<string>) -> real, threshold: real, j: nat)
    requires j < |segs|
    ensures var r := AlignRun(segs, target, sim, threshold);
            var c := RecordsBefore(r.from, j);
            && |r.spans| == |r.from|
            && ((exists k :: 0 <= k < |r.from| && r.from[k] == j) <==> c < |r.from| && r.from[c] == j)
            && AlignOne(SourceTokens(segs[j]), Split(Strip(target)), Covered(r.spans[..c]), sim, threshold)
               == (if c < |r.from| && r.from[c] == j then Some(r.spans[c]) else None)
  {
    if Strip(target) == [] {
      BlankDecides(segs, target, sim, threshold, j);
      assert RecordsBefore([], j) == 0;
      assert Covered([]) == {};
    } else {
      GreedyDecides(segs, target, sim, threshold, j);
    }
  }

  lemma {:induction false} IndicesCard(start: nat, end: nat)
    requires start <= end
    ensures |Indices(start, end)| == end - start
    decreases end - start
  {
    if start < end {
      IndicesCard(start + 1, end);
      assert start !in Indices(start + 1, end);
    }
  }

  lemma {:induction false} SubsetCard(a: set<nat>, b: set<nat>)
    requires a <= b
    ensures |a| <= |b|
    decreases |a|
  {
    if a != {} {
      var x :| x in a;
      SubsetCard(a - {x}, b - {x});
    }
  }

  /** A span disjoint from each of some spans shares no index with their union. */
  lemma DisjointFromCovered(sp: Span, spans: seq<Span>)
    requires forall k :: 0 <= k < |spans| ==> Disjoint(sp, spans[k])
    ensures Indices(sp.start, sp.end) !! Covered(spans)
  {
    CoveredMembers(spans);
  }

  /** Pairwise disjoint non-empty spans cover at least one index each. */
  lemma {:induction false} CoveredCard(spans: seq<Span>)
    requires PairwiseDisjoint(spans)
    requires forall k :: 0 <= k < |spans| ==> spans[k].start < spans[k].end
    ensures |Covered(spans)| >= |spans|
    decreases |spans|
  {
    if spans != [] {
      var sp := spans[0];
      var rest := spans[1..];
      assert PairwiseDisjoint(rest) by {
        forall k, m | 0 <= k < m < |rest| ensures Disjoint(rest[k], rest[m]) {
          assert rest[k] == spans[k + 1] && rest[m] == spans[m + 1];
        }
      }
      CoveredCard(rest);
      IndicesCard(sp.start, sp.end);
      forall k | 0 <= k < |rest| ensures Disjoint(sp, rest[k]) {
        assert Disjoint(spans[0], spans[k + 1]);
      }
      DisjointFromCovered(sp, rest);
      assert Covered(spans) == Indices(sp.start, sp.end) + Covered(rest);
    }
  }

  /** Pairwise disjoint spans within `n` tokens number at most `n`. */
  lemma SpansCount(spans: seq<Span>, n: nat)
    requires PairwiseDisjoint(spans)
    requires forall k :: 0 <= k < |spans| ==> InRange(spans[k], n)
    ensures |spans| <= n
  {
    CoveredCard(spans);
    CoveredMembers(spans);
    assert Covered(spans) <= Indices(0, n);
    SubsetCard(Covered(spans), Indices(0, n));
    IndicesCard(0, n);
  }

  /** There are never more alignments than target tokens. */
  lemma AlignSentencesCount(segs: seq<string>, target: string,
                            sim: (seq<string>, seq<string>) -> real, threshold: real)
    ensures |AlignSentences(segs, target, sim, threshold)| <= |Split(Strip(target))|
  {
    var r := AlignRun(segs, target, sim, threshold);
    AlignSentencesShape(segs, target, sim, threshold);
    SpansCount(r.spans, |Split(Strip(target))|);
  }
}
