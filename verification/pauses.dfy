/**
  Hybrid pause identification (modules/audio_analysis/extract_pauses.py):
  the diarization gap walk, keeping a gap only when it is long enough and the
  audio in it is quiet.

  The loudness of the audio between two instants is an oracle `dbfs`,
  standing for `audio[a:b].dBFS`. Times are centiseconds, as in the
  diarization model.
 */
module PauseDetection {
  import opened Diarization

  /** A gap counts as silent when its level is below -35 dBFS. */
  const SilenceDbfs: real := -35.0

  /** The default `min_pause_len` of 0.3 s. */
  const DefaultMinPauseCs: int := 30

  /** The loop of lines 11-17: the gap before a segment is kept when it
      lasts at least `minPause` and is quiet; `prev_end` advances to the
      larger end whether or not the gap was kept. */
  function HybridWalk(segs: seq<Turn>, prevEnd: int, minPause: int, dbfs: (int, int) -> real): (w: Walked)
    ensures w.prevEnd == GapWalk(segs, prevEnd).prevEnd
    ensures forall k :: 0 <= k < |w.pauses| ==>
              && prevEnd <= w.pauses[k].start
              && w.pauses[k].end - w.pauses[k].start >= minPause
              && dbfs(w.pauses[k].start, w.pauses[k].end) < SilenceDbfs
    decreases |segs|
  {
    if segs == [] then Walked([], prevEnd)
    else
      var s := segs[0];
      var keep := s.start - prevEnd >= minPause && dbfs(prevEnd, s.start) < SilenceDbfs;
      var rest := HybridWalk(segs[1..], Max(prevEnd, s.end), minPause, dbfs);
      Walked((if keep then [Interval(prevEnd, s.start)] else []) + rest.pauses, rest.prevEnd)
  }

  /** `pause_identification`: the kept gaps, with no trailing pause. */
  function PauseIdentification(segs: seq<Turn>, minPause: int, dbfs: (int, int) -> real): seq<Interval>
  {
    HybridWalk(segs, 0, minPause, dbfs).pauses
  }

  /** `idx` picks out `a` inside `b`, in order: `a` is a subsequence of `b`. */
  predicate Embeds(a: seq<Interval>, b: seq<Interval>, idx: seq<nat>)
  {
    && |idx| == |a|
    && (forall k :: 0 <= k < |idx| ==> idx[k] < |b| && a[k] == b[idx[k]])
    && (forall k, m :: 0 <= k < m < |idx| ==> idx[k] < idx[m])
  }

  /** Shifting every index by one embeds `a` into `b` with one element in front. */
  function Shift(idx: seq<nat>): (r: seq<nat>)
    ensures |r| == |idx| && forall k :: 0 <= k < |idx| ==> r[k] == idx[k] + 1
  {
    seq(|idx|, k requires 0 <= k < |idx| => idx[k] + 1)
  }

  lemma EmbedsSkip(a: seq<Interval>, b: seq<Interval>, idx: seq<nat>, x: Interval)
    requires Embeds(a, b, idx)
    ensures Embeds(a, [x] + b, Shift(idx))
  {
    var r := Shift(idx);
    forall k | 0 <= k < |r| ensures r[k] < |[x] + b| && a[k] == ([x] + b)[r[k]] {
      assert ([x] + b)[idx[k] + 1] == b[idx[k]];
    }
  }

  lemma EmbedsBoth(a: seq<Interval>, b: seq<Interval>, idx: seq<nat>, x: Interval)
    requires Embeds(a, b, idx)
    ensures Embeds([x] + a, [x] + b, [0] + Shift(idx))
  {
    EmbedsSkip(a, b, idx, x);
    var r := [0] + Shift(idx);
    forall k | 0 <= k < |r| ensures r[k] < |[x] + b| && ([x] + a)[k] == ([x] + b)[r[k]] {
      if k > 0 {
        assert r[k] == Shift(idx)[k - 1];
        assert ([x] + a)[k] == a[k - 1];
      }
    }
  }

  /** With a positive minimum length, every pause the hybrid walk keeps is
      one the plain gap walk emits, in the same order. */
  lemma {:induction false} HybridIsSubsequence(segs: seq<Turn>, p: int, minPause: int, dbfs: (int, int) -> real)
    returns (idx: seq<nat>)
    requires minPause > 0
    ensures Embeds(HybridWalk(segs, p, minPause, dbfs).pauses, GapWalk(segs, p).pauses, idx)
    decreases |segs|
  {
    if segs == [] {
      idx := [];
    } else {
      var s := segs[0];
      var q := Max(p, s.end);
      var rest := HybridIsSubsequence(segs[1..], q, minPause, dbfs);
      var hr := HybridWalk(segs[1..], q, minPause, dbfs).pauses;
      var gr := GapWalk(segs[1..], q).pauses;
      var x := Interval(p, s.start);
      if s.start - p >= minPause && dbfs(p, s.start) < SilenceDbfs {
        assert HybridWalk(segs, p, minPause, dbfs).pauses == [x] + hr;
        assert GapWalk(segs, p).pauses == [x] + gr;
        EmbedsBoth(hr, gr, rest, x);
        idx := [0] + Shift(rest);
      } else if s.start > p {
        assert HybridWalk(segs, p, minPause, dbfs).pauses == hr;
        assert GapWalk(segs, p).pauses == [x] + gr;
        EmbedsSkip(hr, gr, rest, x);
        idx := Shift(rest);
      } else {
        assert HybridWalk(segs, p, minPause, dbfs).pauses == hr;
        assert GapWalk(segs, p).pauses == gr;
        idx := rest;
      }
    }
  }

  /** The gaps of `ps` that last at least `minPause` and are quiet, in order. */
  function LongQuiet(ps: seq<Interval>, minPause: int, dbfs: (int, int) -> real): seq<Interval>
  {
    if ps == [] then []
    else
      var x := ps[0];
      (if x.end - x.start >= minPause && dbfs(x.start, x.end) < SilenceDbfs then [x] else [])
      + LongQuiet(ps[1..], minPause, dbfs)
  }

  lemma LongQuietCons(x: Interval, ps: seq<Interval>, minPause: int, dbfs: (int, int) -> real)
    ensures LongQuiet([x] + ps, minPause, dbfs)
            == (if x.end - x.start >= minPause && dbfs(x.start, x.end) < SilenceDbfs then [x] else [])
               + LongQuiet(ps, minPause, dbfs)
  {
    assert ([x] + ps)[1..] == ps;
  }

  /** With a positive minimum length the hybrid walk is exactly the plain gap
      walk with its short or loud gaps dropped: every gap of the plain walk
      that is long enough and quiet is kept, and nothing else. */
  lemma {:induction false} HybridIsFiltered(segs: seq<Turn>, p: int, minPause: int, dbfs: (int, int) -> real)
    requires minPause > 0
    ensures HybridWalk(segs, p, minPause, dbfs).pauses == LongQuiet(GapWalk(segs, p).pauses, minPause, dbfs)
    decreases |segs|
  {
    if segs != [] {
      var s := segs[0];
      var q := Max(p, s.end);
      HybridIsFiltered(segs[1..], q, minPause, dbfs);
      var gr := GapWalk(segs[1..], q).pauses;
      var x := Interval(p, s.start);
      if s.start > p {
        assert GapWalk(segs, p).pauses == [x] + gr;
        LongQuietCons(x, gr, minPause, dbfs);
      } else {
        assert GapWalk(segs, p).pauses == gr;
      }
    }
  }

  /** A subsequence of ordered, disjoint, non-empty pauses is again one. */
  lemma EmbedsAscending(a: seq<Interval>, b: seq<Interval>, idx: seq<nat>)
    requires Embeds(a, b, idx) && Ascending(b)
    ensures Ascending(a)
  {
    forall k, m | 0 <= k < m < |a| ensures a[k].end <= a[m].start {
      assert a[k] == b[idx[k]] && a[m] == b[idx[m]];
    }
  }

  /** With a positive minimum length and well-formed segments, the hybrid
      pauses are ordered, disjoint and non-empty without re-sorting the
      input; when the input is sorted by start they also share no instant
      with any segment. */
  lemma HybridPausesApart(segs: seq<Turn>, minPause: int, dbfs: (int, int) -> real)
    requires minPause > 0 && WellFormed(segs)
    ensures Ascending(PauseIdentification(segs, minPause, dbfs))
    ensures SortedByStart(segs) ==>
              forall k, i :: 0 <= k < |PauseIdentification(segs, minPause, dbfs)| && 0 <= i < |segs|
                ==> Apart(PauseIdentification(segs, minPause, dbfs)[k], segs[i])
  {
    var h := PauseIdentification(segs, minPause, dbfs);
    var g := GapWalk(segs, 0).pauses;
    var idx := HybridIsSubsequence(segs, 0, minPause, dbfs);
    GapWalkAscending(segs, 0);
    EmbedsAscending(h, g, idx);
    if SortedByStart(segs) {
      GapWalkAvoidsTurns(segs, 0);
      forall k, i | 0 <= k < |h| && 0 <= i < |segs| ensures Apart(h[k], segs[i]) {
        assert h[k] == g[idx[k]];
      }
    }
  }

  /** Every kept pause ends where some segment starts: nothing is emitted
      after the last segment. */
  lemma {:induction false} HybridPausesEndAtSegments(segs: seq<Turn>, p: int, minPause: int, dbfs: (int, int) -> real)
    ensures forall k :: 0 <= k < |HybridWalk(segs, p, minPause, dbfs).pauses| ==>
              exists i :: 0 <= i < |segs| && HybridWalk(segs, p, minPause, dbfs).pauses[k].end == segs[i].start
    decreases |segs|
  {
    if segs != [] {
      var q := Max(p, segs[0].end);
      HybridPausesEndAtSegments(segs[1..], q, minPause, dbfs);
      var h := HybridWalk(segs, p, minPause, dbfs).pauses;
      var hr := HybridWalk(segs[1..], q, minPause, dbfs).pauses;
      var off := |h| - |hr|;
      assert h[off..] == hr;
      forall k | 0 <= k < |h| ensures exists i :: 0 <= i < |segs| && h[k].end == segs[i].start {
        if k < off {
          assert h[k].end == segs[0].start;
        } else {
          assert h[k] == hr[k - off];
          var i :| 0 <= i < |segs[1..]| && hr[k - off].end == segs[1..][i].start;
          assert segs[i + 1] == segs[1..][i];
        }
      }
    }
  }

  /** One segment of 0-1 s in a 2 s recording: the plain walk of the
      diarization step reports the silent tail 1-2 s, the hybrid walk
      reports nothing. */
  lemma NoTrailingPause(dbfs: (int, int) -> real)
    ensures PauseIdentification([Turn(0, 100, "A")], DefaultMinPauseCs, dbfs) == []
    ensures FindPauses([Turn(0, 100, "A")], 200) == [Interval(100, 200)]
  {
    assert [Turn(0, 100, "A")][1..] == [];
  }
}
