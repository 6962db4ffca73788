/**
  Turning diarization detections into a partition of the timeline
  (modules/audio_analysis/diarization.py, `diarize_and_extract_speakers`).

  The diarization model itself is an oracle: its output, the list of
  `(start, end, speaker)` detections in the order `itertracks` yields them,
  is the input here. The source rounds every time to two decimals, so times
  are integer centiseconds. The audio duration is a sample count at the
  voice encoder's 16 kHz rate.
 */
module Diarization {
  import opened Strings

  /** A half-open time span `[start, end)` in centiseconds. */
  datatype Interval = Interval(start: int, end: int)

  /** One detection: a speaker label and the span it was heard in. */
  datatype Turn = Turn(start: int, end: int, speaker: string)

  /** The state of the pause walk: the pauses emitted so far and `prev_end`. */
  datatype Walked = Walked(pauses: seq<Interval>, prevEnd: int)

  /** One entry of the speaker data dictionary. */
  datatype SpeakerEntry = Segments(segments: seq<Interval>) | PauseSegments(pauses: seq<Interval>)

  /** The voice encoder's sampling rate, and the samples in one centisecond. */
  const SampleRate: nat := 16000
  const SamplesPerCs: nat := 160

  const PauseKey: string := "pause_segments"

  function Max(a: int, b: int): int
  {
    if a >= b then a else b
  }

  /** Every detection ends no earlier than it starts. */
  predicate WellFormed(ts: seq<Turn>)
  {
    forall i :: 0 <= i < |ts| ==> ts[i].start <= ts[i].end
  }

  predicate SortedByStart(ts: seq<Turn>)
  {
    forall i, j :: 0 <= i < j < |ts| ==> ts[i].start <= ts[j].start
  }

  /** Each pause is non-empty and ends no later than the next one starts:
      the pauses are ordered and pairwise disjoint. */
  predicate Ascending(ps: seq<Interval>)
  {
    && (forall k :: 0 <= k < |ps| ==> ps[k].start < ps[k].end)
    && (forall k, m :: 0 <= k < m < |ps| ==> ps[k].end <= ps[m].start)
  }

  /** A pause and a turn share no instant. */
  predicate Apart(p: Interval, t: Turn)
  {
    p.end <= t.start || t.end <= p.start
  }

  predicate InTurn(ts: seq<Turn>, x: int)
  {
    exists i :: 0 <= i < |ts| && ts[i].start <= x < ts[i].end
  }

  predicate InPause(ps: seq<Interval>, x: int)
  {
    exists k :: 0 <= k < |ps| && ps[k].start <= x < ps[k].end
  }

  // ---------------------------------------------------------------------
  // Sorting the detections as tuples `(start, end, speaker)`
  // ---------------------------------------------------------------------

  /** Python's ordering of `(start, end, speaker)` tuples. */
  predicate TurnLe(a: Turn, b: Turn)
  {
    || a.start < b.start
    || (a.start == b.start && (a.end < b.end || (a.end == b.end && StrLe(a.speaker, b.speaker))))
  }

  lemma TurnLeTotal(a: Turn, b: Turn)
    ensures TurnLe(a, b) || TurnLe(b, a)
  {
    StrLeTotal(a.speaker, b.speaker);
  }

  lemma TurnLeTransitive(a: Turn, b: Turn, c: Turn)
    requires TurnLe(a, b) && TurnLe(b, c)
    ensures TurnLe(a, c)
  {
    if a.start == b.start == c.start && a.end == b.end == c.end {
      StrLeTransitive(a.speaker, b.speaker, c.speaker);
    }
  }

  predicate SortedTurns(ts: seq<Turn>)
  {
    forall i, j :: 0 <= i < j < |ts| ==> TurnLe(ts[i], ts[j])
  }

  lemma InsertInFront(t: Turn, ts: seq<Turn>)
    requires SortedTurns(ts) && ts != [] && TurnLe(t, ts[0])
    ensures SortedTurns([t] + ts)
  {
    forall i, j | 0 <= i < j < |ts| + 1 ensures TurnLe(([t] + ts)[i], ([t] + ts)[j]) {
      if i == 0 && j > 1 {
        TurnLeTransitive(t, ts[0], ts[j - 1]);
      }
    }
  }

  lemma InsertBehind(t: Turn, ts: seq<Turn>, rest: seq<Turn>)
    requires SortedTurns(ts) && ts != [] && !TurnLe(t, ts[0])
    requires SortedTurns(rest) && multiset(rest) == multiset(ts[1..]) + multiset{t}
    ensures SortedTurns([ts[0]] + rest)
    ensures multiset([ts[0]] + rest) == multiset(ts) + multiset{t}
  {
    TurnLeTotal(t, ts[0]);
    forall j | 0 <= j < |rest| ensures TurnLe(ts[0], rest[j]) {
      assert rest[j] in multiset(rest);
      if rest[j] != t {
        assert rest[j] in multiset(ts[1..]);
        var k :| 0 <= k < |ts[1..]| && ts[1..][k] == rest[j];
        assert ts[k + 1] == rest[j];
      }
    }
    assert ts == [ts[0]] + ts[1..];
  }

  function InsertTurn(t: Turn, ts: seq<Turn>): (r: seq<Turn>)
    requires SortedTurns(ts)
    ensures SortedTurns(r)
    ensures multiset(r) == multiset(ts) + multiset{t}
  {
    if ts == [] then [t]
    else if TurnLe(t, ts[0]) then
      InsertInFront(t, ts);
      [t] + ts
    else
      var rest := InsertTurn(t, ts[1..]);
      InsertBehind(t, ts, rest);
      [ts[0]] + rest
  }

  /** `all_segments.sort()`: the detections in tuple order. */
  function SortTurns(ts: seq<Turn>): (r: seq<Turn>)
    ensures SortedTurns(r)
    ensures multiset(r) == multiset(ts)
  {
    if ts == [] then []
    else
      assert ts == [ts[0]] + ts[1..];
      InsertTurn(ts[0], SortTurns(ts[1..]))
  }

  /** Tuple order puts earlier starts first. */
  lemma SortedTurnsByStart(ts: seq<Turn>)
    requires SortedTurns(ts)
    ensures SortedByStart(ts)
  {
  }

  /** Sorting keeps every detection and invents none. */
  lemma SortedMembers(ts: seq<Turn>)
    ensures forall i :: 0 <= i < |SortTurns(ts)| ==> SortTurns(ts)[i] in ts
    ensures forall i :: 0 <= i < |ts| ==> ts[i] in SortTurns(ts)
  {
    var r := SortTurns(ts);
    assert forall i :: 0 <= i < |r| ==> r[i] in multiset(ts);
    assert forall i :: 0 <= i < |ts| ==> ts[i] in multiset(r);
  }

  // ---------------------------------------------------------------------
  // The pause walk
  // ---------------------------------------------------------------------

  /** The loop of lines 59-64: walking the sorted detections with a running
      `prev_end`, a pause `[prev_end, start)` is emitted whenever a
      detection starts strictly after it. */
  function GapWalk(ts: seq<Turn>, prevEnd: int): (w: Walked)
    ensures w.prevEnd >= prevEnd
    ensures forall k :: 0 <= k < |w.pauses| ==> prevEnd <= w.pauses[k].start < w.pauses[k].end
    decreases |ts|
  {
    if ts == [] then Walked([], prevEnd)
    else
      var t := ts[0];
      var rest := GapWalk(ts[1..], Max(prevEnd, t.end));
      Walked((if t.start > prevEnd then [Interval(prevEnd, t.start)] else []) + rest.pauses, rest.prevEnd)
  }

  /** One more iteration of the loop: the next detection adds a pause
      exactly when it starts after the current `prev_end`, and moves
      `prev_end` to the larger of the two ends. */
  lemma {:induction false} GapWalkStep(ts: seq<Turn>, t: Turn, p: int)
    ensures GapWalk(ts + [t], p).pauses
         == GapWalk(ts, p).pauses
            + (if t.start > GapWalk(ts, p).prevEnd then [Interval(GapWalk(ts, p).prevEnd, t.start)] else [])
    ensures GapWalk(ts + [t], p).prevEnd == Max(GapWalk(ts, p).prevEnd, t.end)
    decreases |ts|
  {
    if ts == [] {
      assert ([] + [t])[1..] == [];
    } else {
      assert (ts + [t])[0] == ts[0];
      assert (ts + [t])[1..] == ts[1..] + [t];
      GapWalkStep(ts[1..], t, Max(p, ts[0].end));
    }
  }

  /** `prev_end` is the running maximum: it never decreases, bounds every end
      seen, and is either its initial value or one of those ends. */
  lemma {:induction false} GapWalkRunningMax(ts: seq<Turn>, p: int)
    ensures forall i :: 0 <= i < |ts| ==> ts[i].end <= GapWalk(ts, p).prevEnd
    ensures GapWalk(ts, p).prevEnd == p || exists i :: 0 <= i < |ts| && GapWalk(ts, p).prevEnd == ts[i].end
    decreases |ts|
  {
    if ts != [] {
      var q := Max(p, ts[0].end);
      GapWalkRunningMax(ts[1..], q);
      var e := GapWalk(ts, p).prevEnd;
      assert e == GapWalk(ts[1..], q).prevEnd;
      forall i | 0 <= i < |ts| ensures ts[i].end <= e {
        if i > 0 {
          assert ts[i] == ts[1..][i - 1];
        }
      }
      if e != q {
        var i :| 0 <= i < |ts[1..]| && e == ts[1..][i].end;
        assert ts[i + 1] == ts[1..][i];
      }
    }
  }

  /** A detection that ends inside an earlier one (a turn nested in
      another) reopens no gap and leaves `prev_end` where it was. */
  lemma NestedTurnAddsNothing(ts: seq<Turn>, t: Turn, p: int, i: nat)
    requires i < |ts| && t.start <= t.end <= ts[i].end
    ensures GapWalk(ts + [t], p) == GapWalk(ts, p)
  {
    GapWalkRunningMax(ts, p);
    GapWalkStep(ts, t, p);
  }

  /** For well-formed detections, the pauses are non-empty, ordered and
      disjoint, and all end by the final `prev_end`. */
  lemma {:induction false} GapWalkAscending(ts: seq<Turn>, p: int)
    requires WellFormed(ts)
    ensures Ascending(GapWalk(ts, p).pauses)
    ensures forall k :: 0 <= k < |GapWalk(ts, p).pauses| ==> GapWalk(ts, p).pauses[k].end <= GapWalk(ts, p).prevEnd
    decreases |ts|
  {
    if ts != [] {
      var t := ts[0];
      var q := Max(p, t.end);
      GapWalkAscending(ts[1..], q);
      var rest := GapWalk(ts[1..], q);
      if t.start > p {
        AscendingCons(Interval(p, t.start), rest.pauses, q, rest.prevEnd);
      }
    }
  }

  /** A non-empty pause that ends by `q` extends ordered pauses that start
      at `q` or later, and the bound `e` on their ends still holds. */
  lemma AscendingCons(x: Interval, ps: seq<Interval>, q: int, e: int)
    requires Ascending(ps) && x.start < x.end <= q <= e
    requires forall k :: 0 <= k < |ps| ==> q <= ps[k].start && ps[k].end <= e
    ensures Ascending([x] + ps)
    ensures forall k :: 0 <= k < |[x] + ps| ==> ([x] + ps)[k].end <= e
  {
    var w := [x] + ps;
    forall k, m | 0 <= k < m < |w| ensures w[k].end <= w[m].start {
      if k > 0 {
        assert w[k] == ps[k - 1];
      }
      assert w[m] == ps[m - 1];
    }
    forall k | 0 <= k < |w| ensures w[k].end <= e {
      if k > 0 {
        assert w[k] == ps[k - 1];
      }
    }
  }

  /** For detections sorted by start, no pause shares an instant with any
      detection. */
  lemma {:induction false} GapWalkAvoidsTurns(ts: seq<Turn>, p: int)
    requires SortedByStart(ts)
    ensures forall k, i :: 0 <= k < |GapWalk(ts, p).pauses| && 0 <= i < |ts| ==> Apart(GapWalk(ts, p).pauses[k], ts[i])
    decreases |ts|
  {
    if ts != [] {
      var t := ts[0];
      var q := Max(p, t.end);
      GapWalkAvoidsTurns(ts[1..], q);
      var rest := GapWalk(ts[1..], q);
      var w := GapWalk(ts, p);
      var g := if t.start > p then [Interval(p, t.start)] else [];
      assert w.pauses == g + rest.pauses;
      forall k, i | 0 <= k < |w.pauses| && 0 <= i < |ts| ensures Apart(w.pauses[k], ts[i]) {
        if k < |g| {
          assert w.pauses[k] == Interval(p, t.start);
        } else {
          assert w.pauses[k] == rest.pauses[k - |g|];
          if i > 0 {
            assert ts[i] == ts[1..][i - 1];
          }
        }
      }
    }
  }

  /** Every instant from the initial `prev_end` up to the final one lies in a
      detection or in an emitted pause. */
  lemma {:induction false} GapWalkCovers(ts: seq<Turn>, p: int)
    ensures forall x :: p <= x < GapWalk(ts, p).prevEnd ==> InTurn(ts, x) || InPause(GapWalk(ts, p).pauses, x)
    decreases |ts|
  {
    if ts != [] {
      var t := ts[0];
      var q := Max(p, t.end);
      GapWalkCovers(ts[1..], q);
      var rest := GapWalk(ts[1..], q);
      var w := GapWalk(ts, p);
      var g := if t.start > p then [Interval(p, t.start)] else [];
      assert w.pauses == g + rest.pauses;
      forall x | p <= x < w.prevEnd ensures InTurn(ts, x) || InPause(w.pauses, x) {
        if x < q {
          if x < t.start {
            assert w.pauses[0].start <= x < w.pauses[0].end;
          } else {
            assert ts[0].start <= x < ts[0].end;
          }
        } else if InTurn(ts[1..], x) {
          var i :| 0 <= i < |ts[1..]| && ts[1..][i].start <= x < ts[1..][i].end;
          assert ts[i + 1] == ts[1..][i];
        } else {
          var k :| 0 <= k < |rest.pauses| && rest.pauses[k].start <= x < rest.pauses[k].end;
          assert w.pauses[k + |g|] == rest.pauses[k];
        }
      }
    }
  }

  // ---------------------------------------------------------------------
  // The trailing pause
  // ---------------------------------------------------------------------

  /** `round(audio_duration, 2)` in centiseconds, rounding half up. */
  function RoundCs(samples: nat): nat
  {
    (samples + SamplesPerCs / 2) / SamplesPerCs
  }

  /** Lines 66-67 as written: the test compares `prev_end` with the exact
      duration, but the pause is written with the rounded one. */
  function TrailingPauseAsWritten(prevEnd: int, samples: nat): seq<Interval>
  {
    if prevEnd * SamplesPerCs < samples then [Interval(prevEnd, RoundCs(samples))] else []
  }

  /** A detection ending at 5.00 s in a 5.004 s recording gets a trailing
      pause that starts and ends at 5.00 s. */
  lemma TrailingPauseAsWrittenCanBeEmpty()
    ensures TrailingPauseAsWritten(500, 80064) == [Interval(500, 500)]
  {
  }

  /** The trailing pause, compared against the duration it is written with:
      present exactly when the speech ends before the recording does. */
  function TrailingPause(prevEnd: int, durationCs: int): (r: seq<Interval>)
    ensures r != [] <==> prevEnd < durationCs
    ensures forall k :: 0 <= k < |r| ==> r[k] == Interval(prevEnd, durationCs) && r[k].start < r[k].end
  {
    if prevEnd < durationCs then [Interval(prevEnd, durationCs)] else []
  }

  /** When the duration is a whole number of centiseconds the two versions agree. */
  lemma TrailingPauseAgreesOnWholeCentiseconds(prevEnd: int, samples: nat)
    requires samples % SamplesPerCs == 0
    ensures TrailingPauseAsWritten(prevEnd, samples) == TrailingPause(prevEnd, RoundCs(samples))
  {
    assert RoundCs(samples) * SamplesPerCs == samples;
  }

  /** All pauses of a sorted detection list: the inner gaps, then the trailing pause. */
  function FindPauses(sorted: seq<Turn>, durationCs: int): seq<Interval>
  {
    var w := GapWalk(sorted, 0);
    w.pauses + TrailingPause(w.prevEnd, durationCs)
  }

  /** How far the partition reaches: the end of the last speech or of the
      audio, whichever is later. */
  function Horizon(sorted: seq<Turn>, durationCs: int): int
  {
    Max(GapWalk(sorted, 0).prevEnd, durationCs)
  }

  /** The pauses of well-formed detections are ordered, disjoint and non-empty. */
  lemma FindPausesAscending(sorted: seq<Turn>, durationCs: int)
    requires WellFormed(sorted)
    ensures Ascending(FindPauses(sorted, durationCs))
  {
    var w := GapWalk(sorted, 0);
    var tr := TrailingPause(w.prevEnd, durationCs);
    var ps := FindPauses(sorted, durationCs);
    GapWalkAscending(sorted, 0);
    forall k, m | 0 <= k < m < |ps| ensures ps[k].end <= ps[m].start {
      if m >= |w.pauses| {
        assert ps[m] == tr[m - |w.pauses|];
        if k < |w.pauses| {
          assert ps[k] == w.pauses[k];
        }
      } else {
        assert ps[k] == w.pauses[k] && ps[m] == w.pauses[m];
      }
    }
    forall k | 0 <= k < |ps| ensures ps[k].start < ps[k].end {
      if k >= |w.pauses| {
        assert ps[k] == tr[k - |w.pauses|];
      } else {
        assert ps[k] == w.pauses[k];
      }
    }
  }

  /** No pause of detections sorted by start shares an instant with a detection. */
  lemma FindPausesApart(sorted: seq<Turn>, durationCs: int)
    requires SortedByStart(sorted)
    ensures forall k, i :: 0 <= k < |FindPauses(sorted, durationCs)| && 0 <= i < |sorted|
              ==> Apart(FindPauses(sorted, durationCs)[k], sorted[i])
  {
    var w := GapWalk(sorted, 0);
    var tr := TrailingPause(w.prevEnd, durationCs);
    var ps := FindPauses(sorted, durationCs);
    GapWalkAvoidsTurns(sorted, 0);
    GapWalkRunningMax(sorted, 0);
    forall k, i | 0 <= k < |ps| && 0 <= i < |sorted| ensures Apart(ps[k], sorted[i]) {
      if k >= |w.pauses| {
        assert ps[k] == tr[k - |w.pauses|];
        assert sorted[i].end <= w.prevEnd;
      } else {
        assert ps[k] == w.pauses[k];
      }
    }
  }

  /** Detections and pauses together cover every instant from 0 to the horizon. */
  lemma FindPausesCover(sorted: seq<Turn>, durationCs: int)
    ensures forall x :: 0 <= x < Horizon(sorted, durationCs)
              ==> InTurn(sorted, x) || InPause(FindPauses(sorted, durationCs), x)
  {
    var w := GapWalk(sorted, 0);
    var tr := TrailingPause(w.prevEnd, durationCs);
    var ps := FindPauses(sorted, durationCs);
    GapWalkCovers(sorted, 0);
    forall x | 0 <= x < Horizon(sorted, durationCs) ensures InTurn(sorted, x) || InPause(ps, x) {
      if x < w.prevEnd {
        if InPause(w.pauses, x) {
          var k :| 0 <= k < |w.pauses| && w.pauses[k].start <= x < w.pauses[k].end;
          assert ps[k] == w.pauses[k];
        }
      } else {
        assert ps[|w.pauses|] == tr[0];
      }
    }
  }

  // ---------------------------------------------------------------------
  // Per-speaker grouping and the speaker data dictionary
  // ---------------------------------------------------------------------

  /** The spans a speaker was detected in, in detection order: the
      reference for the grouping. */
  function OwnTurns(ts: seq<Turn>, who: string): seq<Interval>
  {
    if ts == [] then []
    else OwnTurns(ts[..|ts| - 1], who)
         + (if ts[|ts| - 1].speaker == who then [Interval(ts[|ts| - 1].start, ts[|ts| - 1].end)] else [])
  }

  /** Lines 49-54: `speaker_segments[speaker].append(...)` for every detection in turn. */
  function GroupBySpeaker(ts: seq<Turn>): map<string, seq<Interval>>
  {
    if ts == [] then map[]
    else
      var g := GroupBySpeaker(ts[..|ts| - 1]);
      var t := ts[|ts| - 1];
      g[t.speaker := (if t.speaker in g then g[t.speaker] else []) + [Interval(t.start, t.end)]]
  }

  /** The grouping has one key per detected speaker, and each speaker keeps
      exactly its own spans, in detection order, none merged. */
  lemma {:induction false} GroupBySpeakerIsOwnTurns(ts: seq<Turn>)
    ensures forall l :: l in GroupBySpeaker(ts) <==> exists i :: 0 <= i < |ts| && ts[i].speaker == l
    ensures forall l :: l in GroupBySpeaker(ts) ==> GroupBySpeaker(ts)[l] == OwnTurns(ts, l)
    ensures forall l :: l !in GroupBySpeaker(ts) ==> OwnTurns(ts, l) == []
    decreases |ts|
  {
    if ts != [] {
      var init := ts[..|ts| - 1];
      GroupBySpeakerIsOwnTurns(init);
      forall l ensures l in GroupBySpeaker(ts) <==> exists i :: 0 <= i < |ts| && ts[i].speaker == l {
        if exists i :: 0 <= i < |init| && init[i].speaker == l {
          var i :| 0 <= i < |init| && init[i].speaker == l;
          assert ts[i] == init[i];
        }
        if exists i :: 0 <= i < |ts| && ts[i].speaker == l {
          var i :| 0 <= i < |ts| && ts[i].speaker == l;
          if i < |init| {
            assert init[i] == ts[i];
          }
        }
      }
    }
  }

  function SpeakerKey(who: string): string
  {
    "speaker_" + who
  }

  lemma SpeakerKeysDistinct()
    ensures forall a, b :: SpeakerKey(a) == SpeakerKey(b) ==> a == b
    ensures forall who :: SpeakerKey(who) != PauseKey
  {
    forall a, b | SpeakerKey(a) == SpeakerKey(b) ensures a == b {
      assert a == SpeakerKey(a)[8..];
      assert b == SpeakerKey(b)[8..];
    }
    forall who ensures SpeakerKey(who) != PauseKey {
      assert SpeakerKey(who)[0] == 's';
    }
  }

  /** The speaker entries of `speaker_data`, one `speaker_<label>` key per group. */
  function SpeakerEntries(g: map<string, seq<Interval>>): (m: map<string, SpeakerEntry>)
    ensures forall who :: SpeakerKey(who) in m <==> who in g
    ensures forall who :: who in g ==> m[SpeakerKey(who)] == Segments(g[who])
    ensures forall k :: k in m ==> exists who :: who in g && k == SpeakerKey(who)
    ensures PauseKey !in m
  {
    SpeakerKeysDistinct();
    map who | who in g :: SpeakerKey(who) := Segments(g[who])
  }

  /** The pauses written to `speaker_data`: those of the sorted detections
      over the rounded audio duration. */
  function PausesOf(detections: seq<Turn>, samples: nat): seq<Interval>
  {
    FindPauses(SortTurns(detections), RoundCs(samples))
  }

  /** `speaker_data`: one `speaker_<label>` entry per speaker holding its
      spans, plus the `pause_segments` entry. The embedding and duration
      fields are not modelled. */
  function Diarize(detections: seq<Turn>, samples: nat): (d: map<string, SpeakerEntry>)
    ensures PauseKey in d && d[PauseKey] == PauseSegments(PausesOf(detections, samples))
    ensures forall who :: SpeakerKey(who) in d <==> exists i :: 0 <= i < |detections| && detections[i].speaker == who
    ensures forall who :: SpeakerKey(who) in d ==> d[SpeakerKey(who)] == Segments(OwnTurns(detections, who))
    ensures forall k :: k in d ==> k == PauseKey || exists who :: k == SpeakerKey(who)
  {
    var g := GroupBySpeaker(detections);
    var m := SpeakerEntries(g);
    GroupBySpeakerIsOwnTurns(detections);
    SpeakerKeysDistinct();
    m[PauseKey := PauseSegments(PausesOf(detections, samples))]
  }

  /** Sorting well-formed detections keeps them well-formed. */
  lemma SortedWellFormed(detections: seq<Turn>)
    requires WellFormed(detections)
    ensures WellFormed(SortTurns(detections)) && SortedByStart(SortTurns(detections))
  {
    var sorted := SortTurns(detections);
    SortedMembers(detections);
    SortedTurnsByStart(sorted);
    forall i | 0 <= i < |sorted| ensures sorted[i].start <= sorted[i].end {
      var j :| 0 <= j < |detections| && detections[j] == sorted[i];
    }
  }

  /** The `pause_segments` of well-formed detections are ordered, disjoint and
      non-empty, and none shares an instant with any detection. */
  lemma DiarizePausesApart(detections: seq<Turn>, samples: nat)
    requires WellFormed(detections)
    ensures Ascending(PausesOf(detections, samples))
    ensures forall k, i :: 0 <= k < |PausesOf(detections, samples)| && 0 <= i < |detections|
              ==> Apart(PausesOf(detections, samples)[k], detections[i])
  {
    var sorted := SortTurns(detections);
    var ps := PausesOf(detections, samples);
    SortedWellFormed(detections);
    SortedMembers(detections);
    FindPausesAscending(sorted, RoundCs(samples));
    FindPausesApart(sorted, RoundCs(samples));
    forall k, i | 0 <= k < |ps| && 0 <= i < |detections| ensures Apart(ps[k], detections[i]) {
      var j :| 0 <= j < |sorted| && sorted[j] == detections[i];
    }
  }

  /** Detections and `pause_segments` leave no instant from 0 to the horizon
      uncovered. */
  lemma DiarizeCovers(detections: seq<Turn>, samples: nat)
    ensures forall x :: 0 <= x < Horizon(SortTurns(detections), RoundCs(samples))
              ==> InTurn(detections, x) || InPause(PausesOf(detections, samples), x)
  {
    var sorted := SortTurns(detections);
    var ps := PausesOf(detections, samples);
    SortedMembers(detections);
    FindPausesCover(sorted, RoundCs(samples));
    forall x | 0 <= x < Horizon(sorted, RoundCs(samples)) ensures InTurn(detections, x) || InPause(ps, x) {
      if InTurn(sorted, x) {
        var i :| 0 <= i < |sorted| && sorted[i].start <= x < sorted[i].end;
        var j :| 0 <= j < |detections| && detections[j] == sorted[i];
      }
    }
  }

  /** The horizon reaches the end of every detection and of the audio, and
      goes no further than the later of those. */
  lemma HorizonBounds(detections: seq<Turn>, samples: nat)
    ensures forall i :: 0 <= i < |detections| ==> detections[i].end <= Horizon(SortTurns(detections), RoundCs(samples))
    ensures RoundCs(samples) <= Horizon(SortTurns(detections), RoundCs(samples))
    ensures Horizon(SortTurns(detections), RoundCs(samples)) == RoundCs(samples)
         || Horizon(SortTurns(detections), RoundCs(samples)) == 0
         || exists i :: 0 <= i < |detections| && Horizon(SortTurns(detections), RoundCs(samples)) == detections[i].end
  {
    var sorted := SortTurns(detections);
    SortedMembers(detections);
    GapWalkRunningMax(sorted, 0);
    forall i | 0 <= i < |detections| ensures detections[i].end <= GapWalk(sorted, 0).prevEnd {
      var j :| 0 <= j < |sorted| && sorted[j] == detections[i];
    }
    var e := GapWalk(sorted, 0).prevEnd;
    if e != 0 {
      var j :| 0 <= j < |sorted| && e == sorted[j].end;
      assert sorted[j] in detections;
      var i :| 0 <= i < |detections| && detections[i] == sorted[j];
    }
  }

  /** Two speakers back to back over 0-4 s of a 5 s recording: the touching
      boundary at 2 s gives no pause, the tail 4-5 s is one. */
  lemma BackToBackTurns()
    ensures PausesOf([Turn(0, 200, "A"), Turn(200, 400, "B")], 80000) == [Interval(400, 500)]
  {
    var a, b := Turn(0, 200, "A"), Turn(200, 400, "B");
    var ts := [a, b];
    assert ts[1..] == [b];
    assert [b][1..] == [];
    assert SortTurns([b]) == InsertTurn(b, []) == [b];
    assert TurnLe(a, b);
    assert SortTurns(ts) == InsertTurn(a, [b]) == ts;
    assert GapWalk([b], 200) == Walked([], 400);
    assert GapWalk(ts, 0) == Walked([], 400);
    assert RoundCs(80000) == 500;
  }
}
