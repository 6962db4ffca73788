/**
  The prosody mapper (`map_target_to_prosodic_features` in
  modules/generation/prosody_mapper.py): one record per whitespace token of
  the target sentence, carrying the pitch and loudness of the source word the
  token was aligned to, or zeros.

  Pitch and loudness are opaque numbers that are only copied, so they are
  `real`s here.
 */
module Prosody {
  import opened Results
  import opened Strings
  import opened Aligner

  /** Every record is spoken at this speed. */
  const Speed: real := 1.15

  /** One entry of the source feature list. */
  datatype WordFeature = WordFeature(word: string, pitch: real, loudness: real)

  /** The pitch and loudness kept for a source word. */
  datatype Feature = Feature(pitch: real, loudness: real)

  /** One entry of the result. */
  datatype ProsodyRecord = ProsodyRecord(word: string, pitchShift: real, gain: real, speed: real)

  /** The feature used when a token has no alignment or its source word no features. */
  const NoFeature := Feature(0.0, 0.0)

  /** `{entry["target"]: entry["source"] for entry in alignments}`: a later
      entry with the same target overwrites an earlier one. */
  function TargetToSource(als: seq<Alignment>): map<string, string>
  {
    if als == [] then map[]
    else TargetToSource(als[..|als| - 1])[als[|als| - 1].target := als[|als| - 1].source]
  }

  /** `{item["word"]: {...} for item in source_features}`, last entry winning. */
  function FeatureMap(fs: seq<WordFeature>): map<string, Feature>
  {
    if fs == [] then map[]
    else FeatureMap(fs[..|fs| - 1])[fs[|fs| - 1].word := Feature(fs[|fs| - 1].pitch, fs[|fs| - 1].loudness)]
  }

  /** Position `k` is the last entry of `als` whose target is `t`. */
  predicate LastTarget(als: seq<Alignment>, t: string, k: nat)
  {
    k < |als| && als[k].target == t && forall j :: k < j < |als| ==> als[j].target != t
  }

  /** Position `k` is the last entry of `fs` for the word `w`. */
  predicate LastWord(fs: seq<WordFeature>, w: string, k: nat)
  {
    k < |fs| && fs[k].word == w && forall j :: k < j < |fs| ==> fs[j].word != w
  }

  /** A target is mapped exactly when some entry has it. */
  lemma {:induction false} TargetToSourceKeys(als: seq<Alignment>, t: string)
    ensures t in TargetToSource(als) <==> exists k :: 0 <= k < |als| && als[k].target == t
    decreases |als|
  {
    if als != [] {
      var init := als[..|als| - 1];
      TargetToSourceKeys(init, t);
      if t in TargetToSource(als) && als[|als| - 1].target != t {
        var k :| 0 <= k < |init| && init[k].target == t;
        assert als[k] == init[k];
      }
      if exists k :: 0 <= k < |als| && als[k].target == t {
        var k :| 0 <= k < |als| && als[k].target == t;
        if k < |init| {
          assert init[k] == als[k];
        }
      }
    }
  }

  /** A target maps to the source of the last entry that has it. */
  lemma {:induction false} TargetToSourceLastWins(als: seq<Alignment>, t: string, k: nat)
    requires LastTarget(als, t, k)
    ensures t in TargetToSource(als) && TargetToSource(als)[t] == als[k].source
    decreases |als|
  {
    if k < |als| - 1 {
      var init := als[..|als| - 1];
      assert LastTarget(init, t, k);
      TargetToSourceLastWins(init, t, k);
    }
  }

  /** A source word is mapped exactly when some entry has it. */
  lemma {:induction false} FeatureMapKeys(fs: seq<WordFeature>, w: string)
    ensures w in FeatureMap(fs) <==> exists k :: 0 <= k < |fs| && fs[k].word == w
    decreases |fs|
  {
    if fs != [] {
      var init := fs[..|fs| - 1];
      FeatureMapKeys(init, w);
      if w in FeatureMap(fs) && fs[|fs| - 1].word != w {
        var k :| 0 <= k < |init| && init[k].word == w;
        assert fs[k] == init[k];
      }
      if exists k :: 0 <= k < |fs| && fs[k].word == w {
        var k :| 0 <= k < |fs| && fs[k].word == w;
        if k < |init| {
          assert init[k] == fs[k];
        }
      }
    }
  }

  /** A source word maps to the features of the last entry that has it. */
  lemma {:induction false} FeatureMapLastWins(fs: seq<WordFeature>, w: string, k: nat)
    requires LastWord(fs, w, k)
    ensures w in FeatureMap(fs) && FeatureMap(fs)[w] == Feature(fs[k].pitch, fs[k].loudness)
    decreases |fs|
  {
    if k < |fs| - 1 {
      var init := fs[..|fs| - 1];
      assert LastWord(init, w, k);
      FeatureMapLastWins(init, w, k);
    }
  }

  /** The lookups of the loop body: `target_to_source.get(target)`, then
      `source_feature_map.get(source_word, zeros)`; a missing source word
      (`None`) is never a key, so it also gives zeros. */
  function FeatureOf(tts: map<string, string>, fm: map<string, Feature>, w: string): Feature
  {
    if w in tts && tts[w] in fm then fm[tts[w]] else NoFeature
  }

  /** The loop over the target words. */
  function MapWords(words: seq<string>, tts: map<string, string>, fm: map<string, Feature>): (r: seq<ProsodyRecord>)
    ensures |r| == |words|
    ensures forall i :: 0 <= i < |words| ==>
              && r[i].word == words[i]
              && r[i].speed == Speed
              && Feature(r[i].pitchShift, r[i].gain) == FeatureOf(tts, fm, words[i])
  {
    if words == [] then []
    else
      var f := FeatureOf(tts, fm, words[0]);
      [ProsodyRecord(words[0], f.pitch, f.loudness, Speed)] + MapWords(words[1..], tts, fm)
  }

  /** `map_target_to_prosodic_features`; `alignments` is `None` when the
      alignment object has no "alignments" key. */
  function MapProsody(alignments: Option<seq<Alignment>>, features: seq<WordFeature>, target: string): (r: seq<ProsodyRecord>)
  {
    MapWords(Split(target), TargetToSource(alignments.GetOr([])), FeatureMap(features))
  }

  /** A token takes the pitch and loudness of the last feature entry for the
      source of the last alignment whose target is exactly that token. */
  lemma MapProsodyFeature(als: seq<Alignment>, features: seq<WordFeature>, target: string, i: nat, k: nat, f: nat)
    requires i < |Split(target)|
    requires LastTarget(als, Split(target)[i], k)
    requires LastWord(features, als[k].source, f)
    ensures var r := MapProsody(Some(als), features, target);
            r[i].pitchShift == features[f].pitch && r[i].gain == features[f].loudness
  {
    TargetToSourceLastWins(als, Split(target)[i], k);
    FeatureMapLastWins(features, als[k].source, f);
  }

  /** A token no alignment targets, or whose source word has no features,
      gets pitch shift 0 and gain 0. */
  lemma MapProsodyDefaults(alignments: Option<seq<Alignment>>, features: seq<WordFeature>, target: string, i: nat)
    requires i < |Split(target)|
    requires var als := alignments.GetOr([]);
             || (forall k :: 0 <= k < |als| ==> als[k].target != Split(target)[i])
             || (forall k: nat, f :: LastTarget(als, Split(target)[i], k) && 0 <= f < |features| ==> features[f].word != als[k].source)
    ensures MapProsody(alignments, features, target)[i].pitchShift == 0.0
    ensures MapProsody(alignments, features, target)[i].gain == 0.0
  {
    var als := alignments.GetOr([]);
    var w := Split(target)[i];
    TargetToSourceKeys(als, w);
    var tts := TargetToSource(als);
    if w in tts {
      var k := LastTargetOf(als, w);
      TargetToSourceLastWins(als, w, k);
      FeatureMapKeys(features, als[k].source);
    }
  }

  /** The last position whose target is `t`, when there is one. */
  lemma LastTargetOf(als: seq<Alignment>, t: string) returns (k: nat)
    requires exists j :: 0 <= j < |als| && als[j].target == t
    ensures LastTarget(als, t, k)
  {
    var j :| 0 <= j < |als| && als[j].target == t;
    k := j;
    while k + 1 < |als| && exists m :: k < m < |als| && als[m].target == t
      invariant j <= k < |als| && als[k].target == t
      decreases |als| - k
    {
      var m :| k < m < |als| && als[m].target == t;
      k := m;
    }
  }

  /** The alignments whose target is a single token. */
  function WordTargets(als: seq<Alignment>): (r: seq<Alignment>)
    ensures forall k :: 0 <= k < |r| ==> IsWord(r[k].target)
  {
    if als == [] then []
    else
      var init := WordTargets(als[..|als| - 1]);
      if IsWord(als[|als| - 1].target) then init + [als[|als| - 1]] else init
  }

  lemma {:induction false} WordTargetsLookup(als: seq<Alignment>, w: string)
    requires IsWord(w)
    ensures (w in TargetToSource(als)) == (w in TargetToSource(WordTargets(als)))
    ensures w in TargetToSource(als) ==> TargetToSource(als)[w] == TargetToSource(WordTargets(als))[w]
    decreases |als|
  {
    if als != [] {
      var last := als[|als| - 1];
      var init := als[..|als| - 1];
      WordTargetsLookup(init, w);
      if IsWord(last.target) {
        var r := WordTargets(init) + [last];
        assert r[..|r| - 1] == WordTargets(init);
      }
    }
  }

  /** Lookup is by exact token: an alignment whose target spans several
      words (it holds whitespace) never affects any record, so dropping
      every such alignment changes nothing. */
  lemma MultiWordTargetsIgnored(als: seq<Alignment>, features: seq<WordFeature>, target: string)
    ensures MapProsody(Some(als), features, target) == MapProsody(Some(WordTargets(als)), features, target)
  {
    var words := Split(target);
    var a := MapProsody(Some(als), features, target);
    var b := MapProsody(Some(WordTargets(als)), features, target);
    forall i | 0 <= i < |words| ensures a[i] == b[i] {
      WordTargetsLookup(als, words[i]);
    }
  }
}
