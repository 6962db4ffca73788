/**
  Speaker selection and the voice description of `generate_tts_audio`
  (modules/generation/speech_synthesizer.py, lines 125-145): look the
  language up in the speaker table, keep the speakers of the requested
  gender (ignoring case), prefer the recommended ones among them, pick one
  at random and describe the voice for the synthesis model.

  The speaker table (`speakers.json`) is a parameter; `random.choice` is a
  nondeterministic choice; the synthesis model itself is not part of this
  model.
 */
module Voices {
  import opened Results
  import opened Strings

  /** One entry of a language's "available" list. */
  datatype Speaker = Speaker(name: string, gender: string)

  /** The table entry of one language. */
  datatype LanguageInfo = LanguageInfo(available: seq<Speaker>, recommended: seq<string>)

  /** The two `ValueError`s raised before synthesis starts. */
  datatype VoiceError =
    | LanguageNotFound(language: string)
    | NoSpeakerForGender(language: string, gender: string)

  /** `sp["gender"].lower() == gender.lower()`. */
  predicate HasGender(sp: Speaker, gender: string)
  {
    Lower(sp.gender) == Lower(gender)
  }

  /** Some speaker of the list is called `name` and has the gender. */
  predicate Offers(available: seq<Speaker>, name: string, gender: string)
  {
    exists k :: 0 <= k < |available| && available[k].name == name && HasGender(available[k], gender)
  }

  /** `gender_matched_speakers`: the names of the speakers of the gender, in
      list order. */
  function Matching(available: seq<Speaker>, gender: string): (r: seq<string>)
    ensures |r| <= |available|
    ensures forall n :: n in r <==> Offers(available, n, gender)
  {
    if available == [] then []
    else
      var rest := Matching(available[1..], gender);
      OffersCons(available, gender);
      if HasGender(available[0], gender) then [available[0].name] + rest else rest
  }

  lemma OffersCons(available: seq<Speaker>, gender: string)
    requires available != []
    ensures forall n :: Offers(available, n, gender) <==>
              (available[0].name == n && HasGender(available[0], gender)) || Offers(available[1..], n, gender)
  {
    forall n | Offers(available, n, gender) && !(available[0].name == n && HasGender(available[0], gender))
      ensures Offers(available[1..], n, gender)
    {
      var k :| 0 <= k < |available| && available[k].name == n && HasGender(available[k], gender);
      assert available[1..][k - 1] == available[k];
    }
    forall n | Offers(available[1..], n, gender) ensures Offers(available, n, gender) {
      var k :| 0 <= k < |available[1..]| && available[1..][k].name == n && HasGender(available[1..][k], gender);
      assert available[k + 1] == available[1..][k];
    }
  }

  /** The list does not depend on the case of the requested gender. */
  lemma {:induction false} MatchingIgnoresCase(available: seq<Speaker>, g1: string, g2: string)
    requires Lower(g1) == Lower(g2)
    ensures Matching(available, g1) == Matching(available, g2)
    decreases |available|
  {
    if available != [] {
      MatchingIgnoresCase(available[1..], g1, g2);
    }
  }

  /** `a` is `b` with some elements left out, the rest in order. */
  predicate Subsequence(a: seq<string>, b: seq<string>)
    decreases |b|
  {
    a == [] || (b != [] && if a[0] == b[0] then Subsequence(a[1..], b[1..]) else Subsequence(a, b[1..]))
  }

  /** `recommended_gender_speakers`: the recommended names that match, in
      recommended order (repeats kept). */
  function Preferred(recommended: seq<string>, matched: seq<string>): (r: seq<string>)
    ensures forall n :: n in r <==> n in recommended && n in matched
    ensures Subsequence(r, recommended)
  {
    if recommended == [] then []
    else
      var rest := Preferred(recommended[1..], matched);
      if recommended[0] in matched then
        assert ([recommended[0]] + rest)[1..] == rest;
        [recommended[0]] + rest
      else
        rest
  }

  /** What `random.choice` draws from: the preferred names when there are
      any, else every name of the gender; an error for an unknown language
      or a gender nobody has. */
  function Candidates(table: map<string, LanguageInfo>, language: string, gender: string): (r: Result<seq<string>, VoiceError>)
    ensures language !in table ==> r == Err(LanguageNotFound(language))
    ensures language in table ==>
              var info := table[language];
              && (r.Err? <==> forall n :: !Offers(info.available, n, gender))
              && (r.Err? ==> r == Err(NoSpeakerForGender(language, gender)))
              && (r.Ok? ==> r.value != [] && forall n :: n in r.value ==> Offers(info.available, n, gender))
              && (r.Ok? && (exists n :: n in info.recommended && Offers(info.available, n, gender)) ==>
                    forall n :: n in r.value ==> n in info.recommended)
              && (r.Ok? && !(exists n :: n in info.recommended && Offers(info.available, n, gender)) ==>
                    forall n :: Offers(info.available, n, gender) ==> n in r.value)
  {
    if language !in table then Err(LanguageNotFound(language))
    else
      var info := table[language];
      var matched := Matching(info.available, gender);
      if matched == [] then Err(NoSpeakerForGender(language, gender))
      else
        assert matched[0] in matched;
        var preferred := Preferred(info.recommended, matched);
        assert preferred != [] ==> preferred[0] in preferred;
        Ok(if preferred != [] then preferred else matched)
  }

  /** The speaker chosen for a synthesis: one of the candidates, picked
      without any rule. */
  method ChooseSpeaker(table: map<string, LanguageInfo>, language: string, gender: string) returns (r: Result<string, VoiceError>)
    ensures language !in table ==> r == Err(LanguageNotFound(language))
    ensures language in table && (forall n :: !Offers(table[language].available, n, gender)) ==>
              r == Err(NoSpeakerForGender(language, gender))
    ensures r.Ok? ==> language in table && Offers(table[language].available, r.value, gender)
    ensures r.Ok? && (exists n :: n in table[language].recommended && Offers(table[language].available, n, gender)) ==>
              r.value in table[language].recommended
    ensures r.Ok? <==> Candidates(table, language, gender).Ok?
  {
    var c := Candidates(table, language, gender);
    match c {
      case Err(e) =>
        r := Err(e);
      case Ok(names) =>
        assert names[0] in names;
        var name :| name in names;
        r := Ok(name);
    }
  }

  /** A recommended speaker of the gender can always be the one chosen. */
  lemma ChooseFromRecommended(table: map<string, LanguageInfo>, language: string, gender: string, name: string)
    requires language in table
    requires name in table[language].recommended && Offers(table[language].available, name, gender)
    ensures Candidates(table, language, gender).Ok?
    ensures name in Candidates(table, language, gender).value
  {
  }

  /** When no recommended speaker has the gender, every speaker of the
      gender can be the one chosen. */
  lemma ChooseFromMatched(table: map<string, LanguageInfo>, language: string, gender: string, name: string)
    requires language in table
    requires forall n :: n in table[language].recommended ==> !Offers(table[language].available, n, gender)
    requires Offers(table[language].available, name, gender)
    ensures Candidates(table, language, gender).Ok?
    ensures name in Candidates(table, language, gender).value
  {
  }

  /** The fixed pieces of the description, in order. */
  const Article := ", a "
  const SpeakerDelivers := " speaker, delivers a "
  const And := " and "
  const RecordingIs := " speech with natural pitch and pacing. The recording is "
  const SecondsLong := " seconds long, clear and high-quality, in "
  const FullStop := "."

  /** The text prompt describing the voice. */
  function Description(speaker: string, gender: string, sentiment: string, emotion: string, secs: int, language: string): (r: string)
    ensures StartsWith(r, speaker + Article)
    ensures Contains(r, Lower(gender)) && Contains(r, Lower(sentiment)) && Contains(r, Lower(emotion))
    ensures Contains(r, IntToString(secs)) && Contains(r, language)
  {
    var g, s, e, n := Lower(gender), Lower(sentiment), Lower(emotion), IntToString(secs);
    var t5 := SecondsLong + (language + FullStop);
    var t4 := RecordingIs + (n + t5);
    var t3 := And + (e + t4);
    var t2 := SpeakerDelivers + (s + t3);
    var p1 := speaker + Article;
    StartsWithConcat(language, FullStop);
    ContainsAfter(SecondsLong, language + FullStop, language);
    StartsWithConcat(n, t5);
    ContainsAfter(RecordingIs, n + t5, n);
    ContainsAfter(n, t5, language);
    ContainsAfter(RecordingIs, n + t5, language);
    StartsWithConcat(e, t4);
    ContainsAfter(e, t4, n);
    ContainsAfter(e, t4, language);
    ContainsAfter(And, e + t4, e);
    ContainsAfter(And, e + t4, n);
    ContainsAfter(And, e + t4, language);
    StartsWithConcat(s, t3);
    ContainsAfter(s, t3, e);
    ContainsAfter(s, t3, n);
    ContainsAfter(s, t3, language);
    ContainsAfter(SpeakerDelivers, s + t3, s);
    ContainsAfter(SpeakerDelivers, s + t3, e);
    ContainsAfter(SpeakerDelivers, s + t3, n);
    ContainsAfter(SpeakerDelivers, s + t3, language);
    StartsWithConcat(g, t2);
    ContainsAfter(g, t2, s);
    ContainsAfter(g, t2, e);
    ContainsAfter(g, t2, n);
    ContainsAfter(g, t2, language);
    ContainsAfter(p1, g + t2, g);
    ContainsAfter(p1, g + t2, s);
    ContainsAfter(p1, g + t2, e);
    ContainsAfter(p1, g + t2, n);
    ContainsAfter(p1, g + t2, language);
    StartsWithConcat(p1, g + t2);
    p1 + (g + t2)
  }

  /** The selection and description together. */
  datatype VoicePrompt = VoicePrompt(speaker: string, description: string)

  method SelectVoice(table: map<string, LanguageInfo>, secs: int, sentiment: string, emotion: string, language: string, gender: string)
    returns (r: Result<VoicePrompt, VoiceError>)
    ensures language !in table ==> r == Err(LanguageNotFound(language))
    ensures r.Ok? ==> language in table && Offers(table[language].available, r.value.speaker, gender)
    ensures r.Ok? ==> StartsWith(r.value.description, r.value.speaker + Article)
    ensures r.Ok? ==> Contains(r.value.description, Lower(gender)) && Contains(r.value.description, language)
    ensures r.Err? <==> Candidates(table, language, gender).Err?
  {
    var choice := ChooseSpeaker(table, language, gender);
    match choice {
      case Err(e) =>
        r := Err(e);
      case Ok(name) =>
        r := Ok(VoicePrompt(name, Description(name, gender, sentiment, emotion, secs, language)));
    }
  }
}
