# A model of the dubbing pipeline's deterministic core

The dubbing pipeline takes a video and produces a dubbed soundtrack. It
diarizes the speech and finds the pauses between speakers. Each segment is
translated, and the translation's words are aligned to spans of the source.
Source prosody is mapped onto the target words, a voice is picked for
synthesis, and the speech clips and silent pauses are joined back in time
order. Subtitles are cut from the translation, and figurative phrases are
rewritten literally with the help of a small knowledge base.

The neural and acoustic models are not part of this model. Each of them is
an opaque parameter (an "oracle"):

- the diarization detections;
- the loudness of a stretch of audio;
- the sentence-embedding similarity;
- difflib's similarity ratio;
- the language model's answers.

What is modelled is the logic around those oracles, as pure functions over
integer times and strings:

| Dafny module | file | models |
|---|---|---|
| `Results`, `Strings` | results.dfy, strings.dfy | `Option`/`Result`, and the Python string operations the core uses: `strip`, `split`, `join`, ASCII `lower`, `in`, `startswith`, `replace`, string comparison, `str(int)` |
| `Diarization` | diarization.dfy | `diarize_and_extract_speakers`: per-speaker grouping, sorting the detections, the pause walk, the trailing pause, the speaker-data dictionary |
| `PauseDetection` | pauses.dfy | `pause_identification`: the hybrid gap walk with a minimum length and a loudness test |
| `Aligner` | aligner.dfy | `align_sentences`: greedy alignment of source segments to free spans of one to four target tokens |
| `Prosody` | prosody.dfy | `map_target_to_prosodic_features` |
| `Pipeline` | pipeline.dfy | `get_language_code` and `LANGUAGE_MAP`; the pause-clip, stable-sort and concatenate tail of `complete_pipeline` |
| `Subtitles` | subtitles.dfy | `format_time` and `generate_srt_entries_from_text` |
| `Voices` | voices.dfy | the speaker choice and voice description of `generate_tts_audio` |
| `Phrases` | phrases.dfy | phrase detection, rewriting from the knowledge base, fence clean-up, learning a phrase, `process_text` |

Units differ by module:

- **Diarization and pauses:** times are integer centiseconds, because the source rounds every time to two decimals. The audio duration is a count of 16 kHz samples.
- **Reassembly and subtitles:** times are integer milliseconds. An audio clip is one frame per millisecond.

Two places where the code's behaviour is easy to misread:

- **Aligner tie-break.** The code enumerates spans by start and then by end, and replaces the best score only on a strictly greater one. So a tie goes to the earliest start, then to the shortest span. The model, and `Aligner.AlignOneIsBest`, follow the code.
- **Trailing pause and `format_time`.** Both do something other than what they are evidently meant to do; see "Findings". Each is modelled as written and as intended, and the rest of the model uses the intended version.

## Model

| member | source | states |
|---|---|---|
| Strings.StripEmptyIffAllSpace | modules/generation/aligner.py:21 | `not s.strip()` holds exactly when every character of `s` is whitespace |
| Strings.Split | modules/generation/aligner.py:24 | every piece `str.split()` yields is a non-empty run without whitespace |
| Strings.StripEnds | modules/text_analysis/phrase_swapping.py:120 | a stripped string is empty or has non-whitespace at both ends, and every character of it comes from the original |
| Strings.StripAround | modules/text_analysis/phrase_swapping.py:120 | whitespace around a string with non-whitespace ends is exactly what `strip` removes |
| Strings.SplitJoin | modules/generation/aligner.py:58 | splitting the space-join of words gives back exactly those words |
| Strings.ContainsAfter | modules/text_analysis/phrase_swapping.py:75 | a substring stays a substring whatever is put in front |
| Strings.ReplaceAbsent | modules/text_analysis/phrase_swapping.py:97 | `str.replace` of a non-empty pattern that does not occur returns the string unchanged |
| Strings.ReplaceBySelf | modules/text_analysis/phrase_swapping.py:97 | replacing a pattern by itself returns the string unchanged, also for an empty pattern |
| Strings.StrLeTotal | modules/audio_analysis/diarization.py:56 | Python's string order relates any two strings |
| Strings.StrLeTransitive | modules/audio_analysis/diarization.py:56 | Python's string order is transitive |
| Strings.StrLeAntisymmetric | modules/audio_analysis/diarization.py:56 | two strings ordered both ways are equal |
| Strings.NatToStringRoundTrip | modules/generation/speech_synthesizer.py:144 | the decimal digits printed for a number read back as that number |
| Diarization.TurnLeTotal | modules/audio_analysis/diarization.py:56 | any two `(start, end, speaker)` tuples are ordered one way or the other |
| Diarization.TurnLeTransitive | modules/audio_analysis/diarization.py:56 | the tuple order is transitive |
| Diarization.InsertTurn | modules/audio_analysis/diarization.py:56 | inserting into a sorted list keeps it sorted and adds exactly that detection |
| Diarization.SortTurns | modules/audio_analysis/diarization.py:56 | `all_segments.sort()` yields a tuple-ordered permutation of the detections |
| Diarization.SortedTurnsByStart | modules/audio_analysis/diarization.py:56 | a tuple-sorted list is sorted by start |
| Diarization.SortedMembers | modules/audio_analysis/diarization.py:56 | sorting loses and invents no detection |
| Diarization.GapWalk | modules/audio_analysis/diarization.py:58-64 | `prev_end` never decreases, and every pause is non-empty and starts no earlier than the initial `prev_end` |
| Diarization.GapWalkStep | modules/audio_analysis/diarization.py:61-64 | one more detection adds the pause `[prev_end, start)` exactly when it starts after `prev_end`, and `prev_end` becomes the larger of the two ends |
| Diarization.GapWalkRunningMax | modules/audio_analysis/diarization.py:64 | `prev_end` ends up as the running maximum of the ends: no detection ends after it, and it is an end or the start value |
| Diarization.NestedTurnAddsNothing | modules/audio_analysis/diarization.py:61-64 | a detection nested inside an earlier one adds no pause and leaves `prev_end` as it was |
| Diarization.GapWalkAscending | modules/audio_analysis/diarization.py:59-64 | the inner pauses are non-empty, ordered and pairwise disjoint, and they end by `prev_end` |
| Diarization.AscendingCons | modules/audio_analysis/diarization.py:61-63 | a pause written before all later pauses, and ending by the next `prev_end`, keeps the list non-empty, ordered and disjoint |
| Diarization.GapWalkAvoidsTurns | modules/audio_analysis/diarization.py:59-64 | for detections sorted by start, no pause overlaps any detection |
| Diarization.GapWalkCovers | modules/audio_analysis/diarization.py:59-64 | every instant up to the final `prev_end` lies in a detection or in a pause |
| Diarization.TrailingPauseAsWrittenCanBeEmpty | modules/audio_analysis/diarization.py:66-67 | as written, speech ending at 5.00 s in a 5.004 s recording gets the empty pause `[5.00, 5.00]` |
| Diarization.TrailingPause | modules/audio_analysis/diarization.py:66-67 | a trailing pause `[prev_end, duration]` exists exactly when `prev_end < duration`, and it is non-empty |
| Diarization.TrailingPauseAgreesOnWholeCentiseconds | modules/audio_analysis/diarization.py:66-67 | when the duration is a whole number of centiseconds, the as-written and corrected trailing pauses coincide |
| Diarization.FindPausesAscending | modules/audio_analysis/diarization.py:58-67 | all pauses, trailing one included, are non-empty, ordered and pairwise disjoint |
| Diarization.FindPausesApart | modules/audio_analysis/diarization.py:58-67 | no pause, trailing one included, overlaps a detection |
| Diarization.FindPausesCover | modules/audio_analysis/diarization.py:58-67 | detections and pauses together cover `[0, max(prev_end, duration))` without a gap |
| Diarization.GroupBySpeakerIsOwnTurns | modules/audio_analysis/diarization.py:49-54 | one group per detected speaker, each holding exactly that speaker's spans in detection order, none merged |
| Diarization.SpeakerKeysDistinct | modules/audio_analysis/diarization.py:76 | different speakers get different `speaker_<label>` keys, and none of them is `pause_segments` |
| Diarization.SpeakerEntries | modules/audio_analysis/diarization.py:76-91 | one `speaker_<label>` entry per group, holding that group's spans, and no `pause_segments` key |
| Diarization.Diarize | modules/audio_analysis/diarization.py:44-93 | the result has a `pause_segments` entry, plus a `speaker_<label>` entry for exactly the detected speakers, each holding its own spans; there is no other key |
| Diarization.SortedWellFormed | modules/audio_analysis/diarization.py:56 | sorting keeps detections well formed and orders them by start |
| Diarization.DiarizePausesApart | modules/audio_analysis/diarization.py:56-67 | the pauses written are ordered, disjoint and non-empty, and none overlaps any detection in input order |
| Diarization.DiarizeCovers | modules/audio_analysis/diarization.py:56-67 | detections and pauses cover the timeline from 0 to the later of the last speech and the audio end |
| Diarization.HorizonBounds | modules/audio_analysis/diarization.py:64-67 | the covered horizon reaches every detection's end and the audio's end, and it is one of them |
| Diarization.BackToBackTurns | modules/audio_analysis/diarization.py:61 | touching detections give no pause between them; only the trailing one remains |
| PauseDetection.HybridWalk | modules/audio_analysis/extract_pauses.py:11-17 | a kept gap lasts at least `min_pause_len` and is quieter than -35 dBFS; `prev_end` advances exactly as in the plain walk, kept or not |
| PauseDetection.HybridIsSubsequence | modules/audio_analysis/extract_pauses.py:11-17 | for a positive minimum length, the hybrid pauses are a subsequence of the plain walk's pauses |
| PauseDetection.HybridIsFiltered | modules/audio_analysis/extract_pauses.py:11-17 | for a positive minimum length, the hybrid pauses are exactly the plain walk's pauses that last at least `min_pause_len` and are quieter than -35 dBFS, in order; no other gap is kept and no long quiet gap is dropped |
| PauseDetection.EmbedsAscending | modules/audio_analysis/extract_pauses.py:11-17 | a subsequence of ordered disjoint pauses is itself ordered and disjoint |
| PauseDetection.HybridPausesApart | modules/audio_analysis/extract_pauses.py:11-17 | the hybrid pauses are non-empty, ordered and disjoint without re-sorting; for input sorted by start, none overlaps a segment |
| PauseDetection.HybridPausesEndAtSegments | modules/audio_analysis/extract_pauses.py:12-16 | every hybrid pause ends where some segment starts, so none trails the last segment |
| PauseDetection.NoTrailingPause | modules/audio_analysis/extract_pauses.py:11-19 | after the last segment the hybrid walk adds nothing, where the diarization walk adds the trailing pause |
| Aligner.Indices | modules/generation/aligner.py:46-64 | `range(start, end)` as a set holds exactly the indices from start up to end |
| Aligner.SpansAtSound | modules/generation/aligner.py:45-47 | the inner loop yields free spans of one to four tokens, inside the target, from the given start, in enumeration order |
| Aligner.CandidatesFromSound | modules/generation/aligner.py:44-47 | the nested loops yield free, in-range spans in enumeration order |
| Aligner.CandidatesSound | modules/generation/aligner.py:44-47 | every candidate is free and in range, and the candidates come start-major, then by end |
| Aligner.SpansAtComplete | modules/generation/aligner.py:45-47 | every free, in-range span from the start is enumerated by the inner loop |
| Aligner.CandidatesFromComplete | modules/generation/aligner.py:44-47 | every free, in-range span is enumerated by the loops |
| Aligner.CandidatesExactly | modules/generation/aligner.py:44-47 | a span is a candidate exactly when it has one to four tokens inside the target and avoids the used indices |
| Aligner.BestIsFirstMax | modules/generation/aligner.py:41-54 | the strict `>` keeps the first maximum score; when the best score stays at -1, nothing is chosen |
| Aligner.OrderedPositions | modules/generation/aligner.py:44-45 | in the enumeration, earlier position means earlier span |
| Aligner.BestSpanIsFirstMax | modules/generation/aligner.py:41-54 | the chosen span scores the maximum over all free spans, and every free span enumerated before it scores strictly less |
| Aligner.AlignOne | modules/generation/aligner.py:35-56 | a span is accepted only for a segment with tokens, and only a free, in-range span |
| Aligner.AlignOneIsBest | modules/generation/aligner.py:41-56 | an accepted span reaches the threshold and scores the maximum; ties go to the earliest start, then to the shortest span |
| Aligner.AlignOneAccepts | modules/generation/aligner.py:56 | an accepted span's score reaches the threshold |
| Aligner.AlignOneRejects | modules/generation/aligner.py:35-56 | a segment is rejected exactly when it is blank, or every free span scores below the threshold or at most -1 |
| Aligner.GreedyChooses | modules/generation/aligner.py:44-56 | the per-segment choice only picks free, in-range spans that reach the threshold |
| Aligner.AlignFromOrdered | modules/generation/aligner.py:34-59 | alignments come in source-segment order |
| Aligner.AlignFromRecord | modules/generation/aligner.py:57-63 | each record carries its segment, the space-joined tokens of its span, and the span's score |
| Aligner.AlignFromPicked | modules/generation/aligner.py:44-64 | the `k`-th recorded span is what the chooser picks for its segment against the starting indices plus exactly the indices of the `k` spans recorded before it |
| Aligner.AlignFromDecides | modules/generation/aligner.py:34-64 | for every segment `j`, with `c` records for earlier segments, the chooser's pick against the indices of those `c` spans is `None` exactly when `j` has no record, and otherwise is the span of `j`'s record, which is the `c`-th |
| Aligner.AlignFromFree | modules/generation/aligner.py:46-47 | every recorded span avoids the indices used before the loop |
| Aligner.FreeOfTaken | modules/generation/aligner.py:46-64 | a span free of a taken span's indices does not overlap it |
| Aligner.ConsDisjoint | modules/generation/aligner.py:64 | a span disjoint from all of a pairwise-disjoint list extends it to a pairwise-disjoint list |
| Aligner.AlignFromAllFree | modules/generation/aligner.py:46-47 | all recorded spans avoid the indices used before the loop |
| Aligner.AlignFromDisjoint | modules/generation/aligner.py:46-64 | no two alignments share a target index |
| Aligner.CoveredMembers | modules/generation/aligner.py:64 | an index is covered exactly when some recorded span contains it |
| Aligner.AlignFromUsed | modules/generation/aligner.py:56-64 | the indices used after the loop are the old ones plus exactly those of the accepted spans, so a rejected segment consumes nothing |
| Aligner.AlignSentencesEmpty | modules/generation/aligner.py:21-26 | no source segments, or a blank target, gives no alignments |
| Aligner.AlignSentencesShape | modules/generation/aligner.py:9-66 | at most one alignment per segment, in source order, over pairwise-disjoint spans of one to four target tokens |
| Aligner.AlignSentencesRecord | modules/generation/aligner.py:35-63 | each alignment names a non-blank segment, the space-joined tokens of its span, and that span's score for the segment |
| Aligner.AlignSentencesPicked | modules/generation/aligner.py:41-64 | the `k`-th alignment's span is `align_one`'s best span for its segment against exactly the indices of the `k` alignments before it, and its score reaches the threshold |
| Aligner.AlignSentencesDecides | modules/generation/aligner.py:34-64 | for every source segment, the best span against the indices already taken is `None` exactly when the segment gets no alignment, and otherwise is the span of its alignment |
| Aligner.IndicesCard | modules/generation/aligner.py:64 | `range(start, end)` holds `end - start` indices |
| Aligner.SubsetCard | modules/generation/aligner.py:64 | a subset is no larger than its superset |
| Aligner.DisjointFromCovered | modules/generation/aligner.py:64 | a span disjoint from every recorded span shares no index with their union |
| Aligner.CoveredCard | modules/generation/aligner.py:64 | pairwise-disjoint non-empty spans cover at least as many indices as there are spans |
| Aligner.SpansCount | modules/generation/aligner.py:64 | pairwise-disjoint non-empty spans inside `n` tokens number at most `n` |
| Aligner.AlignSentencesCount | modules/generation/aligner.py:24-64 | there are never more alignments than target tokens |
| Prosody.TargetToSourceKeys | modules/generation/prosody_mapper.py:20 | a target is a key exactly when some alignment has it |
| Prosody.TargetToSourceLastWins | modules/generation/prosody_mapper.py:20 | a duplicated target maps to the source of its last alignment |
| Prosody.FeatureMapKeys | modules/generation/prosody_mapper.py:23-26 | a source word is a key exactly when some feature entry has it |
| Prosody.FeatureMapLastWins | modules/generation/prosody_mapper.py:23-26 | a duplicated source word keeps the pitch and loudness of its last entry |
| Prosody.MapWords | modules/generation/prosody_mapper.py:17-38 | one record per target token, in order, carrying the token, speed 1.15, and the looked-up pitch and loudness |
| Prosody.MapProsodyFeature | modules/generation/prosody_mapper.py:20-35 | a token takes the features of the last entry for the source of the last alignment targeting exactly that token |
| Prosody.MapProsodyDefaults | modules/generation/prosody_mapper.py:31-32 | a token with no alignment, or whose source word has no features, gets pitch shift 0 and gain 0 |
| Prosody.LastTargetOf | modules/generation/prosody_mapper.py:20 | a target that occurs has a last occurrence |
| Prosody.WordTargets | modules/generation/prosody_mapper.py:20-31 | the kept alignments all target single tokens |
| Prosody.WordTargetsLookup | modules/generation/prosody_mapper.py:20-31 | for a single token, the lookup is the same with or without the multi-word alignments |
| Prosody.MultiWordTargetsIgnored | modules/generation/prosody_mapper.py:20-31 | alignments whose target spans several words never affect any record |
| Pipeline.LanguageKeysAreTable | app/routes/pipeline.py:14-37 | the key list given to `get_close_matches` is exactly the table's keys |
| Pipeline.OdiaSpellings | app/routes/pipeline.py:25-26 | both spellings of Odia give the code `or` |
| Pipeline.Closest | app/routes/pipeline.py:37 | a fuzzy match is one of the keys and reaches the 0.6 cutoff |
| Pipeline.ClosestIsLargest | app/routes/pipeline.py:37-38 | there is a match exactly when some key reaches the cutoff, and the match has the largest `(ratio, key)` among those that do |
| Pipeline.LanguageCodeExact | app/routes/pipeline.py:32-34 | an input that strips and lower-cases to a table key gets that key's code, whatever the fuzzy ratio |
| Pipeline.LanguageCodeOutcome | app/routes/pipeline.py:31-41 | every code returned is a value of the table; the error names the normalised input and happens exactly when no key is equal or close enough |
| Pipeline.LanguageCodeFuzzy | app/routes/pipeline.py:37-39 | a fuzzy result is the code of the key with the largest `(ratio, key)` reaching the cutoff |
| Pipeline.LanguageCodeExample | app/routes/pipeline.py:32-34 | `" Hindi\n"` resolves to `hi` |
| Pipeline.NormaliseExample | app/routes/pipeline.py:32 | `" Hindi\n"` normalises to `hindi` |
| Pipeline.PausePiece | app/routes/pipeline.py:80-86 | a pause clip starts at the pause's start in ms and lasts `end_ms - start_ms`, or nothing when that is not positive |
| Pipeline.InsertPieceSorted | app/routes/pipeline.py:89 | inserting into a start-sorted list keeps it sorted and adds exactly that clip |
| Pipeline.InsertPieceContents | app/routes/pipeline.py:89 | insertion adds exactly one clip and loses none |
| Pipeline.InsertPieceBound | app/routes/pipeline.py:89 | insertion keeps every start above a common lower bound |
| Pipeline.InsertPieceOrdered | app/routes/pipeline.py:89 | insertion keeps a list sorted by start |
| Pipeline.SortPiecesSorted | app/routes/pipeline.py:89 | sorting by start yields a start-ordered permutation of the clips |
| Pipeline.SortPiecesOrdered | app/routes/pipeline.py:89 | the sorted clips ascend by start |
| Pipeline.StartingAtAppend | app/routes/pipeline.py:76-86 | the clips with a given start in two appended lists are those of the first, then those of the second |
| Pipeline.StartingAtInsert | app/routes/pipeline.py:89 | insertion puts a clip after every clip with the same start |
| Pipeline.StartingAtAfter | app/routes/pipeline.py:89 | a sorted list has no clip starting before its first |
| Pipeline.SortPiecesStable | app/routes/pipeline.py:89 | the sort is stable: clips with equal start keep their append order |
| Pipeline.ConcatLength | app/routes/pipeline.py:92-94 | the concatenation lasts the sum of the clip durations |
| Pipeline.TotalMsAppend | app/routes/pipeline.py:92-94 | total duration adds up over appended lists |
| Pipeline.TotalMsInsert | app/routes/pipeline.py:89 | insertion adds the inserted clip's duration |
| Pipeline.TotalMsSort | app/routes/pipeline.py:89 | sorting keeps the total duration |
| Pipeline.PausePiecesTotal | app/routes/pipeline.py:80-86 | the pause clips together last the pauses' clipped durations |
| Pipeline.ReassembleLength | app/routes/pipeline.py:79-94 | the final audio lasts the speech clips' total plus each pause's `end_ms - start_ms` |
| Pipeline.ReassembleOrder | app/routes/pipeline.py:76-94 | the final order ascends by start, is a permutation of all clips, and puts speech before pauses at equal starts |
| Subtitles.ZeroPad | modules/generation/subtitle_generation.py:6 | `zfill` prepends just enough zeros to reach the width, and never shortens |
| Subtitles.ReplaceChar | modules/generation/subtitle_generation.py:6 | `replace('.', ',')` changes each dot to a comma and nothing else |
| Subtitles.Parts | modules/generation/subtitle_generation.py:5 | `timedelta` minutes and seconds are below 60 and milliseconds below 1000 |
| Subtitles.PartsTotal | modules/generation/subtitle_generation.py:5 | hours, minutes, seconds and milliseconds add back up to the duration |
| Subtitles.FieldsAt | modules/generation/subtitle_generation.py:6 | an `HH:MM:SS,mmm` text has its separators at fixed distances from the end |
| Subtitles.PadValue | modules/generation/subtitle_generation.py:6 | a zero-padded number reads back as that number |
| Subtitles.ClockFields | modules/generation/subtitle_generation.py:6 | the intended timestamp consists of digit fields of widths at least 2, 2, 2, 3 |
| Subtitles.ClockRoundTrip | modules/generation/subtitle_generation.py:4-6 | reading back an `HH:MM:SS,mmm` timestamp gives its duration |
| Subtitles.NegativeRoundTrip | modules/generation/subtitle_generation.py:4-6 | a minus sign in front reads back as the negated duration |
| Subtitles.PositiveRoundTrip | modules/generation/subtitle_generation.py:4-6 | an unsigned timestamp reads back as its duration |
| Subtitles.FormatTimeRoundTrip | modules/generation/subtitle_generation.py:4-6 | the intended timestamp of every millisecond count reads back as that count |
| Subtitles.FormatTimeInjective | modules/generation/subtitle_generation.py:4-6 | different times get different intended timestamps |
| Subtitles.FormatTimeWidth | modules/generation/subtitle_generation.py:4-6 | below 100 hours the intended timestamp is exactly 12 characters |
| Subtitles.MicrosPad | modules/generation/subtitle_generation.py:5-6 | the six-digit microseconds of whole milliseconds are the three millisecond digits followed by `000` |
| Subtitles.ZFillHours | modules/generation/subtitle_generation.py:6 | `zfill(12)` widens a one-digit hour field to two digits and changes nothing else |
| Subtitles.ReformatFraction | modules/generation/subtitle_generation.py:6 | with a fraction present, the slice, replace and zero-fill give `HH:MM:SS,mmm` |
| Subtitles.ReformatWhole | modules/generation/subtitle_generation.py:6 | without a fraction, the `[:-3]` slice cuts off `:SS` instead |
| Subtitles.ReformatWithMillis | modules/generation/subtitle_generation.py:4-6 | as written, a time with a non-zero millisecond part prints as the intended timestamp |
| Subtitles.ReformatWholeSecond | modules/generation/subtitle_generation.py:4-6 | as written, a whole-second time prints only hours and minutes, zero-filled to 12 |
| Subtitles.FormatTimeAgrees | modules/generation/subtitle_generation.py:4-6 | within a day and off whole seconds, `format_time` as written prints the intended timestamp |
| Subtitles.FormatTimeDropsSeconds | modules/generation/subtitle_generation.py:4-6 | within a day and on whole seconds, `format_time` as written loses the seconds and differs from the intended timestamp |
| Subtitles.FiveSecondsAsWritten | modules/generation/subtitle_generation.py:4-6 | as written, 5000 ms prints as `000000000:00` |
| Subtitles.FiveSecondsIntended | modules/generation/subtitle_generation.py:4-6 | the intended timestamp of 5000 ms is `00:00:05,000` |
| Subtitles.Chunks | modules/generation/subtitle_generation.py:20 | chunks are non-empty, hold at most the maximum, all but the last are full, and there are none exactly when there are no words |
| Subtitles.ChunksFlatten | modules/generation/subtitle_generation.py:20 | the chunks, joined back in order, are the word list |
| Subtitles.ChunksCount | modules/generation/subtitle_generation.py:20 | the number of chunks is the word count divided by the maximum, rounded up |
| Subtitles.Boundaries | modules/generation/subtitle_generation.py:23-42 | the boundaries run from `start_ms` and, when there is a chunk, end exactly at `end_ms` |
| Subtitles.Timeline | modules/generation/subtitle_generation.py:25-42 | one line per chunk, numbered consecutively and holding its chunk; the first starts at `start_ms`, each starts where the previous ended, and the last ends at `end_ms` |
| Subtitles.BoundaryStep | modules/generation/subtitle_generation.py:27-42 | every chunk but the last advances the clock by exactly its share |
| Subtitles.TimelineShares | modules/generation/subtitle_generation.py:27-28 | every line but the last lasts its share of the word count |
| Subtitles.ShareStep | modules/generation/subtitle_generation.py:17-27 | a chunk's truncated share fits in the remaining time and leaves enough for the remaining words |
| Subtitles.ConsOrdered | modules/generation/subtitle_generation.py:28-42 | a boundary below an ordered list of later boundaries extends the order |
| Subtitles.BoundariesOrdered | modules/generation/subtitle_generation.py:17-32 | boundaries never decrease and never leave `[start_ms, end_ms]` |
| Subtitles.TimelineBounded | modules/generation/subtitle_generation.py:25-42 | no line leaves the segment's span, and no line ends before it starts |
| Subtitles.CuesEmpty | modules/generation/subtitle_generation.py:13-20 | there are no lines exactly when there are no words, the span is empty or backwards, or the step is negative |
| Subtitles.CuesWords | modules/generation/subtitle_generation.py:20-38 | lines are numbered 1..n, each holds at most the maximum, all but the last are full, and together they hold the words in order |
| Subtitles.CuesContiguous | modules/generation/subtitle_generation.py:23-42 | the first line starts at `start_ms`, each starts where the previous ended, and the last ends at `end_ms` |
| Subtitles.CuesShares | modules/generation/subtitle_generation.py:17-27 | every line but the last lasts `int(len(chunk) * total / words)` |
| Subtitles.CuesWithin | modules/generation/subtitle_generation.py:17-32 | no boundary leaves `[start_ms, end_ms]` |
| Subtitles.SpanWithin | modules/generation/subtitle_generation.py:17-32 | the boundaries of a positive span stay within it |
| Subtitles.Entry | modules/generation/subtitle_generation.py:34-39 | an entry's timestamps read back as its line's start and end |
| Subtitles.SrtEntries | modules/generation/subtitle_generation.py:8-44 | the function fails exactly when the step is 0 and there are words and a positive span; otherwise one entry per line, with its number, its space-joined words, and timestamps that read back as its boundaries |
| Voices.Matching | modules/generation/speech_synthesizer.py:131 | the gender-matched names are exactly the names of available speakers of that gender, compared ignoring case |
| Voices.OffersCons | modules/generation/speech_synthesizer.py:131 | a name is offered by a list exactly when its head offers it or its tail does |
| Voices.MatchingIgnoresCase | modules/generation/speech_synthesizer.py:131 | the matched list does not depend on the case of the requested gender |
| Voices.Preferred | modules/generation/speech_synthesizer.py:136 | the preferred names are exactly the recommended names that match, in recommended order |
| Voices.Candidates | modules/generation/speech_synthesizer.py:125-138 | an unknown language is an error; otherwise it is an error exactly when nobody has the gender; the names drawn from all have the gender; all are recommended when any recommended speaker has it, and otherwise every speaker of the gender is among them |
| Voices.ChooseSpeaker | modules/generation/speech_synthesizer.py:125-138 | the errors as above; the chosen speaker has the requested gender, and is a recommended one whenever a recommended speaker has it |
| Voices.ChooseFromRecommended | modules/generation/speech_synthesizer.py:136-138 | every recommended speaker of the gender can be the one drawn |
| Voices.ChooseFromMatched | modules/generation/speech_synthesizer.py:131-138 | when no recommended speaker has the gender, every speaker of the gender can be the one drawn |
| Voices.Description | modules/generation/speech_synthesizer.py:141-145 | the description opens with the chosen name and contains the lower-cased gender, sentiment and emotion, the seconds and the language |
| Voices.SelectVoice | modules/generation/speech_synthesizer.py:125-145 | either one of the two errors, or a speaker of the gender with a description opening with its name and naming the gender and language |
| Phrases.FirstMatch | modules/text_analysis/phrase_swapping.py:74-95 | the position of the first entry whose phrase occurs in the text ignoring case, or none exactly when no entry's does |
| Phrases.Detect | modules/text_analysis/phrase_swapping.py:69-85 | "Yes" whenever a stored phrase occurs in the text ignoring case; otherwise the model's answer |
| Phrases.DbRewrite | modules/text_analysis/phrase_swapping.py:93-97 | the knowledge base answers exactly when some phrase occurs ignoring case, and then replaces every case-sensitive occurrence of the first such phrase by its meaning |
| Phrases.CaseOnlyMatch | modules/text_analysis/phrase_swapping.py:95-97 | a phrase found only in another case leaves the statement unchanged |
| Phrases.DetectedRewrittenFromDb | modules/text_analysis/phrase_swapping.py:74-97 | a text that detection finds in the knowledge base is rewritten from it |
| Phrases.RemoveFences | modules/text_analysis/phrase_swapping.py:122 | removing fences never lengthens the text |
| Phrases.RemoveFencesPlain | modules/text_analysis/phrase_swapping.py:122 | a text without backticks is left as it is |
| Phrases.FencedBody | modules/text_analysis/phrase_swapping.py:122 | a body fenced as JSON comes back as the body |
| Phrases.RemoveFencesTail | modules/text_analysis/phrase_swapping.py:122 | a closing fence after a plain body is removed |
| Phrases.NoFenceAt | modules/text_analysis/phrase_swapping.py:122 | a character other than a backtick is kept |
| Phrases.RemoveFencesPrefix | modules/text_analysis/phrase_swapping.py:122 | text without backticks in front of anything is kept, and the rest is cleaned on its own |
| Phrases.RemoveFencesSplit | modules/text_analysis/phrase_swapping.py:122 | a JSON fence, or a bare fence not followed by `json`, after backtick-free text is cut out and nothing else |
| Phrases.CleanResponse | modules/text_analysis/phrase_swapping.py:120-122 | the cleaned answer is empty or has non-whitespace at both ends |
| Phrases.CleanPlain | modules/text_analysis/phrase_swapping.py:120-122 | an answer without backticks is only stripped |
| Phrases.CleanFenced | modules/text_analysis/phrase_swapping.py:120-122 | an answer whose stripped form opens with a fence has its fences removed and is stripped again |
| Phrases.CleanFencedAnswer | modules/text_analysis/phrase_swapping.py:120-122 | a JSON code block with whitespace around it cleans to its stripped body |
| Phrases.Learn | modules/text_analysis/phrase_swapping.py:141-154 | at most one entry is appended and none changed; one is added exactly when phrase and meaning are non-empty and no stored phrase equals the phrase ignoring case; the type defaults to "N/A"; no phrase is ever stored twice |
| Phrases.Rewrite | modules/text_analysis/phrase_swapping.py:89-156 | a statement mentioning a stored phrase gets every occurrence of the first such phrase replaced by its meaning, and the knowledge base is unchanged; a statement mentioning none gets the model's rewrite, and the knowledge base learns the identified phrase as `Learn` says |
| Phrases.ProcessText | modules/text_analysis/phrase_swapping.py:74-176 | empty input gives the error text and changes nothing; a text mentioning a stored phrase is rewritten from the first such entry without consulting the model, and the knowledge base is unchanged; a text mentioning none comes back unchanged unless the model says "Yes", and then the model's rewrite is returned and the identified phrase is learned as `Learn` says |
| Phrases.ProcessKeepsDistinct | modules/text_analysis/phrase_swapping.py:149-150 | processing never stores a phrase twice ignoring case, and never drops or changes an entry |

## Left out

- The models themselves are oracles or inputs: pyannote diarization, the resemblyzer voice encoder, sentence embeddings, the speech synthesizer, and the language model. Speaker embeddings and per-speaker durations in the speaker data are not modelled.
- Audio and file I/O are left out: reading and writing WAV files, the temporary and final file names, the JSON dump of the speaker data, and loading and saving the phrase knowledge base. The knowledge base is a value passed in and handed back.
- The language-model retry and back-off is left out (modules/text_analysis/phrase_swapping.py:38-65). Its answer, including the "Error" returned once retries run out, is an oracle.
- Parsing the identification answer is left out: JSON parsing and the regular-expression fallback (modules/text_analysis/phrase_swapping.py:124-138). The three values it yields are given as `Option`s.
- Floating-point arithmetic is replaced by exact integers:
  - `round(x, 2)` on times becomes integer centiseconds. `Diarization.RoundCs` rounds the audio duration half up, where Python rounds the nearest binary float.
  - `int(x * 1000)` becomes a multiplication by 10 on centiseconds.
  - `avg_word_duration` and `int(count * avg)` become floor division on exact integers.
- `PauseDetection.HybridWalk`: gap lengths are exact differences of centiseconds, where the source subtracts binary floats. So a gap at the minimum length can be rejected by the source and kept by the model: `0.47 - 0.17` is `0.29999999999999993`, below a minimum of `0.3`.
- `PauseDetection.HybridIsFiltered` covers a positive `min_pause_len` only. With a zero or negative minimum, an empty or backwards gap can pass the length test, and the plain walk never yields such a gap.
- `Pipeline.PausePiece`: a pause's millisecond bounds are ten times its centiseconds, where the source takes `int(x * 1000)` of a binary float. That can be one millisecond lower: `int(2.01 * 1000)` is `2009`, where the model gives `2010`.
- `PauseDetection.HybridWalk`: the loudness test `gap_audio.dBFS < -35` is an oracle of the gap's two ends. The source slices the audio at `int(prev_end * 1000)` and `int(start * 1000)`; that slicing is not modelled.
- `Aligner.AlignSentencesRecord`: the stored similarity is the oracle's score itself, not `round(best_score, 4)`.
- Cosine similarity and mean embeddings are not modelled. The score depends only on the segment's tokens and the span's tokens, through the oracle `sim`.
- The `print` calls are left out.
- Lower-casing covers ASCII letters only. Python's `str.lower` also maps other alphabets.
- The per-segment walk of `complete_pipeline` is not modelled (app/routes/pipeline.py:43-76). It calls `.items()` on the tuple that `diarize_and_extract_speakers` returns. It also reads `['segments']` from the `pause_segments` list, so it cannot run as written. Only the reassembly rule is modelled. The speech clips are an input to `Pipeline.Reassemble`, in the order they were appended.
- `Diarization.Diarize`: the speaker data is a Dafny `map`, which has no order. The source's dictionary keeps insertion order: speakers in first-detection order, then `pause_segments` (modules/audio_analysis/diarization.py:72-93). The model keeps the keys and contents but not that order.
- `Voices.Candidates`: a language whose table entry is an empty dictionary is also rejected by `if not lang_info` in the source. The model's table entries always have both lists, so that case does not arise.
- `Subtitles.CuesOf` requires a non-zero `max_words_per_line`, because `range` raises for a step of zero. `Subtitles.SrtEntries` carries that error as `ZeroStep`, after the early return for no words or an empty span.
- `Subtitles.SrtEntries`: the intended timestamp prints the hours as one number. From 24 hours on, the source's `str(timedelta)` prints days instead, e.g. `1 day, 0:00:00,500`. A negative time prints as `-1 day, 23:59:59,999`. Neither form is modelled; both are outside the intended `HH:MM:SS,mmm` format (see "Findings").
- `Subtitles.FormatTimeWidth` covers times below 100 hours. Beyond that the hour field is wider and the timestamp longer, as in the source.
- Some source files are not part of this model: the commented-out emotion-based gain and speed code in speech_synthesizer.py, closest_speaker.py, the preprocessing and scene-analysis modules, the route handlers other than the pipeline, and the acoustic feature extractors.

## Findings

| source | as written | input that shows it | evidently intended | confidence | as-written member | corrected member |
|---|---|---|---|---|---|---|
| modules/audio_analysis/diarization.py:66-67 | the test `prev_end < audio_duration` uses the exact duration, but the pause is written with `round(audio_duration, 2)` | speech ending at 5.00 s in a recording of 80064 samples (5.004 s) gives the pause `[5.00, 5.00]`, which is empty | a trailing pause only when speech ends before the written duration, so every pause is non-empty | not executed | Diarization.TrailingPauseAsWrittenCanBeEmpty | Diarization.TrailingPause |
| modules/generation/subtitle_generation.py:4-6 | `str(timedelta)[:-3]` assumes a `.ffffff` fraction, but `timedelta` prints none for a whole number of seconds | `format_time(5000)` gives `000000000:00` | `00:00:05,000`, a timestamp that reads back as the time it prints | not executed | Subtitles.FiveSecondsAsWritten | Subtitles.FormatTimeRoundTrip |
