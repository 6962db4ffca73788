/**
  The deterministic parts of app/routes/pipeline.py: resolving a language
  name to its code (`get_language_code`, with difflib's
  `get_close_matches` as the fuzzy fallback) and the tail of
  `complete_pipeline` that turns pauses into silent clips, sorts every clip
  by its start and concatenates them.

  difflib's similarity ratio is an oracle `ratio(key, word)`. Audio is a
  sequence of frames, one per millisecond, so that the length of a clip is
  its duration in milliseconds.
 */
module Pipeline {
  import opened Results
  import opened Strings
  import opened Diarization

  /** `LANGUAGE_MAP`. */
  const LanguageMap: map<string, string> := map[
    "hindi" := "hi", "bengali" := "bn", "telugu" := "te", "marathi" := "mr",
    "tamil" := "ta", "urdu" := "ur", "gujarati" := "gu", "kannada" := "kn",
    "malayalam" := "ml", "punjabi" := "pa", "odia" := "or", "oriya" := "or",
    "assamese" := "as"]

  /** `LANGUAGE_MAP.keys()`, in insertion order. */
  const LanguageKeys: seq<string> := [
    "hindi", "bengali", "telugu", "marathi", "tamil", "urdu", "gujarati",
    "kannada", "malayalam", "punjabi", "odia", "oriya", "assamese"]

  /** The `cutoff` passed to `get_close_matches`. */
  const Cutoff: real := 0.6

  /** The error `get_language_code` raises, naming the normalised input. */
  datatype LanguageError = Unsupported(name: string)

  /** The key list and the table agree. */
  lemma LanguageKeysAreTable()
    ensures forall k :: k in LanguageKeys <==> k in LanguageMap
  {
  }

  /** Odia has two spellings and both give the same code. */
  lemma OdiaSpellings()
    ensures LanguageMap["odia"] == LanguageMap["oriya"] == "or"
    ensures "odia" != "oriya"
  {
  }

  /** The order of the `(score, key)` pairs that `heapq.nlargest` picks the
      largest from: by score, then by key. */
  predicate AtMost(s1: real, k1: string, s2: real, k2: string)
  {
    s1 < s2 || (s1 == s2 && StrLe(k1, k2))
  }

  /** `get_close_matches(word, keys, n=1, cutoff=0.6)`: the key with the
      largest `(ratio, key)` among those whose ratio reaches the cutoff. */
  function Closest(keys: seq<string>, word: string, ratio: (string, string) -> real): (r: Option<string>)
    ensures r.Some? ==> r.value in keys && ratio(r.value, word) >= Cutoff
  {
    if keys == [] then None
    else
      var rest := Closest(keys[1..], word, ratio);
      var k := keys[0];
      if ratio(k, word) < Cutoff then rest
      else if rest.None? then Some(k)
      else if AtMost(ratio(k, word), k, ratio(rest.value, word), rest.value) then rest
      else Some(k)
  }

  /** There is a match exactly when some key reaches the cutoff, and the
      match is the largest `(ratio, key)` among those that do. */
  lemma {:induction false} ClosestIsLargest(keys: seq<string>, word: string, ratio: (string, string) -> real)
    ensures Closest(keys, word, ratio).None? <==> forall j :: 0 <= j < |keys| ==> ratio(keys[j], word) < Cutoff
    ensures var r := Closest(keys, word, ratio);
            r.Some? ==> forall j :: 0 <= j < |keys| && ratio(keys[j], word) >= Cutoff ==>
                          AtMost(ratio(keys[j], word), keys[j], ratio(r.value, word), r.value)
  {
    if keys != [] {
      var rest := Closest(keys[1..], word, ratio);
      var k := keys[0];
      ClosestIsLargest(keys[1..], word, ratio);
      assert forall j :: 1 <= j < |keys| ==> keys[j] == keys[1..][j - 1];
      StrLeTotal(k, k);
      if ratio(k, word) < Cutoff {
        assert Closest(keys, word, ratio) == rest;
      } else if rest.None? {
        assert Closest(keys, word, ratio) == Some(k);
      } else {
        var m := rest.value;
        if AtMost(ratio(k, word), k, ratio(m, word), m) {
          assert Closest(keys, word, ratio) == rest;
        } else {
          assert Closest(keys, word, ratio) == Some(k);
          StrLeTotal(k, m);
          forall j | 1 <= j < |keys| && ratio(keys[j], word) >= Cutoff
            ensures AtMost(ratio(keys[j], word), keys[j], ratio(k, word), k)
          {
            assert AtMost(ratio(keys[j], word), keys[j], ratio(m, word), m);
            if ratio(keys[j], word) == ratio(k, word) {
              StrLeTransitive(keys[j], m, k);
            }
          }
        }
      }
    }
  }

  /** `input_language.strip().lower()`. */
  function Normalise(s: string): string
  {
    Lower(Strip(s))
  }

  /** `get_language_code`: an exact hit in the table, else the closest
      key's code, else the error naming the normalised input. */
  function LanguageCode(input: string, ratio: (string, string) -> real): (r: Result<string, LanguageError>)
  {
    var norm := Normalise(input);
    if norm in LanguageMap then Ok(LanguageMap[norm])
    else
      match Closest(LanguageKeys, norm, ratio)
      case Some(k) => LanguageKeysAreTable(); Ok(LanguageMap[k])
      case None => Err(Unsupported(norm))
  }

  /** An input that normalises to a table key gets that key's code, whatever
      the oracle says. */
  lemma LanguageCodeExact(input: string, ratio: (string, string) -> real)
    requires Normalise(input) in LanguageMap
    ensures LanguageCode(input, ratio) == Ok(LanguageMap[Normalise(input)])
  {
  }

  /** Every code returned is a value of the table; an error names the
      normalised input, and happens exactly when the input is not a key and
      no key is close enough. */
  lemma LanguageCodeOutcome(input: string, ratio: (string, string) -> real)
    ensures var r := LanguageCode(input, ratio);
            && (r.Ok? ==> r.value in LanguageMap.Values)
            && (r.Err? ==> r.error == Unsupported(Normalise(input)))
            && (r.Err? <==> Normalise(input) !in LanguageMap &&
                              forall j :: 0 <= j < |LanguageKeys| ==> ratio(LanguageKeys[j], Normalise(input)) < Cutoff)
  {
    LanguageKeysAreTable();
    ClosestIsLargest(LanguageKeys, Normalise(input), ratio);
  }

  /** The fuzzy fallback returns the code of the key with the largest
      `(ratio, key)` among the keys reaching the cutoff. */
  lemma LanguageCodeFuzzy(input: string, ratio: (string, string) -> real)
    requires Normalise(input) !in LanguageMap
    requires LanguageCode(input, ratio).Ok?
    ensures exists k :: k in LanguageKeys && ratio(k, Normalise(input)) >= Cutoff
                        && LanguageCode(input, ratio).value == LanguageMap[k]
                        && forall j :: 0 <= j < |LanguageKeys| && ratio(LanguageKeys[j], Normalise(input)) >= Cutoff ==>
                             AtMost(ratio(LanguageKeys[j], Normalise(input)), LanguageKeys[j], ratio(k, Normalise(input)), k)
  {
    LanguageKeysAreTable();
    ClosestIsLargest(LanguageKeys, Normalise(input), ratio);
  }

  /** Surrounding whitespace and upper case do not matter. */
  lemma LanguageCodeExample(ratio: (string, string) -> real)
    ensures LanguageCode(" Hindi\n", ratio) == Ok("hi")
  {
    NormaliseExample();
    HindiCode(" Hindi\n", ratio);
  }

  /** Any input that normalises to `hindi` gets `hi`. */
  lemma HindiCode(input: string, ratio: (string, string) -> real)
    requires Normalise(input) == "hindi"
    ensures LanguageCode(input, ratio) == Ok("hi")
  {
    HindiEntry();
    LanguageCodeExact(input, ratio);
  }

  lemma HindiEntry()
    ensures "hindi" in LanguageMap && LanguageMap["hindi"] == "hi"
  {
  }

  lemma NormaliseExample()
    ensures Normalise(" Hindi\n") == "hindi"
  {
    TrimLeftExample();
    TrimRightExample();
    assert Lower("Hindi") == "hindi";
  }

  lemma TrimLeftExample()
    ensures TrimLeft(" Hindi\n") == "Hindi\n"
  {
    var s := " Hindi\n";
    assert s[0] == ' ' && IsSpace(' ');
    assert s[1..] == "Hindi\n";
    assert "Hindi\n"[0] == 'H' && !IsSpace('H');
  }

  lemma TrimRightExample()
    ensures TrimRight("Hindi\n") == "Hindi"
  {
    assert "Hindi\n"[..5] == "Hindi";
  }

  /** One clip waiting to be joined: its start and its frames, one per
      millisecond. */
  datatype Piece = Piece(startMs: int, audio: seq<int>)

  /** A duration, or zero when it is negative. */
  function Clip(durationMs: int): nat
  {
    if durationMs <= 0 then 0 else durationMs
  }

  /** `AudioSegment.silent(duration)`: no frames for a duration of zero or less. */
  function Silence(durationMs: int): (r: seq<int>)
    ensures |r| == Clip(durationMs)
    ensures forall i :: 0 <= i < |r| ==> r[i] == 0
  {
    if durationMs <= 0 then [] else seq(durationMs, _ => 0)
  }

  /** Lines 79-86: a pause in centiseconds becomes a silent clip from
      `start_ms` lasting `end_ms - start_ms`. */
  function PausePiece(p: Interval): (r: Piece)
    ensures r.startMs == p.start * 10
    ensures |r.audio| == Clip(p.end * 10 - p.start * 10)
  {
    Piece(p.start * 10, Silence(p.end * 10 - p.start * 10))
  }

  function PausePieces(ps: seq<Interval>): (r: seq<Piece>)
    ensures |r| == |ps| && forall k :: 0 <= k < |ps| ==> r[k] == PausePiece(ps[k])
  {
    if ps == [] then [] else [PausePiece(ps[0])] + PausePieces(ps[1..])
  }

  /** Starts never decrease. */
  predicate SortedByStartMs(ps: seq<Piece>)
  {
    forall k, m :: 0 <= k < m < |ps| ==> ps[k].startMs <= ps[m].startMs
  }

  /** Inserts `x` after every piece starting no later than it. */
  function InsertPiece(x: Piece, ps: seq<Piece>): seq<Piece>
  {
    if ps == [] then [x]
    else if x.startMs < ps[0].startMs then [x] + ps
    else [ps[0]] + InsertPiece(x, ps[1..])
  }

  /** `output_segments.sort(key=lambda x: x[0])`: Python's sort is stable,
      modelled as insertion of each piece, in order, behind the equal ones. */
  function SortPieces(ps: seq<Piece>): seq<Piece>
  {
    if ps == [] then [] else InsertPiece(ps[|ps| - 1], SortPieces(ps[..|ps| - 1]))
  }

  lemma InsertPieceSorted(x: Piece, ps: seq<Piece>)
    requires SortedByStartMs(ps)
    ensures SortedByStartMs(InsertPiece(x, ps))
    ensures multiset(InsertPiece(x, ps)) == multiset(ps) + multiset{x}
    ensures |InsertPiece(x, ps)| == |ps| + 1
  {
    InsertPieceOrdered(x, ps);
    InsertPieceContents(x, ps);
  }

  lemma {:induction false} InsertPieceContents(x: Piece, ps: seq<Piece>)
    ensures multiset(InsertPiece(x, ps)) == multiset(ps) + multiset{x}
    ensures |InsertPiece(x, ps)| == |ps| + 1
    decreases |ps|
  {
    if ps != [] && x.startMs >= ps[0].startMs {
      InsertPieceContents(x, ps[1..]);
      assert ps == [ps[0]] + ps[1..];
    }
  }

  /** Inserting a piece that starts no earlier than `b` into pieces that
      all do gives pieces that all do. */
  lemma {:induction false} InsertPieceBound(x: Piece, ps: seq<Piece>, b: int)
    requires b <= x.startMs && forall k :: 0 <= k < |ps| ==> b <= ps[k].startMs
    ensures forall k :: 0 <= k < |InsertPiece(x, ps)| ==> b <= InsertPiece(x, ps)[k].startMs
    decreases |ps|
  {
    if ps != [] {
      var r := InsertPiece(x, ps);
      if x.startMs < ps[0].startMs {
        forall k | 0 <= k < |r| ensures b <= r[k].startMs {
          if k > 0 {
            assert r[k] == ps[k - 1];
          }
        }
      } else {
        InsertPieceBound(x, ps[1..], b);
        var t := InsertPiece(x, ps[1..]);
        forall k | 0 <= k < |r| ensures b <= r[k].startMs {
          if k > 0 {
            assert r[k] == t[k - 1];
          }
        }
      }
    }
  }

  lemma {:induction false} InsertPieceOrdered(x: Piece, ps: seq<Piece>)
    requires SortedByStartMs(ps)
    ensures SortedByStartMs(InsertPiece(x, ps))
    decreases |ps|
  {
    if ps != [] {
      var r := InsertPiece(x, ps);
      if x.startMs < ps[0].startMs {
        forall k, m | 0 <= k < m < |r| ensures r[k].startMs <= r[m].startMs {
          assert r[m] == ps[m - 1];
          if k > 0 {
            assert r[k] == ps[k - 1];
          }
        }
      } else {
        InsertPieceOrdered(x, ps[1..]);
        InsertPieceBound(x, ps[1..], ps[0].startMs);
        var t := InsertPiece(x, ps[1..]);
        forall k, m | 0 <= k < m < |r| ensures r[k].startMs <= r[m].startMs {
          assert r[m] == t[m - 1];
          if k > 0 {
            assert r[k] == t[k - 1];
          }
        }
      }
    }
  }


  /** The sort gives pieces ordered by start, and the same pieces: a permutation. */
  lemma {:induction false} SortPiecesSorted(ps: seq<Piece>)
    ensures SortedByStartMs(SortPieces(ps))
    ensures multiset(SortPieces(ps)) == multiset(ps)
    ensures |SortPieces(ps)| == |ps|
    decreases |ps|
  {
    if ps != [] {
      var init := ps[..|ps| - 1];
      SortPiecesSorted(init);
      InsertPieceSorted(ps[|ps| - 1], SortPieces(init));
      assert ps == init + [ps[|ps| - 1]];
    }
  }

  lemma SortPiecesOrdered(ps: seq<Piece>)
    ensures SortedByStartMs(SortPieces(ps))
  {
    SortPiecesSorted(ps);
  }

  /** The pieces starting at `t`, in order. */
  function StartingAt(ps: seq<Piece>, t: int): seq<Piece>
  {
    if ps == [] then []
    else (if ps[0].startMs == t then [ps[0]] else []) + StartingAt(ps[1..], t)
  }

  lemma {:induction false} StartingAtAppend(a: seq<Piece>, b: seq<Piece>, t: int)
    ensures StartingAt(a + b, t) == StartingAt(a, t) + StartingAt(b, t)
    decreases |a|
  {
    if a != [] {
      StartingAtAppend(a[1..], b, t);
      var h := if a[0].startMs == t then [a[0]] else [];
      assert (a + b)[0] == a[0];
      assert (a + b)[1..] == a[1..] + b;
      assert StartingAt(a + b, t) == h + StartingAt(a[1..] + b, t);
      assert StartingAt(a, t) == h + StartingAt(a[1..], t);
      assert h + (StartingAt(a[1..], t) + StartingAt(b, t)) == (h + StartingAt(a[1..], t)) + StartingAt(b, t);
    } else {
      assert a + b == b;
    }
  }

  lemma {:induction false} StartingAtInsert(x: Piece, ps: seq<Piece>, t: int)
    requires SortedByStartMs(ps)
    ensures StartingAt(InsertPiece(x, ps), t) == StartingAt(ps, t) + (if x.startMs == t then [x] else [])
    decreases |ps|
  {
    if ps != [] {
      if x.startMs < ps[0].startMs {
        StartingAtAfter(ps, x.startMs);
        assert ([x] + ps)[1..] == ps;
      } else {
        StartingAtInsert(x, ps[1..], t);
        assert ([ps[0]] + InsertPiece(x, ps[1..]))[1..] == InsertPiece(x, ps[1..]);
      }
    }
  }

  /** In a sorted list whose first piece starts after `t`, no piece starts at `t`. */
  lemma {:induction false} StartingAtAfter(ps: seq<Piece>, t: int)
    requires SortedByStartMs(ps) && ps != [] && t < ps[0].startMs
    ensures StartingAt(ps, t) == []
    decreases |ps|
  {
    if |ps| > 1 {
      assert ps[0].startMs <= ps[1].startMs;
      StartingAtAfter(ps[1..], t);
    }
  }

  /** The sort is stable: the pieces sharing a start keep their order. */
  lemma {:induction false} SortPiecesStable(ps: seq<Piece>, t: int)
    ensures StartingAt(SortPieces(ps), t) == StartingAt(ps, t)
    decreases |ps|
  {
    if ps != [] {
      var init := ps[..|ps| - 1];
      var x := ps[|ps| - 1];
      SortPiecesStable(init, t);
      SortPiecesOrdered(init);
      StartingAtInsert(x, SortPieces(init), t);
      assert ps == init + [x];
      StartingAtAppend(init, [x], t);
    }
  }

  /** `final_audio += AudioSegment.from_wav(path)` for each piece in order. */
  function Concat(ps: seq<Piece>): seq<int>
  {
    if ps == [] then [] else ps[0].audio + Concat(ps[1..])
  }

  /** The sum of the pieces' durations. */
  function TotalMs(ps: seq<Piece>): nat
  {
    if ps == [] then 0 else |ps[0].audio| + TotalMs(ps[1..])
  }

  lemma {:induction false} ConcatLength(ps: seq<Piece>)
    ensures |Concat(ps)| == TotalMs(ps)
  {
    if ps != [] {
      ConcatLength(ps[1..]);
    }
  }

  lemma {:induction false} TotalMsAppend(a: seq<Piece>, b: seq<Piece>)
    ensures TotalMs(a + b) == TotalMs(a) + TotalMs(b)
    decreases |a|
  {
    if a != [] {
      TotalMsAppend(a[1..], b);
      assert (a + b)[0] == a[0];
      assert (a + b)[1..] == a[1..] + b;
      assert TotalMs(a + b) == |a[0].audio| + TotalMs(a[1..] + b);
    } else {
      assert a + b == b;
    }
  }

  lemma {:induction false} TotalMsInsert(x: Piece, ps: seq<Piece>)
    ensures TotalMs(InsertPiece(x, ps)) == TotalMs(ps) + |x.audio|
    decreases |ps|
  {
    if ps != [] && x.startMs >= ps[0].startMs {
      TotalMsInsert(x, ps[1..]);
    }
  }

  /** Sorting keeps the total duration. */
  lemma {:induction false} TotalMsSort(ps: seq<Piece>)
    ensures TotalMs(SortPieces(ps)) == TotalMs(ps)
    decreases |ps|
  {
    if ps != [] {
      var init := ps[..|ps| - 1];
      TotalMsSort(init);
      TotalMsInsert(ps[|ps| - 1], SortPieces(init));
      assert ps == init + [ps[|ps| - 1]];
      TotalMsAppend(init, [ps[|ps| - 1]]);
    }
  }

  /** Lines 78-94: the speech clips followed by a silent clip per pause,
      stably sorted by start and concatenated. */
  function Reassemble(speech: seq<Piece>, pauses: seq<Interval>): seq<int>
  {
    Concat(SortPieces(speech + PausePieces(pauses)))
  }

  /** The pauses' silent durations add up to the time they span. */
  function PauseMs(ps: seq<Interval>): int
  {
    if ps == [] then 0 else Clip(ps[0].end * 10 - ps[0].start * 10) + PauseMs(ps[1..])
  }

  lemma {:induction false} PausePiecesTotal(ps: seq<Interval>)
    ensures TotalMs(PausePieces(ps)) == PauseMs(ps)
  {
    if ps != [] {
      PausePiecesTotal(ps[1..]);
    }
  }

  /** The final audio lasts the speech clips' total plus each pause's
      `end_ms - start_ms`. */
  lemma ReassembleLength(speech: seq<Piece>, pauses: seq<Interval>)
    ensures |Reassemble(speech, pauses)| == TotalMs(speech) + PauseMs(pauses)
  {
    var all := speech + PausePieces(pauses);
    ConcatLength(SortPieces(all));
    TotalMsSort(all);
    TotalMsAppend(speech, PausePieces(pauses));
    PausePiecesTotal(pauses);
  }

  /** The clips are joined in order of start, each exactly once, and clips
      with the same start keep the order in which they were appended:
      speech before pauses. */
  lemma ReassembleOrder(speech: seq<Piece>, pauses: seq<Interval>, t: int)
    ensures var sorted := SortPieces(speech + PausePieces(pauses));
            && SortedByStartMs(sorted)
            && multiset(sorted) == multiset(speech) + multiset(PausePieces(pauses))
            && StartingAt(sorted, t) == StartingAt(speech, t) + StartingAt(PausePieces(pauses), t)
  {
    var all := speech + PausePieces(pauses);
    SortPiecesSorted(all);
    SortPiecesStable(all, t);
    StartingAtAppend(speech, PausePieces(pauses), t);
  }
}
