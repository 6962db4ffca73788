/**
  The figurative-phrase knowledge base of
  modules/text_analysis/phrase_swapping.py: detection by a case-insensitive
  search of the stored phrases, rewriting with the first stored phrase that
  matches, learning a new phrase from the language model without storing
  the same phrase twice, and the `process_text` dispatch.

  The knowledge base is a value passed in and handed back (loading and
  saving the JSON file is left out). Every call to the language model is
  an oracle: its answer is a parameter.
 */
module Phrases {
  import opened Results
  import opened Strings

  /** One knowledge-base record: `figurative_speech`, `type`, `literal_meaning`. */
  datatype Entry = Entry(phrase: string, kind: string, meaning: string)

  /** The stored phrase of `e` occurs in `text`, both lower-cased. */
  predicate Mentions(e: Entry, text: string)
  {
    Contains(Lower(text), Lower(e.phrase))
  }

  /** The position of the first entry that `text` mentions. */
  function FirstMatch(db: seq<Entry>, text: string): (r: Option<nat>)
    ensures r.Some? ==> r.value < |db| && Mentions(db[r.value], text)
    ensures r.Some? ==> forall j :: 0 <= j < r.value ==> !Mentions(db[j], text)
    ensures r.None? <==> forall j :: 0 <= j < |db| ==> !Mentions(db[j], text)
  {
    if db == [] then None
    else if Mentions(db[0], text) then Some(0)
    else
      match FirstMatch(db[1..], text)
      case None =>
        assert forall j :: 1 <= j < |db| ==> db[j] == db[1..][j - 1];
        None
      case Some(i) =>
        assert forall j :: 1 <= j < i + 1 ==> db[j] == db[1..][j - 1];
        Some(i + 1)
  }

  /** `detect_figurative_speech`: "Yes" without asking the model when a
      stored phrase occurs in the text, ignoring case; otherwise whatever
      the model answers (`"Error"` once its retries run out). */
  function Detect(db: seq<Entry>, text: string, modelAnswer: string): (r: string)
    ensures (exists j :: 0 <= j < |db| && Mentions(db[j], text)) ==> r == "Yes"
    ensures (forall j :: 0 <= j < |db| ==> !Mentions(db[j], text)) ==> r == modelAnswer
  {
    if FirstMatch(db, text).Some? then "Yes" else modelAnswer
  }

  /** The knowledge-base branch of `rewrite_figurative_speech`: the first
      entry the statement mentions, with every case-sensitive occurrence of
      its phrase replaced by its meaning. */
  function DbRewrite(db: seq<Entry>, statement: string): (r: Option<string>)
    ensures r.None? <==> forall j :: 0 <= j < |db| ==> !Mentions(db[j], statement)
    ensures r.Some? ==> exists i :: (0 <= i < |db| && Mentions(db[i], statement)
              && (forall j :: 0 <= j < i ==> !Mentions(db[j], statement))
              && r.value == ReplaceAll(statement, db[i].phrase, db[i].meaning))
  {
    match FirstMatch(db, statement)
    case None => None
    case Some(i) => Some(ReplaceAll(statement, db[i].phrase, db[i].meaning))
  }

  /** A phrase that matches only in another case is found, yet nothing is
      replaced: `str.replace` is case-sensitive, so the statement comes back
      unchanged. */
  lemma CaseOnlyMatch(db: seq<Entry>, statement: string, i: nat)
    requires i < |db| && Mentions(db[i], statement)
    requires forall j :: 0 <= j < i ==> !Mentions(db[j], statement)
    requires db[i].phrase != [] && !Contains(statement, db[i].phrase)
    ensures DbRewrite(db, statement) == Some(statement)
  {
    var r := FirstMatch(db, statement);
    assert r == Some(i);
    ReplaceAbsent(statement, db[i].phrase, db[i].meaning);
  }

  /** A text detection sends to the knowledge base is rewritten from the
      knowledge base. */
  lemma DetectedRewrittenFromDb(db: seq<Entry>, text: string, modelAnswer: string)
    requires FirstMatch(db, text).Some?
    ensures Detect(db, text, modelAnswer) == "Yes" && DbRewrite(db, text).Some?
  {
  }

  /** The opening of a fenced code block. */
  const Fence := "```"
  const JsonFence := "```json"

  /** `re.sub(r"```(?:json)?", "", s)`: every fence, with the word `json`
      right after it when present, is removed, scanning from the left
      (both fences open with a backtick, so any other character is kept). */
  function RemoveFences(s: string): (r: string)
    ensures |r| <= |s|
    decreases |s|
  {
    if s == [] then []
    else if s[0] != '`' then [s[0]] + RemoveFences(s[1..])
    else if StartsWith(s, JsonFence) then RemoveFences(s[|JsonFence|..])
    else if StartsWith(s, Fence) then RemoveFences(s[|Fence|..])
    else [s[0]] + RemoveFences(s[1..])
  }

  /** A string without any backtick has no fence to remove. */
  lemma {:induction false} RemoveFencesPlain(s: string)
    requires forall i :: 0 <= i < |s| ==> s[i] != '`'
    ensures RemoveFences(s) == s
    decreases |s|
  {
    if s != [] {
      NoFenceAt(s);
      RemoveFencesPlain(s[1..]);
    }
  }

  /** A block fenced as JSON comes back as its body. */
  lemma FencedBody(body: string)
    requires forall i :: 0 <= i < |body| ==> body[i] != '`'
    ensures RemoveFences(JsonFence + body + Fence) == body
  {
    var s := JsonFence + (body + Fence);
    assert JsonFence + body + Fence == s;
    StartsWithConcat(JsonFence, body + Fence);
    assert s[|JsonFence|..] == body + Fence;
    RemoveFencesTail(body);
  }

  lemma {:induction false} RemoveFencesTail(body: string)
    requires forall i :: 0 <= i < |body| ==> body[i] != '`'
    ensures RemoveFences(body + Fence) == body
    decreases |body|
  {
    var s := body + Fence;
    if body == [] {
      assert s == Fence && |Fence| < |JsonFence|;
      assert s[|Fence|..] == [];
    } else {
      NoFenceAt(s);
      assert s[1..] == body[1..] + Fence;
      RemoveFencesTail(body[1..]);
      assert body == [body[0]] + body[1..];
    }
  }

  /** A string that does not open with a backtick opens with no fence. */
  lemma NoFenceAt(s: string)
    requires s != [] && s[0] != '`'
    ensures RemoveFences(s) == [s[0]] + RemoveFences(s[1..])
  {
    assert Fence[0] == '`' && JsonFence[0] == '`';
  }

  lemma JsonFenceFirst(b: string)
    ensures RemoveFences(JsonFence + b) == RemoveFences(b)
  {
    var s := JsonFence + b;
    StartsWithConcat(JsonFence, b);
    assert s[|JsonFence|..] == b;
  }

  lemma FenceFirst(b: string)
    requires !StartsWith(b, "json")
    ensures RemoveFences(Fence + b) == RemoveFences(b)
  {
    var s := Fence + b;
    StartsWithConcat(Fence, b);
    assert s[|Fence|..] == b;
  }

  /** Fences are cut out and nothing else: text without backticks before a
      JSON fence is kept, the fence goes, and the rest is cleaned the same
      way. A bare fence goes the same way unless `json` follows it, which
      would be removed with it. */
  lemma RemoveFencesSplit(a: string, f: string, b: string)
    requires forall i :: 0 <= i < |a| ==> a[i] != '`'
    requires f == JsonFence || (f == Fence && !StartsWith(b, "json"))
    ensures RemoveFences(a + f + b) == a + RemoveFences(b)
  {
    assert a + f + b == a + (f + b);
    RemoveFencesPrefix(a, f + b);
    FenceThen(f, b);
  }

  /** Text without backticks in front is kept as it is. */
  lemma {:induction false} RemoveFencesPrefix(a: string, x: string)
    requires forall i :: 0 <= i < |a| ==> a[i] != '`'
    ensures RemoveFences(a + x) == a + RemoveFences(x)
    decreases |a|
  {
    if a == [] {
      assert a + x == x;
    } else {
      var t := RemoveFences(x);
      assert a + x == [a[0]] + (a[1..] + x);
      PlainCons(a[0], a[1..] + x);
      RemoveFencesPrefix(a[1..], x);
      assert [a[0]] + (a[1..] + t) == a + t;
    }
  }

  /** A fence at the very start is dropped. */
  lemma FenceThen(f: string, b: string)
    requires f == JsonFence || (f == Fence && !StartsWith(b, "json"))
    ensures RemoveFences(f + b) == RemoveFences(b)
  {
    if f == JsonFence {
      JsonFenceFirst(b);
    } else {
      FenceFirst(b);
    }
  }

  /** A character other than a backtick in front is kept as it is. */
  lemma PlainCons(c: char, rest: string)
    requires c != '`'
    ensures RemoveFences([c] + rest) == [c] + RemoveFences(rest)
  {
    var s := [c] + rest;
    assert s[0] == c && s[1..] == rest;
    NoFenceAt(s);
  }

  /** The clean-up of the model's identification answer before it is
      parsed: strip it, and when it opens with a fence remove the fences
      and strip again. */
  function CleanResponse(response: string): (r: string)
    ensures r == [] || (!IsSpace(r[0]) && !IsSpace(r[|r| - 1]))
  {
    var s := Strip(response);
    StripEnds(response);
    if StartsWith(s, Fence) then
      StripEnds(RemoveFences(s));
      Strip(RemoveFences(s))
    else
      s
  }

  /** An answer without backticks cannot open with a fence, so cleaning it
      is just stripping it. */
  lemma CleanPlain(response: string)
    requires forall i :: 0 <= i < |response| ==> response[i] != '`'
    ensures CleanResponse(response) == Strip(response)
  {
    var s := Strip(response);
    StripEnds(response);
    if s != [] {
      assert s[0] in s;
      var i :| 0 <= i < |response| && response[i] == s[0];
      assert s[0] != Fence[0];
    }
    assert !StartsWith(s, Fence);
  }

  /** An answer whose stripped form opens with a fence loses its fences. */
  lemma CleanFenced(response: string)
    requires StartsWith(Strip(response), Fence)
    ensures CleanResponse(response) == Strip(RemoveFences(Strip(response)))
  {
  }

  /** An answer that is a JSON code block, with any whitespace around it,
      cleans to the stripped body of the block. */
  lemma CleanFencedAnswer(pre: string, body: string, post: string)
    requires AllSpace(pre) && AllSpace(post)
    requires forall i :: 0 <= i < |body| ==> body[i] != '`'
    ensures CleanResponse(pre + JsonFence + body + Fence + post) == Strip(body)
  {
    var x := JsonFence + body + Fence;
    var a := pre + JsonFence + body + Fence + post;
    assert x[0] == '`' && x[|x| - 1] == '`';
    assert a == pre + x + post;
    StripAround(pre, x, post);
    assert x == Fence + ("json" + body + Fence);
    StartsWithConcat(Fence, "json" + body + Fence);
    CleanFenced(a);
    FencedBody(body);
  }

  /** What the identification answer yields: `identified_data.get(...)` of
      the three keys, after JSON parsing or the regular-expression fallback
      (neither is modelled; the values are given). */
  datatype Identified = Identified(phrase: Option<string>, kind: Option<string>, meaning: Option<string>)

  /** A Python string is truthy when it is present and not empty. */
  predicate Truthy(v: Option<string>)
  {
    v.Some? && v.value != []
  }

  /** No two entries have the same phrase ignoring case. */
  predicate Distinct(db: seq<Entry>)
  {
    forall i, j :: 0 <= i < j < |db| ==> Lower(db[i].phrase) != Lower(db[j].phrase)
  }

  /** Some entry already has the phrase, ignoring case. */
  predicate Known(db: seq<Entry>, phrase: string)
  {
    exists k :: 0 <= k < |db| && Lower(db[k].phrase) == Lower(phrase)
  }

  /** The save step of lines 141-154: a new entry (type defaulting to
      "N/A") is appended when phrase and meaning are both given and no stored
      phrase equals the phrase ignoring case. */
  function Learn(db: seq<Entry>, id: Identified): (r: seq<Entry>)
    ensures r == db || (|r| == |db| + 1 && r[..|db|] == db)
    ensures |r| == |db| + 1 <==> Truthy(id.phrase) && Truthy(id.meaning) && !Known(db, id.phrase.value)
    ensures |r| == |db| + 1 ==>
              r[|db|] == Entry(id.phrase.value, id.kind.GetOr("N/A"), id.meaning.value)
    ensures Distinct(db) ==> Distinct(r)
  {
    if Truthy(id.phrase) && Truthy(id.meaning) && !Known(db, id.phrase.value) then
      var r := db + [Entry(id.phrase.value, id.kind.GetOr("N/A"), id.meaning.value)];
      assert r[..|db|] == db;
      r
    else
      db
  }

  /** The model's answers consulted by one run of `process_text`. */
  datatype Oracle = Oracle(detection: string, rewritten: string, identified: Identified)

  /** `rewrite_figurative_speech`: the rewritten text and the knowledge
      base afterwards. */
  function Rewrite(db: seq<Entry>, statement: string, oracle: Oracle): (r: (string, seq<Entry>))
    ensures forall i :: 0 <= i < |db| && Mentions(db[i], statement) && (forall j :: 0 <= j < i ==> !Mentions(db[j], statement))
              ==> r == (ReplaceAll(statement, db[i].phrase, db[i].meaning), db)
    ensures (forall j :: 0 <= j < |db| ==> !Mentions(db[j], statement)) ==> r == (oracle.rewritten, Learn(db, oracle.identified))
  {
    match DbRewrite(db, statement)
    case Some(t) => (t, db)
    case None => (oracle.rewritten, Learn(db, oracle.identified))
  }

  const NoInput := "Error: No input text."

  /** `process_text`: an empty input is an error and changes nothing; a
      text that mentions a stored phrase is rewritten from the first such
      entry without asking the model; any other text is handed back
      unchanged unless the model says "Yes", in which case the model's
      rewrite is returned and at most one entry is learned. */
  function ProcessText(db: seq<Entry>, input: string, oracle: Oracle): (r: (string, seq<Entry>))
    ensures input == [] ==> r == (NoInput, db)
    ensures input != [] ==>
              forall i :: 0 <= i < |db| && Mentions(db[i], input) && (forall j :: 0 <= j < i ==> !Mentions(db[j], input))
                ==> r == (ReplaceAll(input, db[i].phrase, db[i].meaning), db)
    ensures input != [] && (forall j :: 0 <= j < |db| ==> !Mentions(db[j], input)) ==>
              r == (if oracle.detection == "Yes" then (oracle.rewritten, Learn(db, oracle.identified)) else (input, db))
  {
    if input == [] then (NoInput, db)
    else if Detect(db, input, oracle.detection) == "Yes" then Rewrite(db, input, oracle)
    else (input, db)
  }

  /** Processing never stores a phrase twice, ignoring case, and never
      drops or changes an entry. */
  lemma ProcessKeepsDistinct(db: seq<Entry>, input: string, oracle: Oracle)
    requires Distinct(db)
    ensures var db' := ProcessText(db, input, oracle).1;
            Distinct(db') && |db| <= |db'| <= |db| + 1 && db'[..|db|] == db
  {
  }
}
