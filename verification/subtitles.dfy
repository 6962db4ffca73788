/**
  Subtitle timing (modules/generation/subtitle_generation.py): a translated
  sentence is cut into lines of at most `max_words_per_line` words, the
  segment's time budget is shared out by word count with the last line
  snapped to the segment's end, and each boundary is printed as an SRT
  timestamp `HH:MM:SS,mmm`.

  `format_time` slices `str(timedelta)`, which drops the seconds field of a
  whole-second time; `FormatTimeAsWritten` is that code and `FormatTime` the
  timestamp it is meant to print, which the entries use.
 */
module Subtitles {
  import opened Results
  import opened Strings

  /** `"0" * k`. */
  function Zeros(k: nat): (r: string)
    ensures |r| == k && forall i :: 0 <= i < k ==> r[i] == '0'
  {
    seq(k, _ => '0')
  }

  /** Left-pads `s` with zeros to width `w`. */
  function ZeroPad(s: string, w: nat): (r: string)
    ensures |r| == if |s| >= w then |s| else w
    ensures r == Zeros(|r| - |s|) + s
  {
    if |s| >= w then Zeros(0) + s else Zeros(w - |s|) + s
  }

  /** `"%0{w}d" % n`. */
  function Pad(n: nat, w: nat): string
  {
    ZeroPad(NatToString(n), w)
  }

  /** `str.zfill(w)`: zeros go after a leading sign. */
  function ZFill(s: string, w: nat): string
  {
    if |s| >= w then s
    else if s != [] && (s[0] == '-' || s[0] == '+') then [s[0]] + Zeros(w - |s|) + s[1..]
    else Zeros(w - |s|) + s
  }

  /** `s[:-3]`. */
  function DropLast3(s: string): string
  {
    if |s| >= 3 then s[..|s| - 3] else []
  }

  /** `s.replace(a, b)` for one-character `a` and `b`: each `a` becomes `b`. */
  function ReplaceChar(s: string, a: char, b: char): (r: string)
    ensures |r| == |s| && forall i :: 0 <= i < |s| ==> r[i] == (if s[i] == a then b else s[i])
  {
    seq(|s|, i requires 0 <= i < |s| => if s[i] == a then b else s[i])
  }

  predicate AllDigits(s: string)
  {
    forall i :: 0 <= i < |s| ==> '0' <= s[i] <= '9'
  }

  /** A duration split the way `timedelta` does it: whole hours (not
      wrapped), minutes, seconds and milliseconds. */
  datatype Clock = Clock(hours: nat, minutes: nat, seconds: nat, millis: nat)

  function Parts(ms: nat): (c: Clock)
    ensures c.minutes < 60 && c.seconds < 60 && c.millis < 1000
  {
    var secs := ms / 1000;
    var mins := secs / 60;
    Clock(mins / 60, mins % 60, secs % 60, ms % 1000)
  }

  /** The milliseconds in a number of hours, minutes, seconds and milliseconds. */
  function ClockValue(h: nat, m: nat, s: nat, f: nat): nat
  {
    ((h * 60 + m) * 60 + s) * 1000 + f
  }

  /** The fields add back up to the duration. */
  lemma PartsTotal(ms: nat)
    ensures var c := Parts(ms);
            ClockValue(c.hours, c.minutes, c.seconds, c.millis) == ms
  {
    var secs := ms / 1000;
    var mins := secs / 60;
    assert ms == secs * 1000 + ms % 1000;
    assert secs == mins * 60 + secs % 60;
    assert mins == (mins / 60) * 60 + mins % 60;
  }

  /** `str(timedelta(milliseconds=ms))`: an optional day count, then
      `H:MM:SS`, then `.ffffff` when the microseconds are not zero. Days are
      floored, as Python normalises a negative duration. */
  function TimedeltaStr(ms: int): string
  {
    TimedeltaText(ms / 86400000, Parts(ms % 86400000))
  }

  /** `timedelta.__str__` for a day count and the time within the day. */
  function TimedeltaText(days: int, c: Clock): string
  {
    DayPrefix(days) + NatToString(c.hours) + ":" + Pad(c.minutes, 2) + ":" + Pad(c.seconds, 2)
      + (if c.millis != 0 then "." + Pad(c.millis * 1000, 6) else "")
  }

  /** `"%d day%s, "` in front of a non-zero day count. */
  function DayPrefix(days: int): string
  {
    if days != 0 then IntToString(days) + " day" + (if days != 1 && days != -1 then "s" else "") + ", " else ""
  }

  /** The slicing, replacing and zero-filling of `format_time`. */
  function Reformat(s: string): string
  {
    ZFill(ReplaceChar(DropLast3(s), '.', ','), 12)
  }

  /** `format_time` as written: drop the last three characters of the
      `timedelta` string, turn the dot into a comma, zero-fill to 12. */
  function FormatTimeAsWritten(ms: int): string
  {
    Reformat(TimedeltaStr(ms))
  }

  /** Minutes and seconds below 60, milliseconds below 1000. */
  predicate ValidClock(c: Clock)
  {
    c.minutes < 60 && c.seconds < 60 && c.millis < 1000
  }

  /** `HH:MM:SS,mmm`. */
  function ClockText(c: Clock): string
  {
    Fields(Pad(c.hours, 2), Pad(c.minutes, 2), Pad(c.seconds, 2), Pad(c.millis, 3))
  }

  /** Four fields joined by the SRT separators. */
  function Fields(h: string, m: string, s: string, f: string): string
  {
    h + ":" + m + ":" + s + "," + f
  }

  /** With two-character minutes and seconds and three-character
      milliseconds, each field sits at a fixed place counted from the end. */
  lemma FieldsAt(h: string, m: string, s: string, f: string)
    requires |m| == 2 && |s| == 2 && |f| == 3
    ensures var t := Fields(h, m, s, f);
            && |t| == |h| + 10
            && t[..|t| - 10] == h && t[|t| - 9..|t| - 7] == m
            && t[|t| - 6..|t| - 4] == s && t[|t| - 3..] == f
            && t[|t| - 10] == ':' && t[|t| - 7] == ':' && t[|t| - 4] == ','
  {
    var t := Fields(h, m, s, f);
    assert t == h + (":" + m + ":" + s + "," + f);
  }

  /** The SRT timestamp `format_time` is meant to print; a negative time
      gets a minus sign. */
  function FormatTime(ms: int): string
  {
    (if ms < 0 then "-" else "") + ClockText(Parts(if ms < 0 then -ms else ms))
  }

  /** Reads `HH:MM:SS,mmm` (two or more hour digits) back into milliseconds. */
  function ParseClock(t: string): Option<nat>
  {
    if |t| < 12 then None
    else
      var h := t[..|t| - 10];
      var m := t[|t| - 9..|t| - 7];
      var s := t[|t| - 6..|t| - 4];
      var f := t[|t| - 3..];
      if AllDigits(h) && AllDigits(m) && AllDigits(s) && AllDigits(f)
         && t[|t| - 10] == ':' && t[|t| - 7] == ':' && t[|t| - 4] == ','
      then Some(ClockValue(DigitsValue(h), DigitsValue(m), DigitsValue(s), DigitsValue(f)))
      else None
  }

  /** Reads a timestamp with an optional minus sign. */
  function ParseTime(t: string): Option<int>
  {
    if t != [] && t[0] == '-' then
      match ParseClock(t[1..])
      case Some(v) => Some(-(v as int))
      case None => None
    else
      match ParseClock(t)
      case Some(v) => Some(v)
      case None => None
  }

  lemma {:induction false} NatToStringShort(n: nat)
    ensures n < 10 ==> |NatToString(n)| == 1
    ensures n < 100 ==> |NatToString(n)| <= 2
    ensures n < 1000 ==> |NatToString(n)| <= 3
  {
    if n >= 10 {
      NatToStringShort(n / 10);
    }
  }

  /** Leading zeros do not change a number's value. */
  lemma {:induction false} LeadingZeros(k: nat, s: string)
    requires AllDigits(s)
    ensures AllDigits(Zeros(k) + s)
    ensures DigitsValue(Zeros(k) + s) == DigitsValue(s)
    decreases |s|, k
  {
    var z := Zeros(k) + s;
    if s == [] {
      assert z == Zeros(k);
      if k > 0 {
        LeadingZeros(k - 1, []);
        assert z[..|z| - 1] == Zeros(k - 1) + [];
      }
    } else {
      var init := s[..|s| - 1];
      LeadingZeros(k, init);
      assert z[..|z| - 1] == Zeros(k) + init;
    }
  }

  /** A padded number reads back as the number. */
  lemma PadValue(n: nat, w: nat)
    ensures AllDigits(Pad(n, w))
    ensures DigitsValue(Pad(n, w)) == n
  {
    NatToStringRoundTrip(n);
    LeadingZeros(|Pad(n, w)| - |NatToString(n)|, NatToString(n));
  }

  /** The four fields sit at fixed places counted from the end. */
  lemma ClockFields(c: Clock)
    requires ValidClock(c)
    ensures var t := ClockText(c);
            && |t| >= 12
            && t[..|t| - 10] == Pad(c.hours, 2)
            && t[|t| - 9..|t| - 7] == Pad(c.minutes, 2)
            && t[|t| - 6..|t| - 4] == Pad(c.seconds, 2)
            && t[|t| - 3..] == Pad(c.millis, 3)
            && t[|t| - 10] == ':' && t[|t| - 7] == ':' && t[|t| - 4] == ','
  {
    NatToStringShort(c.minutes);
    NatToStringShort(c.seconds);
    NatToStringShort(c.millis);
    FieldsAt(Pad(c.hours, 2), Pad(c.minutes, 2), Pad(c.seconds, 2), Pad(c.millis, 3));
  }

  /** Four digit fields of the right widths read back as their values. */
  lemma FieldsParse(h: string, m: string, s: string, f: string)
    requires |h| >= 2 && |m| == 2 && |s| == 2 && |f| == 3
    requires AllDigits(h) && AllDigits(m) && AllDigits(s) && AllDigits(f)
    ensures ParseClock(Fields(h, m, s, f)) == Some(ClockValue(DigitsValue(h), DigitsValue(m), DigitsValue(s), DigitsValue(f)))
  {
    FieldsAt(h, m, s, f);
  }

  /** Printing a clock and reading it back gives its value. */
  lemma ClockRoundTrip(c: Clock)
    requires ValidClock(c)
    ensures ParseClock(ClockText(c)) == Some(ClockValue(c.hours, c.minutes, c.seconds, c.millis))
  {
    NatToStringShort(c.minutes);
    NatToStringShort(c.seconds);
    NatToStringShort(c.millis);
    PadValue(c.hours, 2);
    PadValue(c.minutes, 2);
    PadValue(c.seconds, 2);
    PadValue(c.millis, 3);
    FieldsParse(Pad(c.hours, 2), Pad(c.minutes, 2), Pad(c.seconds, 2), Pad(c.millis, 3));
  }

  lemma ClockUnsigned(c: Clock)
    requires ValidClock(c)
    ensures ClockText(c) != [] && ClockText(c)[0] != '-'
  {
    var t := ClockText(c);
    ClockFields(c);
    PadValue(c.hours, 2);
    assert t[0] == t[..|t| - 10][0];
  }

  lemma ParseNegative(t: string)
    requires ParseClock(t).Some?
    ensures ParseTime("-" + t) == Some(-(ParseClock(t).value as int))
  {
    assert ("-" + t)[1..] == t;
  }

  lemma ParseUnsigned(t: string)
    requires t != [] && t[0] != '-' && ParseClock(t).Some?
    ensures ParseTime(t) == Some(ParseClock(t).value as int)
  {
  }

  lemma NegativeRoundTrip(c: Clock)
    requires ValidClock(c)
    ensures ParseTime("-" + ClockText(c)) == Some(-(ClockValue(c.hours, c.minutes, c.seconds, c.millis) as int))
  {
    ClockRoundTrip(c);
    ParseNegative(ClockText(c));
  }

  lemma PositiveRoundTrip(c: Clock)
    requires ValidClock(c)
    ensures ParseTime(ClockText(c)) == Some(ClockValue(c.hours, c.minutes, c.seconds, c.millis) as int)
  {
    ClockRoundTrip(c);
    ClockUnsigned(c);
    ParseUnsigned(ClockText(c));
  }

  /** Printing a time and reading it back gives the time. */
  lemma FormatTimeRoundTrip(ms: int)
    ensures ParseTime(FormatTime(ms)) == Some(ms)
  {
    var n: nat := if ms < 0 then -ms else ms;
    var c := Parts(n);
    PartsTotal(n);
    if ms < 0 {
      NegativeRoundTrip(c);
    } else {
      PositiveRoundTrip(c);
      assert FormatTime(ms) == ClockText(c);
    }
  }

  /** Distinct times get distinct timestamps. */
  lemma FormatTimeInjective(a: int, b: int)
    requires FormatTime(a) == FormatTime(b)
    ensures a == b
  {
    FormatTimeRoundTrip(a);
    FormatTimeRoundTrip(b);
  }

  /** Below 100 hours a timestamp is exactly 12 characters. */
  lemma FormatTimeWidth(ms: nat)
    requires ms < 360000000
    ensures |FormatTime(ms)| == 12
  {
    ClockFields(Parts(ms));
    NatToStringShort(Parts(ms).hours);
  }

  lemma NatToStringTimesTen(n: nat)
    requires n >= 1
    ensures NatToString(10 * n) == NatToString(n) + "0"
  {
    assert (10 * n) / 10 == n && (10 * n) % 10 == 0;
  }

  /** Six-digit microseconds that are whole milliseconds: the millisecond
      digits followed by "000". */
  lemma MicrosPad(f: nat)
    requires 1 <= f < 1000
    ensures Pad(f * 1000, 6) == Pad(f, 3) + "000"
  {
    NatToStringTimesTen(f);
    NatToStringTimesTen(f * 10);
    NatToStringTimesTen(f * 100);
    assert NatToString(f * 1000) == NatToString(f) + "000";
    NatToStringShort(f);
    var x := NatToString(f);
    assert Zeros(6 - |x| - 3) == Zeros(3 - |x|);
  }

  predicate NoDot(s: string)
  {
    forall i :: 0 <= i < |s| ==> s[i] != '.'
  }

  /** Dropping the three zeros and replacing the one dot. */
  lemma ReformatDot(a: string, fr: string)
    requires NoDot(a) && NoDot(fr) && |fr| == 3
    ensures Reformat(a + "." + (fr + "000")) == ZFill(a + "," + fr, 12)
  {
    var cut := a + "." + fr;
    assert a + "." + (fr + "000") == cut + "000";
    assert DropLast3(cut + "000") == cut;
    assert ReplaceChar(cut, '.', ',') == a + "," + fr;
  }

  /** Zero-filling to 12 pads the one- or two-digit hours field to two. */
  lemma ZFillHours(hh: string, mm: string, ss: string, fr: string)
    requires 1 <= |hh| <= 2 && |mm| == 2 && |ss| == 2 && |fr| == 3 && AllDigits(hh)
    ensures ZFill(Fields(hh, mm, ss, fr), 12) == Fields(ZeroPad(hh, 2), mm, ss, fr)
  {
    var tail := ":" + mm + ":" + ss + "," + fr;
    var t := Fields(hh, mm, ss, fr);
    assert t == hh + tail && |tail| == 10;
    assert Fields(ZeroPad(hh, 2), mm, ss, fr) == ZeroPad(hh, 2) + tail;
    if |hh| == 2 {
      assert ZeroPad(hh, 2) == hh;
    } else {
      assert t[0] == hh[0];
      assert ZFill(t, 12) == Zeros(1) + (hh + tail);
      assert Zeros(1) + (hh + tail) == (Zeros(1) + hh) + tail;
    }
  }

  /** `H:MM:SS.mmm000` becomes `HH:MM:SS,mmm`. */
  lemma ReformatFraction(hh: string, mm: string, ss: string, fr: string)
    requires 1 <= |hh| <= 2 && |mm| == 2 && |ss| == 2 && |fr| == 3
    requires AllDigits(hh) && NoDot(mm) && NoDot(ss) && NoDot(fr)
    ensures Reformat(hh + ":" + mm + ":" + ss + "." + (fr + "000")) == Fields(ZeroPad(hh, 2), mm, ss, fr)
  {
    var a := hh + ":" + mm + ":" + ss;
    assert NoDot(a);
    ReformatDot(a, fr);
    assert a + "," + fr == Fields(hh, mm, ss, fr);
    ZFillHours(hh, mm, ss, fr);
  }

  /** `H:MM:SS` loses its last three characters, ":SS". */
  lemma ReformatWhole(hh: string, mm: string, ss: string)
    requires |mm| == 2 && |ss| == 2 && NoDot(hh) && NoDot(mm)
    ensures Reformat(hh + ":" + mm + ":" + ss) == ZFill(hh + ":" + mm, 12)
  {
    var hm := hh + ":" + mm;
    assert hh + ":" + mm + ":" + ss == hm + (":" + ss);
    assert DropLast3(hm + (":" + ss)) == hm;
    assert ReplaceChar(hm, '.', ',') == hm;
  }

  lemma PadDigits(n: nat, w: nat)
    ensures AllDigits(Pad(n, w)) && NoDot(Pad(n, w))
  {
    PadValue(n, w);
  }

  /** A clock under 100 hours with milliseconds: the slicing removes the
      three trailing zeros of the microseconds, as intended. */
  lemma ReformatWithMillis(c: Clock)
    requires ValidClock(c) && c.hours < 100 && c.millis != 0
    ensures Reformat(TimedeltaText(0, c)) == ClockText(c)
  {
    NatToStringShort(c.hours);
    NatToStringShort(c.minutes);
    NatToStringShort(c.seconds);
    NatToStringShort(c.millis);
    MicrosPad(c.millis);
    PadDigits(c.minutes, 2);
    PadDigits(c.seconds, 2);
    PadDigits(c.millis, 3);
    var hh := NatToString(c.hours);
    assert TimedeltaText(0, c) == hh + ":" + Pad(c.minutes, 2) + ":" + Pad(c.seconds, 2) + "." + (Pad(c.millis, 3) + "000");
    ReformatFraction(hh, Pad(c.minutes, 2), Pad(c.seconds, 2), Pad(c.millis, 3));
  }

  /** A clock with no milliseconds: the slicing removes ":SS" instead. */
  lemma ReformatWholeSecond(c: Clock)
    requires ValidClock(c) && c.millis == 0
    ensures Reformat(TimedeltaText(0, c)) == ZFill(NatToString(c.hours) + ":" + Pad(c.minutes, 2), 12)
  {
    NatToStringShort(c.minutes);
    NatToStringShort(c.seconds);
    PadDigits(c.minutes, 2);
    var hh := NatToString(c.hours);
    assert NoDot(hh);
    assert TimedeltaText(0, c) == hh + ":" + Pad(c.minutes, 2) + ":" + Pad(c.seconds, 2);
    ReformatWhole(hh, Pad(c.minutes, 2), Pad(c.seconds, 2));
  }

  /** The whole-second output is never a timestamp: it has no comma. */
  lemma NoComma(c: Clock)
    ensures ',' !in ZFill(NatToString(c.hours) + ":" + Pad(c.minutes, 2), 12)
  {
    PadDigits(c.minutes, 2);
    var t := NatToString(c.hours) + ":" + Pad(c.minutes, 2);
    assert forall i :: 0 <= i < |t| ==> t[i] != ',';
    if |t| < 12 {
      var z := Zeros(12 - |t|);
      assert ZFill(t, 12) == z + t;
      assert forall i :: 0 <= i < |z + t| ==> (z + t)[i] != ',';
    }
  }

  /** Less than a day splits into no days and fewer than 24 hours. */
  lemma WithinADay(ms: int)
    requires 0 <= ms < 86400000
    ensures ms / 86400000 == 0 && ms % 86400000 == ms
    ensures Parts(ms).hours < 24 && Parts(ms).millis == ms % 1000
  {
    var secs := ms / 1000;
    var mins := secs / 60;
    assert secs < 86400;
    assert mins < 1440;
  }

  /** Within a day, for a time that is not a whole second, the code prints
      the intended timestamp. */
  lemma FormatTimeAgrees(ms: int)
    requires 0 <= ms < 86400000 && ms % 1000 != 0
    ensures FormatTimeAsWritten(ms) == FormatTime(ms)
  {
    WithinADay(ms);
    ReformatWithMillis(Parts(ms));
  }

  /** Within a day, for a whole-second time, the slice removes the seconds
      field (":SS") instead of microseconds: only hours and minutes are
      printed, padded with zeros to 12 characters, and never the intended
      timestamp. */
  lemma FormatTimeDropsSeconds(ms: int)
    requires 0 <= ms < 86400000 && ms % 1000 == 0
    ensures FormatTimeAsWritten(ms) == ZFill(NatToString(Parts(ms).hours) + ":" + Pad(Parts(ms).minutes, 2), 12)
    ensures FormatTimeAsWritten(ms) != FormatTime(ms)
  {
    var c := Parts(ms);
    WithinADay(ms);
    ReformatWholeSecond(c);
    NoComma(c);
    ClockFields(c);
    var t := ClockText(c);
    assert FormatTime(ms) == t;
    assert t[|t| - 4] in t;
  }

  /** Five seconds print as "000000000:00"... */
  lemma FiveSecondsAsWritten()
    ensures FormatTimeAsWritten(5000) == "000000000:00"
  {
    assert Parts(5000) == Clock(0, 0, 5, 0);
    FormatTimeDropsSeconds(5000);
    assert NatToString(0) == "0";
    assert Pad(0, 2) == "00";
    assert "0" + ":" + "00" == "0:00";
    assert ZFill("0:00", 12) == "000000000:00";
  }

  /** ... where "00:00:05,000" is meant. */
  lemma FiveSecondsIntended()
    ensures FormatTime(5000) == "00:00:05,000"
  {
    assert Parts(5000) == Clock(0, 0, 5, 0);
    FiveSecondsText();
  }

  lemma FiveSecondsText()
    ensures ClockText(Clock(0, 0, 5, 0)) == "00:00:05,000"
  {
    assert NatToString(0) == "0" && NatToString(5) == "5";
    assert Pad(0, 2) == "00" && Pad(5, 2) == "05" && Pad(0, 3) == "000";
  }

  /** `[words[i:i + n] for i in range(0, len(words), n)]`. */
  function Chunks(words: seq<string>, n: nat): (r: seq<seq<string>>)
    requires n > 0
    ensures forall k :: 0 <= k < |r| ==> 0 < |r[k]| <= n
    ensures forall k :: 0 <= k < |r| - 1 ==> |r[k]| == n
    ensures words == [] <==> r == []
    decreases |words|
  {
    if words == [] then []
    else if |words| <= n then [words]
    else [words[..n]] + Chunks(words[n..], n)
  }

  function Flatten(chunks: seq<seq<string>>): seq<string>
  {
    if chunks == [] then [] else chunks[0] + Flatten(chunks[1..])
  }

  /** The chunks put back together are the word list. */
  lemma {:induction false} ChunksFlatten(words: seq<string>, n: nat)
    requires n > 0
    ensures Flatten(Chunks(words, n)) == words
    decreases |words|
  {
    if |words| > n {
      ChunksFlatten(words[n..], n);
      assert words == words[..n] + words[n..];
    }
  }

  /** There are `ceil(len(words) / n)` chunks: the fewest that hold all
      the words `n` at a time. */
  lemma {:induction false} ChunksCount(words: seq<string>, n: nat)
    requires n > 0
    ensures var m := |Chunks(words, n)|;
            (m - 1) * n < |words| <= m * n
    decreases |words|
  {
    if |words| > n {
      var m' := |Chunks(words[n..], n)|;
      ChunksCount(words[n..], n);
      assert (m' + 1) * n == m' * n + n;
      assert m' * n == (m' - 1) * n + n;
    }
  }

  /** One subtitle line: its number, its time span and its words. */
  datatype Cue = Cue(index: nat, startMs: int, endMs: int, words: seq<string>)

  /** `int(n * avg_word_duration)` with `avg_word_duration = total / count`:
      the share of `n` words. Both are positive, so the truncation is a
      floor, computed here on exact numbers. */
  function ShareOf(total: int, count: int): nat -> int
    requires count > 0
  {
    n => (n * total) / count
  }

  /** The successive values of `current_start` in the loop of lines 25-42,
      then the final end: chunk `k` runs from `b[k]` to `b[k + 1]`. Each
      chunk ends its share after it starts, except the last, which ends at
      `endMs`. */
  function Boundaries(chunks: seq<seq<string>>, start: int, endMs: int, share: nat -> int): (b: seq<int>)
    ensures |b| == |chunks| + 1 && b[0] == start
    ensures chunks != [] ==> b[|chunks|] == endMs
    decreases |chunks|
  {
    if chunks == [] then [start]
    else if |chunks| == 1 then [start, endMs]
    else [start] + Boundaries(chunks[1..], start + share(|chunks[0]|), endMs, share)
  }

  /** The lines of the loop, numbered from `index` on. */
  function Timeline(chunks: seq<seq<string>>, index: nat, start: int, endMs: int, share: nat -> int): (r: seq<Cue>)
    ensures |r| == |chunks|
    ensures forall k :: 0 <= k < |r| ==> r[k].index == index + k && r[k].words == chunks[k]
    ensures r != [] ==> r[0].startMs == start && r[|r| - 1].endMs == endMs
    ensures Contiguous(r)
  {
    var b := Boundaries(chunks, start, endMs, share);
    seq(|chunks|, k requires 0 <= k < |chunks| => Cue(index + k, b[k], b[k + 1], chunks[k]))
  }

  /** `generate_srt_entries_from_text` before formatting, on the words of
      `translated_text.strip().split()`: nothing for no words or an empty or
      backwards span. A step of zero in `range` is an error in the source;
      a negative one gives no chunks. */
  function CuesOf(words: seq<string>, startMs: int, endMs: int, maxWords: int): seq<Cue>
    requires maxWords != 0
  {
    if |words| == 0 || endMs - startMs <= 0 || maxWords < 0 then []
    else Timeline(Chunks(words, maxWords), 1, startMs, endMs, ShareOf(endMs - startMs, |words|))
  }

  function Cues(text: string, startMs: int, endMs: int, maxWords: int): seq<Cue>
    requires maxWords != 0
  {
    CuesOf(Split(Strip(text)), startMs, endMs, maxWords)
  }

  /** Each line starts where the one before it ends. */
  predicate Contiguous(cues: seq<Cue>)
  {
    forall k, m :: 0 <= k < |cues| && m == k + 1 && m < |cues| ==> cues[m].startMs == cues[k].endMs
  }

  /** Every chunk but the last lasts its share. */
  lemma {:induction false} BoundaryStep(chunks: seq<seq<string>>, start: int, endMs: int, share: nat -> int, k: nat)
    requires k + 1 < |chunks|
    ensures var b := Boundaries(chunks, start, endMs, share);
            b[k + 1] - b[k] == share(|chunks[k]|)
    decreases k
  {
    if k > 0 {
      BoundaryStep(chunks[1..], start + share(|chunks[0]|), endMs, share, k - 1);
      assert chunks[1..][k - 1] == chunks[k];
    }
  }

  /** Every line but the last lasts its share. */
  lemma TimelineShares(chunks: seq<seq<string>>, index: nat, start: int, endMs: int, share: nat -> int)
    ensures var r := Timeline(chunks, index, start, endMs, share);
            forall k :: 0 <= k < |r| - 1 ==> r[k].endMs - r[k].startMs == share(|chunks[k]|)
  {
    forall k | 0 <= k < |chunks| - 1
      ensures var b := Boundaries(chunks, start, endMs, share); b[k + 1] - b[k] == share(|chunks[k]|)
    {
      BoundaryStep(chunks, start, endMs, share, k);
    }
  }

  /** A line's share is at most its exact part of the time left, so what
      remains still covers the remaining words. */
  lemma ShareStep(c: nat, rest: nat, room: int, total: int, count: int)
    requires total > 0 && count > 0 && room * count >= (c + rest) * total
    ensures 0 <= ShareOf(total, count)(c) <= room
    ensures (room - ShareOf(total, count)(c)) * count >= rest * total
  {
    var q := c * total;
    var share := q / count;
    assert ShareOf(total, count)(c) == share;
    assert q == share * count + q % count;
    assert share * count <= q;
    assert (room - share) * count == room * count - share * count;
    assert (c + rest) * total == q + rest * total;
    assert rest * total >= 0;
  }

  /** The values of `b` never decrease and stay within `[lo, hi]`. */
  predicate Ordered(b: seq<int>, lo: int, hi: int)
  {
    forall i, j :: 0 <= i <= j < |b| ==> lo <= b[i] <= b[j] <= hi
  }

  lemma ConsOrdered(x: int, rest: seq<int>, lo: int, hi: int)
    requires lo <= x && Ordered(rest, x, hi) && x <= hi
    ensures Ordered([x] + rest, lo, hi)
  {
    var b := [x] + rest;
    forall i, j | 0 <= i <= j < |b| ensures lo <= b[i] <= b[j] <= hi {
      if i > 0 {
        assert b[i] == rest[i - 1] && b[j] == rest[j - 1];
      } else if j > 0 {
        assert b[j] == rest[j - 1];
      }
    }
  }

  /** While the time left covers the words left at `total / count` per
      word, the boundaries never go back and stay between `start` and
      `endMs`. */
  lemma {:induction false} BoundariesOrdered(chunks: seq<seq<string>>, start: int, endMs: int, total: int, count: int)
    requires count > 0 && total > 0 && start <= endMs
    requires (endMs - start) * count >= |Flatten(chunks)| * total
    ensures Ordered(Boundaries(chunks, start, endMs, ShareOf(total, count)), start, endMs)
    decreases |chunks|
  {
    var share := ShareOf(total, count);
    if |chunks| > 1 {
      var c := |chunks[0]|;
      var end := start + share(c);
      assert |Flatten(chunks)| == c + |Flatten(chunks[1..])|;
      ShareStep(c, |Flatten(chunks[1..])|, endMs - start, total, count);
      assert endMs - end == (endMs - start) - share(c);
      BoundariesOrdered(chunks[1..], end, endMs, total, count);
      ConsOrdered(start, Boundaries(chunks[1..], end, endMs, share), start, endMs);
    } else if |chunks| == 1 {
      ConsOrdered(start, [endMs], start, endMs);
    }
  }

  /** Every line lies within `[lo, hi]`. */
  predicate Within(cues: seq<Cue>, lo: int, hi: int)
  {
    forall k :: 0 <= k < |cues| ==> lo <= cues[k].startMs <= cues[k].endMs <= hi
  }

  /** Under the same condition every line lies between `start` and
      `endMs` and starts no later than it ends. */
  lemma TimelineBounded(chunks: seq<seq<string>>, index: nat, start: int, endMs: int, total: int, count: int)
    requires count > 0 && total > 0 && start <= endMs
    requires (endMs - start) * count >= |Flatten(chunks)| * total
    ensures Within(Timeline(chunks, index, start, endMs, ShareOf(total, count)), start, endMs)
  {
    BoundariesOrdered(chunks, start, endMs, total, count);
    var b := Boundaries(chunks, start, endMs, ShareOf(total, count));
    var r := Timeline(chunks, index, start, endMs, ShareOf(total, count));
    forall k | 0 <= k < |r| ensures start <= r[k].startMs <= r[k].endMs <= endMs {
      assert r[k].startMs == b[k] && r[k].endMs == b[k + 1];
    }
  }

  /** No lines exactly when there are no words or the span is empty or
      backwards (or the step is negative). */
  lemma CuesEmpty(words: seq<string>, startMs: int, endMs: int, maxWords: int)
    requires maxWords != 0
    ensures CuesOf(words, startMs, endMs, maxWords) == [] <==> words == [] || endMs <= startMs || maxWords < 0
  {
  }

  /** The lines are numbered 1..n, hold at most `maxWords` words and
      exactly that many on all but the last, and their words in order are
      the input words. */
  lemma CuesWords(words: seq<string>, startMs: int, endMs: int, maxWords: int)
    requires maxWords != 0
    requires CuesOf(words, startMs, endMs, maxWords) != []
    ensures var r := CuesOf(words, startMs, endMs, maxWords);
            && maxWords > 0
            && |r| == |Chunks(words, maxWords)|
            && (forall k :: 0 <= k < |r| ==> r[k].index == k + 1 && 0 < |r[k].words| <= maxWords)
            && (forall k :: 0 <= k < |r| - 1 ==> |r[k].words| == maxWords)
            && Flatten(Chunks(words, maxWords)) == words
            && (forall k :: 0 <= k < |r| ==> r[k].words == Chunks(words, maxWords)[k])
  {
    ChunksFlatten(words, maxWords);
  }

  /** The first line starts at `startMs`, each starts where the previous
      ended, and the last ends at `endMs`. */
  lemma CuesContiguous(words: seq<string>, startMs: int, endMs: int, maxWords: int)
    requires maxWords != 0
    requires CuesOf(words, startMs, endMs, maxWords) != []
    ensures var r := CuesOf(words, startMs, endMs, maxWords);
            && r[0].startMs == startMs && r[|r| - 1].endMs == endMs
            && Contiguous(r)
  {
  }

  /** Every line but the last lasts its share of the span by word count,
      `int(len(chunk) * (end_ms - start_ms) / len(words))`. */
  lemma CuesShares(words: seq<string>, startMs: int, endMs: int, maxWords: int)
    requires maxWords != 0
    ensures var r := CuesOf(words, startMs, endMs, maxWords);
            forall k :: 0 <= k < |r| - 1 ==> r[k].endMs - r[k].startMs == (|r[k].words| * (endMs - startMs)) / |words|
  {
    if CuesOf(words, startMs, endMs, maxWords) != [] {
      TimelineShares(Chunks(words, maxWords), 1, startMs, endMs, ShareOf(endMs - startMs, |words|));
    }
  }

  /** No boundary leaves `[startMs, endMs]`, and no line ends before it
      starts. */
  lemma CuesWithin(words: seq<string>, startMs: int, endMs: int, maxWords: int)
    requires maxWords != 0
    ensures Within(CuesOf(words, startMs, endMs, maxWords), startMs, endMs)
  {
    if CuesOf(words, startMs, endMs, maxWords) != [] {
      ChunksFlatten(words, maxWords);
      SpanWithin(Chunks(words, maxWords), startMs, endMs, |words|);
    }
  }

  lemma SpanWithin(chunks: seq<seq<string>>, startMs: int, endMs: int, count: int)
    requires count == |Flatten(chunks)| > 0 && startMs < endMs
    ensures Within(Timeline(chunks, 1, startMs, endMs, ShareOf(endMs - startMs, count)), startMs, endMs)
  {
    var total := endMs - startMs;
    assert total * count >= count * total;
    TimelineBounded(chunks, 1, startMs, endMs, total, count);
  }

  /** One SRT entry as the source stores it. */
  datatype SrtEntry = SrtEntry(index: nat, start: string, end: string, text: string)

  /** The entry of one line, with the intended timestamps. */
  function Entry(c: Cue): (e: SrtEntry)
    ensures ParseTime(e.start) == Some(c.startMs) && ParseTime(e.end) == Some(c.endMs)
  {
    FormatTimeRoundTrip(c.startMs);
    FormatTimeRoundTrip(c.endMs);
    SrtEntry(c.index, FormatTime(c.startMs), FormatTime(c.endMs), Join(c.words, " "))
  }

  /** The `ValueError` that `range` raises for a step of zero. */
  datatype SrtError = ZeroStep

  /** `generate_srt_entries_from_text`: the early `[]` for no words or an
      empty or backwards span comes before the chunking, so a zero
      `max_words_per_line` fails only when there is something to chunk. */
  function SrtEntries(text: string, startMs: int, endMs: int, maxWords: int): (r: Result<seq<SrtEntry>, SrtError>)
    ensures r.Err? <==> maxWords == 0 && Split(Strip(text)) != [] && startMs < endMs
    ensures r.Ok? && maxWords == 0 ==> r.value == []
    ensures r.Ok? && maxWords != 0 ==>
              var cues := Cues(text, startMs, endMs, maxWords);
              |r.value| == |cues| &&
              forall k :: 0 <= k < |r.value| ==>
                && r.value[k].index == cues[k].index
                && r.value[k].text == Join(cues[k].words, " ")
                && ParseTime(r.value[k].start) == Some(cues[k].startMs)
                && ParseTime(r.value[k].end) == Some(cues[k].endMs)
  {
    if maxWords == 0 then
      if Split(Strip(text)) == [] || endMs - startMs <= 0 then Ok([]) else Err(ZeroStep)
    else
      var cues := Cues(text, startMs, endMs, maxWords);
      Ok(seq(|cues|, k requires 0 <= k < |cues| => Entry(cues[k])))
  }
}
