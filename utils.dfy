/**
 * The subtitle side of the transcription helpers: `format_time`, which
 * writes a time as `HH:MM:SS,mmm`, and `format_to_srt`, which turns the
 * recognised segments into numbered SubRip cues.
 *
 * Times are whole milliseconds (a `nat`) instead of floating-point seconds.
 */
module Utils {
  import opened Wrappers
  import Strings

  /** One recognised segment: its start and end time in milliseconds, and its text. */
  datatype Segment = Segment(start: nat, end: nat, text: string)

  /**
   * The fields `format_time` prints: whole hours, whole minutes within the
   * hour, and the time within the minute (in milliseconds, so the seconds
   * with their fraction).
   */
  datatype Clock = Clock(hours: nat, minutes: nat, secondsMs: nat)

  lemma {:induction false} NestedMod(ms: nat)
    ensures (ms % 3_600_000) % 60_000 == ms % 60_000
  {
    var h := ms / 3_600_000;
    var rem := ms % 3_600_000;
    assert ms == 60_000 * (60 * h) + rem;
    assert (60_000 * (60 * h) + rem) % 60_000 == rem % 60_000;
  }

  /** `hours = seconds // 3600`, `minutes = (seconds % 3600) // 60`, `seconds = seconds % 60`. */
  function Decompose(ms: nat): (c: Clock)
    ensures c.minutes < 60 && c.secondsMs < 60_000
    ensures c.hours * 3_600_000 + c.minutes * 60_000 + c.secondsMs == ms
  {
    NestedMod(ms);
    Clock(ms / 3_600_000, (ms % 3_600_000) / 60_000, ms % 60_000)
  }

  /** `f"{s:06.3f}"` for a time of `ms` milliseconds: whole seconds on at least two digits, a point, three decimals. */
  function FixedSeconds(ms: nat): string
  {
    Strings.ZeroPad(ms / 1000, 2) + "." + Strings.ZeroPad(ms % 1000, 3)
  }

  /** `format_time`: `HH:MM:SS.mmm` with the decimal point then replaced by a comma. */
  function FormatTime(ms: nat): string
  {
    var c := Decompose(ms);
    Strings.ReplaceChar(
      Strings.ZeroPad(c.hours, 2) + ":" + Strings.ZeroPad(c.minutes, 2) + ":" + FixedSeconds(c.secondsMs),
      '.', ',')
  }

  /**
   * The fields of `FormatTime(ms)`: zero-padded hours (two digits below 100
   * hours), two-digit minutes and seconds, a comma, three-digit milliseconds;
   * no decimal point is left.
   */
  lemma {:induction false} FormatTimeLayout(ms: nat)
    ensures var c := Decompose(ms);
      FormatTime(ms) == Strings.ZeroPad(c.hours, 2) + ":" + Strings.ZeroPad(c.minutes, 2) + ":"
                        + Strings.ZeroPad(c.secondsMs / 1000, 2) + "," + Strings.ZeroPad(c.secondsMs % 1000, 3)
    ensures '.' !in FormatTime(ms)
    ensures Decompose(ms).hours < 100 ==> |FormatTime(ms)| == 12
  {
    var c := Decompose(ms);
    var hh, mm := Strings.ZeroPad(c.hours, 2), Strings.ZeroPad(c.minutes, 2);
    var ss, xxx := Strings.ZeroPad(c.secondsMs / 1000, 2), Strings.ZeroPad(c.secondsMs % 1000, 3);
    NoPointInDigits(hh);
    NoPointInDigits(mm);
    NoPointInDigits(ss);
    NoPointInDigits(xxx);
    var p := hh + ":" + mm + ":" + ss;
    assert hh + ":" + mm + ":" + FixedSeconds(c.secondsMs) == p + "." + xxx;
    Strings.ReplaceConcat(p + ".", xxx, '.', ',');
    Strings.ReplaceConcat(p, ".", '.', ',');
    Strings.ReplaceAbsent(p, '.', ',');
    Strings.ReplaceAbsent(xxx, '.', ',');
  }

  lemma {:induction false} NoPointInDigits(s: string)
    requires Strings.AllDigits(s)
    ensures '.' !in s && ':' !in s && ',' !in s
  {
    forall k | 0 <= k < |s|
      ensures s[k] != '.' && s[k] != ':' && s[k] != ','
    {
      assert Strings.IsDigit(s[k]);
    }
  }

  /**
   * Reads a time written as `H:M:S,f` (fields of decimal digits) back into
   * milliseconds: the reference inverse `FormatTime` is checked against.
   * It splits at the colons, then the last field at the comma.
   */
  function ParseTime(t: string): Option<nat>
  {
    var fields := Strings.Split(t, ':');
    if |fields| != 3 then None
    else
      var secs := Strings.Split(fields[2], ',');
      if |secs| != 2 then None
      else if Strings.AllDigits(fields[0]) && Strings.AllDigits(fields[1])
              && Strings.AllDigits(secs[0]) && Strings.AllDigits(secs[1])
      then Some(Strings.DigitsValue(fields[0]) * 3_600_000 + Strings.DigitsValue(fields[1]) * 60_000
                + Strings.DigitsValue(secs[0]) * 1000 + Strings.DigitsValue(secs[1]))
      else None
  }

  /** `ParseTime` reads each field of a time laid out as `FormatTime` lays it out. */
  lemma {:induction false} ParseFields(hh: string, mm: string, ss: string, xxx: string)
    requires Strings.AllDigits(hh) && Strings.AllDigits(mm) && Strings.AllDigits(ss) && Strings.AllDigits(xxx)
    ensures ParseTime(hh + ":" + mm + ":" + ss + "," + xxx)
         == Some(Strings.DigitsValue(hh) * 3_600_000 + Strings.DigitsValue(mm) * 60_000
                 + Strings.DigitsValue(ss) * 1000 + Strings.DigitsValue(xxx))
  {
    NoPointInDigits(hh);
    NoPointInDigits(mm);
    NoPointInDigits(ss);
    NoPointInDigits(xxx);
    var secs := ss + "," + xxx;
    assert ':' !in secs;
    assert hh + ":" + mm + ":" + ss + "," + xxx == hh + [':'] + (mm + [':'] + secs);
    Strings.SplitAfterSep(hh, mm + [':'] + secs, ':');
    Strings.SplitAfterSep(mm, secs, ':');
    Strings.SplitNoSep(secs, ':');
    assert secs == ss + [','] + xxx;
    Strings.SplitAfterSep(ss, xxx, ',');
    Strings.SplitNoSep(xxx, ',');
    var t := hh + ":" + mm + ":" + ss + "," + xxx;
    assert Strings.Split(t, ':') == [hh, mm, secs];
    assert Strings.Split(secs, ',') == [ss, xxx];
  }

  /** Every formatted time reads back as the time it came from: the decomposition loses nothing. */
  lemma {:induction false} FormatTimeRoundTrip(ms: nat)
    ensures ParseTime(FormatTime(ms)) == Some(ms)
  {
    var c := Decompose(ms);
    var hh, mm := Strings.ZeroPad(c.hours, 2), Strings.ZeroPad(c.minutes, 2);
    var ss, xxx := Strings.ZeroPad(c.secondsMs / 1000, 2), Strings.ZeroPad(c.secondsMs % 1000, 3);
    assert FormatTime(ms) == hh + ":" + mm + ":" + ss + "," + xxx by {
      FormatTimeLayout(ms);
    }
    ParseFields(hh, mm, ss, xxx);
    assert Strings.DigitsValue(hh) * 3_600_000 + Strings.DigitsValue(mm) * 60_000
           + Strings.DigitsValue(ss) * 1000 + Strings.DigitsValue(xxx) == ms by {
      Strings.ZeroPadValue(c.hours, 2);
      Strings.ZeroPadValue(c.minutes, 2);
      Strings.ZeroPadValue(c.secondsMs / 1000, 2);
      Strings.ZeroPadValue(c.secondsMs % 1000, 3);
      assert c.secondsMs / 1000 * 1000 + c.secondsMs % 1000 == c.secondsMs;
    }
  }

  /** Distinct times never print the same. */
  lemma {:induction false} FormatTimeInjective(a: nat, b: nat)
    requires FormatTime(a) == FormatTime(b)
    ensures a == b
  {
    FormatTimeRoundTrip(a);
    FormatTimeRoundTrip(b);
  }

  /** The cue `f"{number}\n{start} --> {end}\n{text.strip()}\n"`. */
  function Cue(number: nat, seg: Segment): string
  {
    Strings.NatToString(number) + "\n" + FormatTime(seg.start) + " --> " + FormatTime(seg.end) + "\n"
    + Strings.Strip(seg.text) + "\n"
  }

  /**
   * `render(1, segs[0]), …, render(|segs|, segs[|segs| - 1])`: one item per
   * segment in input order, numbered `i + 1` for the `i` that `enumerate(segments)` gives.
   */
  function Numbered(segs: seq<Segment>, render: (nat, Segment) -> string): (items: seq<string>)
    ensures |items| == |segs|
    decreases |segs|
  {
    if segs == [] then [] else Numbered(segs[..|segs| - 1], render) + [render(|segs|, segs[|segs| - 1])]
  }

  /** Item `k` is segment `k`'s, numbered `k + 1`. */
  lemma {:induction false} NumberedAt(segs: seq<Segment>, render: (nat, Segment) -> string, k: nat)
    requires k < |segs|
    ensures Numbered(segs, render)[k] == render(k + 1, segs[k])
    decreases |segs|
  {
    var n := |segs|;
    if k < n - 1 {
      NumberedAt(segs[..n - 1], render, k);
    }
  }

  /** One more segment appends one more item and leaves the earlier ones alone. */
  lemma {:induction false} NumberedAppend(segs: seq<Segment>, s: Segment, render: (nat, Segment) -> string)
    ensures Numbered(segs + [s], render) == Numbered(segs, render) + [render(|segs| + 1, s)]
  {
    assert (segs + [s])[..|segs|] == segs;
  }

  /** The cues of the segments. */
  function Cues(segs: seq<Segment>): seq<string>
  {
    Numbered(segs, Cue)
  }

  /** Exactly one cue per segment: cue `k` is segment `k`'s, numbered `k + 1`. */
  lemma {:induction false} CuesAt(segs: seq<Segment>, k: nat)
    requires k < |segs|
    ensures |Cues(segs)| == |segs|
    ensures Cues(segs)[k] == Cue(k + 1, segs[k])
  {
    NumberedAt(segs, Cue, k);
  }

  /** `format_to_srt`'s result: the cues joined by `"\n"`. */
  function SrtText(segs: seq<Segment>): string
  {
    Strings.Join(Cues(segs), '\n')
  }

  /** `format_to_srt`: build the list of cues in a loop, then join it. */
  method FormatToSrt(segments: seq<Segment>) returns (srt: string)
    ensures srt == SrtText(segments)
  {
    var srtOutput: seq<string> := [];
    var i := 0;
    while i < |segments|
      invariant 0 <= i <= |segments|
      invariant srtOutput == Cues(segments[..i])
    {
      var segment := segments[i];
      var cue := Cue(i + 1, segment);
      CuesStep(segments, i);
      srtOutput := srtOutput + [cue];
      i := i + 1;
    }
    assert segments[..|segments|] == segments;
    srt := Strings.Join(srtOutput, '\n');
  }

  lemma {:induction false} CuesStep(segs: seq<Segment>, i: nat)
    requires i < |segs|
    ensures Cues(segs[..i + 1]) == Cues(segs[..i]) + [Cue(i + 1, segs[i])]
  {
    assert segs[..i + 1] == segs[..i] + [segs[i]];
    NumberedAppend(segs[..i], segs[i], Cue);
  }

  /** No segments give the empty string. */
  lemma SrtEmpty()
    ensures SrtText([]) == ""
  {
  }

  /** Every cue ends with its own newline. */
  lemma {:induction false} CueEndsWithNewline(number: nat, seg: Segment)
    ensures var cue := Cue(number, seg); |cue| >= 1 && cue[|cue| - 1] == '\n'
  {
  }

  /** The output holds one cue per segment: cue `i` (numbered `i + 1`) appears whole at its offset. */
  lemma {:induction false} SrtCueAt(segs: seq<Segment>, i: nat)
    requires i < |segs|
    ensures var t, cues := SrtText(segs), Cues(segs);
      var o := Strings.Offset(cues, i);
      && |cues| == |segs|
      && o + |cues[i]| <= |t|
      && t[o..o + |cues[i]|] == cues[i]
  {
    Strings.JoinAt(Cues(segs), '\n', i);
  }

  /**
   * Every cue after the first is preceded by a blank line: the previous
   * cue's own final newline, then the joining one.
   */
  lemma {:induction false} SrtBlankLineBefore(segs: seq<Segment>, i: nat)
    requires 0 < i < |segs|
    ensures var t, o := SrtText(segs), Strings.Offset(Cues(segs), i);
      2 <= o <= |t| && t[o - 2..o] == "\n\n"
  {
    var cues := Cues(segs);
    CuesEndWithNewline(segs, i - 1);
    Strings.JoinPlaced(cues, '\n', i);
  }

  /** Every cue in the list ends with its own newline. */
  lemma {:induction false} CuesEndWithNewline(segs: seq<Segment>, k: nat)
    requires k < |segs|
    ensures var cues := Cues(segs); |cues| == |segs| && |cues[k]| >= 1 && cues[k][|cues[k]| - 1] == '\n'
  {
    CuesAt(segs, k);
    CueEndsWithNewline(k + 1, segs[k]);
  }

  /** Adding a segment appends a blank-line separator and its cue, numbered after all earlier ones. */
  lemma {:induction false} SrtAppend(segs: seq<Segment>, s: Segment)
    ensures SrtText(segs + [s])
         == if segs == [] then Cue(1, s) else SrtText(segs) + "\n" + Cue(|segs| + 1, s)
  {
    NumberedAppend(segs, s, Cue);
    if segs != [] {
      Strings.JoinAppend(Cues(segs), Cue(|segs| + 1, s), '\n');
    }
  }

  /** Cue numbers and millisecond fields as `f"{n}"` prints them. */
  lemma NumeralExamples()
    ensures Strings.NatToString(0) == "0" && Strings.NatToString(1) == "1"
    ensures Strings.NatToString(500) == "500"
  {
    assert Strings.NatToString(5) == "5";
    assert Strings.NatToString(50) == "5" + "0";
    assert Strings.NatToString(500) == "50" + "0";
  }

  /** `f"{n:02d}"` and the three-digit millisecond field pad with zeros on the left. */
  lemma PadExamples()
    ensures Strings.ZeroPad(0, 2) == "00" && Strings.ZeroPad(1, 2) == "01"
    ensures Strings.ZeroPad(0, 3) == "000" && Strings.ZeroPad(500, 3) == "500"
  {
    NumeralExamples();
    assert Strings.Zeros(1) == "0";
    assert Strings.Zeros(2) == "0" + "0";
  }

  /**
   * The start of a recording prints as `00:00:00,000`.
   * The input is a parameter pinned by `requires` rather than a literal argument,
   * so the verifier does not unfold the whole definition on constants.
   */
  lemma {:induction false} FormatTimeZeroExample(ms: nat)
    requires ms == 0
    ensures FormatTime(ms) == "00:00:00,000"
  {
    FormatTimeLayout(ms);
    assert Decompose(ms) == Clock(0, 0, 0);
    PadExamples();
  }

  /**
   * 1.5 s prints as `00:00:01,500`: the seconds keep two digits and the milliseconds three.
   * The input is a parameter pinned by `requires` rather than a literal argument,
   * so the verifier does not unfold the whole definition on constants.
   */
  lemma {:induction false} FormatTimeExample(ms: nat)
    requires ms == 1500
    ensures FormatTime(ms) == "00:00:01,500"
  {
    FormatTimeLayout(ms);
    assert Decompose(ms) == Clock(0, 0, 1500);
    PadExamples();
  }

  lemma StripExample()
    ensures Strings.Strip(" hi ") == "hi"
  {
    var s := " hi ";
    assert Strings.IsSpace(s[0]) && s[1..] == "hi ";
    assert !Strings.IsSpace('h');
    assert Strings.TrimStart(s[1..]) == "hi ";
    var t := "hi ";
    assert Strings.IsSpace(t[2]) && t[..2] == "hi";
    assert !Strings.IsSpace('i');
    assert Strings.TrimEnd(t[..2]) == "hi";
  }

  /**
   * The cue for one segment from 0 s to 1.5 s saying `" hi "`, with the text stripped.
   * The input is a parameter pinned by `requires` rather than a literal argument,
   * so the verifier does not unfold the whole definition on constants.
   */
  lemma {:induction false} CueExample(seg: Segment)
    requires seg == Segment(0, 1500, " hi ")
    ensures Cue(1, seg) == "1" + "\n" + "00:00:00,000" + " --> " + "00:00:01,500" + "\n" + "hi" + "\n"
  {
    FormatTimeZeroExample(seg.start);
    FormatTimeExample(seg.end);
    StripExample();
    NumeralExamples();
  }

  /**
   * A single segment gives its cue alone, with no separator.
   * The input is a parameter pinned by `requires` rather than a literal argument,
   * so the verifier does not unfold the whole definition on constants.
   */
  lemma {:induction false} SrtExample(seg: Segment)
    requires seg == Segment(0, 1500, " hi ")
    ensures SrtText([seg]) == "1" + "\n" + "00:00:00,000" + " --> " + "00:00:01,500" + "\n" + "hi" + "\n"
  {
    SrtAppend([], seg);
    assert [] + [seg] == [seg];
    CueExample(seg);
  }
}
