/**
 * The two ways the monitor renders an idle duration: the overlay label
 * "Inattivo da MM:SS" and the "<m>m<s>s" part of the activity log line; and the
 * log line that announces the inactivity timeout. Each rendering has a reader
 * beside it, and the lemmas say what the reader gets back.
 */
module Durations {
  import opened Wrappers
  import opened Text
  import opened Arithmetic

  // ---------------------------------------------------------------------------
  // The overlay label

  /** TimeSpan.FromSeconds(seconds).Hours, .Minutes and .Seconds. */
  function SpanHours(seconds: nat): nat { (seconds / 3600) % 24 }
  function SpanMinutes(seconds: nat): nat { (seconds / 60) % 60 }
  function SpanSeconds(seconds: nat): nat { seconds % 60 }

  /** `Hours * 60 + Minutes`, the number the label shows as minutes. */
  function LabelMinutes(seconds: nat): (m: nat)
    ensures m == (seconds % 86400) / 60
  {
    MinutesOfDay(seconds);
    SpanHours(seconds) * 60 + SpanMinutes(seconds)
  }

  /** The hours and minutes fields of a span together count the minutes of its last partial day. */
  lemma MinutesOfDay(s: nat)
    ensures (s / 3600) % 24 * 60 + (s / 60) % 60 == (s % 86400) / 60
  {
    var q := s / 60;
    var days, t := s / 86400, s % 86400;
    var m, sec := t / 60, t % 60;
    var h, mm := m / 60, m % 60;
    // s = 86400 days + 3600 h + 60 mm + sec, with h < 24, mm < 60, sec < 60
    assert s == 86400 * days + t;
    assert t == 60 * m + sec;
    assert m == 60 * h + mm;
    assert h < 24 by { assert t < 86400; }
    DivModUnique(s, 60, 1440 * days + m, sec);
    assert q == 1440 * days + m;
    DivModUnique(q, 60, 24 * days + h, mm);
    DivModUnique(s, 3600, 24 * days + h, 60 * mm + sec);
    DivModUnique(24 * days + h, 24, days, h);
  }

  const LabelPrefix := "Inattivo da "

  /**
   * The overlay text for an idle time in seconds: `string.Format("Inattivo da
   * {0:D2}:{1:D2}", ts.Hours * 60 + ts.Minutes, ts.Seconds)`.
   */
  function OverlayLabel(seconds: nat): string {
    LabelPrefix + PadD2(LabelMinutes(seconds)) + ":" + PadD2(SpanSeconds(seconds))
  }

  /** Reads the minutes and seconds fields back out of an overlay label. */
  function ReadLabel(text: string): Option<(nat, nat)> {
    if !StartsWith(text, LabelPrefix) then None
    else
      var parts := SplitOn(text[|LabelPrefix|..], ':');
      if |parts| == 2 && AllDigits(parts[0]) && AllDigits(parts[1]) then
        Some((DigitsValue(parts[0]), DigitsValue(parts[1])))
      else None
  }

  /** No digit string holds a character that is not a digit. */
  lemma NotInDigits(s: string, c: char)
    requires AllDigits(s) && !IsDigit(c)
    ensures c !in s
  {
    assert forall k :: 0 <= k < |s| ==> s[k] != c;
  }

  /** ReadLabel takes apart any label of the overlay's shape. */
  lemma ReadLabelFields(mm: string, ss: string)
    requires AllDigits(mm) && AllDigits(ss)
    ensures ReadLabel(LabelPrefix + mm + ":" + ss) == Some((DigitsValue(mm), DigitsValue(ss)))
  {
    var shown := LabelPrefix + mm + ":" + ss;
    assert shown[..|LabelPrefix|] == LabelPrefix;
    assert shown[|LabelPrefix|..] == mm + [':'] + ss;
    NotInDigits(mm, ':');
    NotInDigits(ss, ':');
    SplitAroundOne(mm, ss, ':');
  }

  /**
   * The label shows the time of day of the idle span: minutes are the whole
   * minutes after the last whole day, seconds the seconds after the last whole
   * minute; so below one day it shows the span exactly.
   */
  lemma ReadOverlayLabel(seconds: nat)
    ensures ReadLabel(OverlayLabel(seconds)) == Some(((seconds % 86400) / 60, seconds % 60))
    ensures seconds < 86400 ==> ((seconds % 86400) / 60) * 60 + seconds % 60 == seconds
  {
    ReadLabelFields(PadD2(LabelMinutes(seconds)), PadD2(SpanSeconds(seconds)));
    if seconds < 86400 {
      DivModUnique(seconds, 86400, 0, seconds);
    }
  }

  /** The minutes field is two digits below 100 minutes and never more than four. */
  lemma OverlayLabelWidth(seconds: nat)
    ensures |OverlayLabel(seconds)| <= |LabelPrefix| + 7
    ensures seconds < 6000 ==> |OverlayLabel(seconds)| == |LabelPrefix| + 5
  {
    var m := LabelMinutes(seconds);
    assert m < 1440;
    assert Pow10(4) == 10000;
    NumeralLength(m, 4);
    if seconds < 6000 {
      DivModUnique(seconds, 86400, 0, seconds);
      assert m < 100;
    }
  }

  /** Whole days drop out of the label. */
  lemma OverlayLabelDropsDays(seconds: nat)
    ensures OverlayLabel(seconds + 86400) == OverlayLabel(seconds)
  {
    DivModUnique(seconds + 86400, 86400, seconds / 86400 + 1, seconds % 86400);
    DivModUnique(seconds + 86400, 60, seconds / 60 + 1440, seconds % 60);
  }

  // ---------------------------------------------------------------------------
  // The log lines

  const ActivityPrefix := "Activity detected ("
  const ActivitySuffix := "s)"

  /** `"Activity detected (" + (s / 60) + "m" + (s % 60) + "s)"`: minutes are not wrapped at a day. */
  function ActivityMessage(seconds: nat): string {
    ActivityPrefix + NatToString(seconds / 60) + "m" + NatToString(seconds % 60) + ActivitySuffix
  }

  /** Reads the idle time back out of an activity log line. */
  function ReadActivityMessage(message: string): Option<nat> {
    match Between(message, ActivityPrefix, ActivitySuffix)
    case None => None
    case Some(middle) => ReadMinutesSeconds(middle)
  }

  /** A duration given in whole minutes and remaining seconds, in seconds. */
  function ToSeconds(minutes: nat, seconds: nat): nat {
    minutes * 60 + seconds
  }

  /** Reads `<minutes>m<seconds>` as a number of seconds. */
  function ReadMinutesSeconds(middle: string): Option<nat> {
    var parts := SplitOn(middle, 'm');
    if |parts| == 2 && AllDigits(parts[0]) && AllDigits(parts[1]) then
      Some(ToSeconds(DigitsValue(parts[0]), DigitsValue(parts[1])))
    else None
  }

  /** The activity log line carries the whole idle time, however long. */
  lemma ReadActivity(seconds: nat)
    ensures ReadActivityMessage(ActivityMessage(seconds)) == Some(seconds)
  {
    var m, s := NatToString(seconds / 60), NatToString(seconds % 60);
    var middle := m + "m" + s;
    assert Between(ActivityMessage(seconds), ActivityPrefix, ActivitySuffix) == Some(middle) by {
      Regroup(ActivityPrefix, m, "m", s, ActivitySuffix);
      BetweenConcat(ActivityPrefix, middle, ActivitySuffix);
    }
    SplitMinutesSeconds(m, s);
    ReadFields(m, s);
    MinutesAndSeconds(seconds, DigitsValue(m), DigitsValue(s));
  }

  /** Five strings in a row, with the middle three grouped. */
  lemma Regroup(a: string, b: string, c: string, d: string, e: string)
    ensures a + b + c + d + e == a + (b + c + d) + e
  {
  }

  lemma MinutesAndSeconds(seconds: nat, minutes: nat, rest: nat)
    requires minutes == seconds / 60 && rest == seconds % 60
    ensures ToSeconds(minutes, rest) == seconds
  {
  }

  /** Two numerals around an 'm' read as minutes and seconds. */
  lemma ReadFields(m: string, s: string)
    requires AllDigits(m) && AllDigits(s)
    requires SplitOn(m + "m" + s, 'm') == [m, s]
    ensures ReadMinutesSeconds(m + "m" + s) == Some(ToSeconds(DigitsValue(m), DigitsValue(s)))
  {
  }

  /** The middle of an activity line splits at its 'm' into the two numerals. */
  lemma SplitMinutesSeconds(m: string, s: string)
    requires AllDigits(m) && AllDigits(s)
    ensures SplitOn(m + "m" + s, 'm') == [m, s]
  {
    NotInDigits(m, 'm');
    NotInDigits(s, 'm');
    SplitAroundOne(m, s, 'm');
  }

  /** Different idle times give different activity log lines. */
  lemma ActivityMessageInjective(a: nat, b: nat)
    requires ActivityMessage(a) == ActivityMessage(b)
    ensures a == b
  {
    ReadActivity(a);
    ReadActivity(b);
  }

  const TimeoutPrefix := "Inactivity detected [timeout: "
  const TimeoutSuffix := "sec]"

  /** `"Inactivity detected [timeout: " + idleThresholdSeconds + "sec]"`. */
  function TimeoutMessage(threshold: int): string {
    TimeoutPrefix + IntToString(threshold) + TimeoutSuffix
  }

  /** Reads the threshold back out of a timeout log line. */
  function ReadTimeoutMessage(message: string): Option<int32> {
    match Between(message, TimeoutPrefix, TimeoutSuffix)
    case None => None
    case Some(middle) => ParseInt32(middle)
  }

  /** The timeout log line carries the configured threshold. */
  lemma ReadTimeout(threshold: int32)
    ensures ReadTimeoutMessage(TimeoutMessage(threshold)) == Some(threshold)
  {
    BetweenConcat(TimeoutPrefix, IntToString(threshold), TimeoutSuffix);
    ParseIntToString(threshold);
  }

  /** An activity log line is never a timeout log line. */
  lemma ActivityIsNotTimeout(seconds: nat, threshold: int)
    ensures ActivityMessage(seconds) != TimeoutMessage(threshold)
  {
    assert ActivityMessage(seconds)[0] == 'A';
    assert TimeoutMessage(threshold)[0] == 'I';
  }
}
