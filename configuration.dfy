/**
 * The config.ini reader of KeepAwakeMonitor.LoadConfig: each line is trimmed;
 * blank lines, section headers ("[...]") and comments (";...") are skipped; the
 * rest must split on '=' into exactly two parts, a key (trimmed, lower-cased)
 * and a value (trimmed). Seven keys are known; any other key changes nothing.
 * Numeric values go through Int32.TryParse, which writes 0 into the field when
 * the value is not a number; boolean values are true exactly when the
 * lower-cased value is "true"; icon names are taken as they are.
 */
module Configuration {
  import opened Wrappers
  import opened Text

  datatype Config = Config(
    idleThresholdSeconds: int32,
    f15IntervalSeconds: int32,
    showNotifications: bool,
    notificationDuration: int32,
    showIdleOverlay: bool,
    iconIdleName: string,
    iconActiveName: string)

  /** The field initialisers: the configuration when config.ini is absent or says nothing. */
  const Defaults := Config(300, 59, true, 1000, false, "idle.ico", "active.ico")

  /** A line of the form `key=value`, key trimmed and lower-cased, value trimmed. */
  datatype Entry = Entry(key: string, value: string)

  /** The skip rules and the split of one line. */
  function ParseLine(line: string): Option<Entry> {
    var trimmed := Trim(line);
    if StartsWith(trimmed, "[") || trimmed == "" || StartsWith(trimmed, ";") then None
    else
      var parts := SplitOn(trimmed, '=');
      if |parts| != 2 then None
      else Some(Entry(ToLower(Trim(parts[0])), Trim(parts[1])))
  }

  /** The seven independent `if (key == ...)` assignments, in the order they are written. */
  function Apply(c: Config, e: Entry): Config {
    var c := if e.key == "idlethresholdseconds" then c.(idleThresholdSeconds := TryParseInt32(e.value)) else c;
    var c := if e.key == "f15intervalseconds" then c.(f15IntervalSeconds := TryParseInt32(e.value)) else c;
    var c := if e.key == "shownotifications" then c.(showNotifications := ToLower(e.value) == "true") else c;
    var c := if e.key == "notificationduration" then c.(notificationDuration := TryParseInt32(e.value)) else c;
    var c := if e.key == "showidleoverlay" then c.(showIdleOverlay := ToLower(e.value) == "true") else c;
    var c := if e.key == "iconidle" then c.(iconIdleName := e.value) else c;
    var c := if e.key == "iconactive" then c.(iconActiveName := e.value) else c;
    c
  }

  /** One iteration of the `foreach` over the lines. */
  function ApplyLine(c: Config, line: string): Config {
    match ParseLine(line)
    case None => c
    case Some(e) => Apply(c, e)
  }

  /** The configuration after reading `lines` in order, starting from `c`. */
  function ApplyLines(c: Config, lines: seq<string>): Config {
    if lines == [] then c
    else ApplyLine(ApplyLines(c, lines[..|lines| - 1]), lines[|lines| - 1])
  }

  // ---------------------------------------------------------------------------
  // The settings by name: an independent view of the record used to state the rules

  datatype Setting = IntSetting(number: int32) | BoolSetting(flag: bool) | TextSetting(text: string)

  predicate IsIntKey(key: string) {
    key == "idlethresholdseconds" || key == "f15intervalseconds" || key == "notificationduration"
  }

  predicate IsBoolKey(key: string) {
    key == "shownotifications" || key == "showidleoverlay"
  }

  predicate IsTextKey(key: string) {
    key == "iconidle" || key == "iconactive"
  }

  predicate IsKnownKey(key: string) {
    IsIntKey(key) || IsBoolKey(key) || IsTextKey(key)
  }

  /** The setting a key names, if it names one. */
  function Get(c: Config, key: string): (s: Option<Setting>)
    ensures s.Some? <==> IsKnownKey(key)
  {
    if key == "idlethresholdseconds" then Some(IntSetting(c.idleThresholdSeconds))
    else if key == "f15intervalseconds" then Some(IntSetting(c.f15IntervalSeconds))
    else if key == "shownotifications" then Some(BoolSetting(c.showNotifications))
    else if key == "notificationduration" then Some(IntSetting(c.notificationDuration))
    else if key == "showidleoverlay" then Some(BoolSetting(c.showIdleOverlay))
    else if key == "iconidle" then Some(TextSetting(c.iconIdleName))
    else if key == "iconactive" then Some(TextSetting(c.iconActiveName))
    else None
  }

  /** What a value written for a key means. */
  function Interpret(key: string, value: string): Setting {
    if IsIntKey(key) then IntSetting(TryParseInt32(value))
    else if IsBoolKey(key) then BoolSetting(ToLower(value) == "true")
    else TextSetting(value)
  }

  /** A configuration is determined by its seven settings. */
  lemma SameSettingsSameConfig(c1: Config, c2: Config)
    requires forall key :: IsKnownKey(key) ==> Get(c1, key) == Get(c2, key)
    ensures c1 == c2
  {
    assert Get(c1, "idlethresholdseconds") == Get(c2, "idlethresholdseconds");
    assert Get(c1, "f15intervalseconds") == Get(c2, "f15intervalseconds");
    assert Get(c1, "shownotifications") == Get(c2, "shownotifications");
    assert Get(c1, "notificationduration") == Get(c2, "notificationduration");
    assert Get(c1, "showidleoverlay") == Get(c2, "showidleoverlay");
    assert Get(c1, "iconidle") == Get(c2, "iconidle");
    assert Get(c1, "iconactive") == Get(c2, "iconactive");
  }

  // ---------------------------------------------------------------------------
  // The rules

  /**
   * A line is skipped exactly when, trimmed, it is empty, starts with '[' or ';',
   * or does not hold exactly one '='.
   */
  lemma ParseLineSkips(line: string)
    ensures var t := Trim(line);
      ParseLine(line).None? <==> (t == [] || t[0] == '[' || t[0] == ';' || Count(t, '=') != 1)
  {
    var t := Trim(line);
    if t != [] {
      assert StartsWith(t, "[") <==> t[0] == '[';
      assert StartsWith(t, ";") <==> t[0] == ';';
    }
  }

  /** A line `rawKey=rawValue` (after trimming) is read as the trimmed, lower-cased key and the trimmed value. */
  lemma ParseLineEntry(line: string, rawKey: string, rawValue: string)
    requires Trim(line) == rawKey + "=" + rawValue
    requires '=' !in rawKey && '=' !in rawValue
    requires rawKey == [] || (rawKey[0] != '[' && rawKey[0] != ';')
    ensures ParseLine(line) == Some(Entry(ToLower(Trim(rawKey)), Trim(rawValue)))
  {
    var t := Trim(line);
    assert t[0] == (if rawKey == [] then '=' else rawKey[0]);
    assert !StartsWith(t, "[") && !StartsWith(t, ";");
    SplitAroundOne(rawKey, rawValue, '=');
  }

  /**
   * An entry sets the setting its key names, to what its value means, and no
   * other; an entry with an unknown key leaves the configuration as it is.
   */
  lemma ApplySetsItsKey(c: Config, e: Entry)
    ensures forall key :: Get(Apply(c, e), key) ==
                          (if key == e.key && IsKnownKey(key) then Some(Interpret(key, e.value)) else Get(c, key))
    ensures !IsKnownKey(e.key) ==> Apply(c, e) == c
  {
    KeysDistinct();
  }

  /** The seven key names differ from one another. */
  lemma KeysDistinct()
    ensures IsIntKey("idlethresholdseconds") && IsIntKey("f15intervalseconds") && IsIntKey("notificationduration")
    ensures IsBoolKey("shownotifications") && IsBoolKey("showidleoverlay")
    ensures IsTextKey("iconidle") && IsTextKey("iconactive")
    ensures !IsBoolKey("idlethresholdseconds") && !IsBoolKey("f15intervalseconds") && !IsBoolKey("notificationduration")
    ensures !IsTextKey("idlethresholdseconds") && !IsTextKey("f15intervalseconds") && !IsTextKey("notificationduration")
    ensures !IsTextKey("shownotifications") && !IsTextKey("showidleoverlay")
    ensures "idlethresholdseconds" != "f15intervalseconds" && "f15intervalseconds" != "notificationduration"
    ensures "idlethresholdseconds" != "notificationduration"
    ensures "shownotifications" != "showidleoverlay" && "iconidle" != "iconactive"
  {
  }

  /** The line `line` is an entry for `key`. */
  predicate EntryFor(line: string, key: string) {
    ParseLine(line).Some? && ParseLine(line).value.key == key
  }

  /** Reading one line touches at most the setting its key names. */
  lemma ApplyLineSetting(c: Config, line: string, key: string)
    ensures Get(ApplyLine(c, line), key) ==
      if EntryFor(line, key) && IsKnownKey(key) then Some(Interpret(key, ParseLine(line).value.value))
      else Get(c, key)
  {
    if ParseLine(line).Some? {
      ApplySetsItsKey(c, ParseLine(line).value);
    }
  }

  /** The last entry for a known key decides its setting, whatever came before. */
  lemma {:induction false} LastEntryWins(c: Config, lines: seq<string>, key: string, j: nat)
    requires IsKnownKey(key)
    requires j < |lines| && EntryFor(lines[j], key)
    requires forall k :: j < k < |lines| ==> !EntryFor(lines[k], key)
    ensures Get(ApplyLines(c, lines), key) == Some(Interpret(key, ParseLine(lines[j]).value.value))
  {
    var n := |lines|;
    var front := lines[..n - 1];
    if j == n - 1 {
      LastLineDecides(ApplyLines(c, front), lines[n - 1], key);
    } else {
      LaterLineKeeps(ApplyLines(c, front), lines[n - 1], key);
      assert front[j] == lines[j];
      assert forall k :: j < k < |front| ==> front[k] == lines[k];
      LastEntryWins(c, front, key, j);
    }
  }

  lemma LastLineDecides(before: Config, line: string, key: string)
    requires IsKnownKey(key) && EntryFor(line, key)
    ensures Get(ApplyLine(before, line), key) == Some(Interpret(key, ParseLine(line).value.value))
  {
    ApplyLineSetting(before, line, key);
  }

  lemma LaterLineKeeps(before: Config, line: string, key: string)
    requires !EntryFor(line, key)
    ensures Get(ApplyLine(before, line), key) == Get(before, key)
  {
    ApplyLineSetting(before, line, key);
  }

  /** A setting no line names keeps the value it had. */
  lemma {:induction false} UnnamedSettingKept(c: Config, lines: seq<string>, key: string)
    requires forall k :: 0 <= k < |lines| ==> !EntryFor(lines[k], key)
    ensures Get(ApplyLines(c, lines), key) == Get(c, key)
  {
    if lines != [] {
      var front := lines[..|lines| - 1];
      ApplyLineSetting(ApplyLines(c, front), lines[|lines| - 1], key);
      assert forall k :: 0 <= k < |front| ==> front[k] == lines[k];
      UnnamedSettingKept(c, front, key);
    }
  }

  /** Lines that are all skipped, or name only unknown keys, leave the configuration as it is. */
  lemma IgnoredLinesKeepConfig(c: Config, lines: seq<string>)
    requires forall k :: 0 <= k < |lines| ==> ParseLine(lines[k]).None? || !IsKnownKey(ParseLine(lines[k]).value.key)
    ensures ApplyLines(c, lines) == c
  {
    forall key | IsKnownKey(key)
      ensures Get(ApplyLines(c, lines), key) == Get(c, key)
    {
      UnnamedSettingKept(c, lines, key);
    }
    SameSettingsSameConfig(ApplyLines(c, lines), c);
  }

  /** A number written as Int32.ToString prints it is read back as that number. */
  lemma NumberSettingRead(key: string, n: int32)
    requires IsIntKey(key)
    ensures Interpret(key, IntToString(n)) == IntSetting(n)
  {
    ParseIntToString(n);
  }

  /**
   * A numeric setting whose value does not parse (no digit, a stray character,
   * a value beyond 32 bits) is set to 0, not left as it was.
   */
  lemma MalformedNumberIsZero(key: string, value: string)
    requires IsIntKey(key)
    requires ParseInt32(value).None?
    ensures Interpret(key, value) == IntSetting(0)
  {
  }
}
