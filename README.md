# KeepAwake monitor: a verified model of its activity state machine

KeepAwake keeps a Windows session from idling. A sampler thread reads the
system idle time and the pointer position once a second. When both have been
quiet for `IdleThresholdSeconds`, it switches the monitor into its
"pressing F15" mode: an emitter thread then presses and releases F15 every
`F15IntervalSeconds`. The mode ends when the pointer moves. On each switch the
monitor writes a log line, changes the tray icon, may show a balloon tip, and
may open or close an "Inattivo da MM:SS" overlay. Settings come from a
`config.ini` of `key=value` lines.

This project models, in Dafny:

- `KeepAwakeMonitor`, as a class. Its fields are the configuration and the
  sampler state (`actualIdleSeconds`, `isPressingF15`, `lastIdle`,
  `lastMousePosition`, and whether an overlay is open). `LoadConfig` reads the
  lines of the file into the configuration fields. `Tick` is one iteration of
  the sampler loop. `MonitorActivity` runs the loop over a finite sequence of
  samples. Each method's contract ties its effect to a pure function: `ApplyLines`,
  `Step` or `Run`.
- The tick as a pure function `Activity.Step` of the configuration, the state
  and one sample, returning the next state and the events emitted, in order.
  The lemmas state the transition rules, the tick-boundary invariant and what
  runs of quiet ticks do. The events are: log line, tray icon, balloon tip,
  overlay open or close.
- The config line format (`Configuration`), including .NET's `String.Trim`,
  `Split('=')` and `Int32.TryParse` semantics (`Text`).
- The idle-time arithmetic on 32-bit tick counts (`IdleTime`).
- The overlay label and the log-line texts, each with a reader that recovers
  the numbers from the text (`Durations`).
- One iteration of the F15 emitter loop (`Emitter`).

The mode is `Active` when `isPressingF15` is false and `Suppressing` when it is
true. The threshold is a 32-bit `int`, and the counter is compared with it as
C# does: both are widened and compared as integers. So no lemma assumes a
positive threshold unless it says so. The invariant lemmas require
`idleThresholdSeconds >= 1`. Separate lemmas state how a zero and a negative
threshold behave.

In four places the code behaves otherwise than its names and messages
suggest. The model follows the code:

- In Suppressing mode only pointer movement ends the mode. A zero idle reading
  does not, because the synthetic F15 presses themselves reset the system idle
  time (KeepAwakeMonitor.cs:273).
- A malformed number in `config.ini` sets its field to 0. It does not keep the
  default, because `int.TryParse` writes 0 into its `out` argument on failure
  (KeepAwakeMonitor.cs:242-245).
- The counter keeps counting from the threshold while suppressing. So the
  activity line on exit reports the threshold plus the suppressed seconds,
  not only the suppressed seconds (KeepAwakeMonitor.cs:275, 289).
- The timeout log line reads `Inactivity detected [timeout: 300sec]`, with no
  space before `sec` (KeepAwakeMonitor.cs:309).

## Model

| member | source | states |
|---|---|---|
| `Text.Trim` | KeepAwakeMonitor.cs:236 | the result has no white space (char.IsWhiteSpace) at either end; it is the text after the leading white space, and only white space follows it |
| `Text.TrimIdempotent` | KeepAwakeMonitor.cs:240-241 | trimming an already trimmed part again changes nothing |
| `Text.SplitOn` | KeepAwakeMonitor.cs:238 | there is one part more than there are '=' characters; no part holds '='; the parts joined with '=' give back the line |
| `Text.SplitAroundOne` | KeepAwakeMonitor.cs:238-239 | a line with exactly one '=' splits into the two parts before and after it |
| `Text.NatToString` | KeepAwakeMonitor.cs:275 | a non-empty digit string with no leading zero, whose value is the number |
| `Text.NumeralLength` | KeepAwakeMonitor.cs:49 | a number below 10^k has at most k digits |
| `Text.PadD2` | KeepAwakeMonitor.cs:49 | the "D2" format: digits whose value is the number, at least two of them, exactly two below 100, unpadded from 10 on |
| `Text.ParseIntToString` | KeepAwakeMonitor.cs:242 | TryParse reads every 32-bit value back from the way Int32.ToString prints it |
| `Text.ParseRejectsNoDigits` | KeepAwakeMonitor.cs:242 | text without a digit never parses as a number |
| `Text.ParseRejectsStray` | KeepAwakeMonitor.cs:242 | a character other than a digit after the first position (as in `30s`) makes parsing fail |
| `Text.ParseRejectsOutOfRange` | KeepAwakeMonitor.cs:242 | a numeral beyond the 32-bit range (as in `2147483648`) makes parsing fail |
| `Text.BetweenConcat` | KeepAwakeMonitor.cs:275 | the reader of a log line gets back exactly the text between its fixed prefix and suffix |
| `Durations.LabelMinutes` | KeepAwakeMonitor.cs:48-49 | `ts.Hours * 60 + ts.Minutes` is the whole minutes of the span after its last whole day |
| `Durations.MinutesOfDay` | KeepAwakeMonitor.cs:48-49 | the hours and minutes fields of TimeSpan.FromSeconds together count the minutes within the last day |
| `Durations.ReadOverlayLabel` | KeepAwakeMonitor.cs:47-49 | reading the label gives minutes `(s mod 86400) div 60` and seconds `s mod 60`; below one day they add back up to `s` |
| `Durations.OverlayLabelWidth` | KeepAwakeMonitor.cs:49 | the minutes field is exactly two digits below 100 minutes and never more than four |
| `Durations.OverlayLabelDropsDays` | KeepAwakeMonitor.cs:48-49 | idle times a whole day apart give the same label |
| `Durations.ReadActivity` | KeepAwakeMonitor.cs:275 | the activity log line `"<m>m<s>s"` carries the whole idle time; minutes do not wrap at a day |
| `Durations.ActivityMessageInjective` | KeepAwakeMonitor.cs:298 | different idle times give different activity log lines |
| `Durations.ReadTimeout` | KeepAwakeMonitor.cs:309 | the timeout log line carries the configured threshold, negative values included |
| `Durations.ActivityIsNotTimeout` | KeepAwakeMonitor.cs:309 | an activity log line is never a timeout log line |
| `IdleTime.AsUInt32` | KeepAwakeMonitor.cs:353 | the `(uint)` cast adds 2^32 to a negative tick count and keeps any other |
| `IdleTime.GetIdleTimeSeconds` | KeepAwakeMonitor.cs:353 | the result never exceeds 4294967 seconds |
| `IdleTime.TickCountAt` | KeepAwakeMonitor.cs:353 | the signed Environment.TickCount cast back to `uint` is the uptime modulo 2^32 |
| `IdleTime.IdleAcrossWrap` | KeepAwakeMonitor.cs:353 | whenever the last input is less than 2^32 ms back, the result is the whole seconds elapsed, even across a wrap of the tick counter |
| `Configuration.ParseLineSkips` | KeepAwakeMonitor.cs:236-239 | a line is skipped exactly when, trimmed, it is empty, starts with '[' or ';', or does not hold exactly one '=' |
| `Configuration.ParseLineEntry` | KeepAwakeMonitor.cs:238-241 | a line `k=v` yields the key `k` trimmed and lower-cased and the value `v` trimmed |
| `Configuration.Get` | KeepAwakeMonitor.cs:133-139 | exactly the seven configuration keys name a setting |
| `Configuration.ApplySetsItsKey` | KeepAwakeMonitor.cs:242-248 | an entry sets the setting its key names, to what its value means, and no other; an unknown key changes nothing |
| `Configuration.ApplyLineSetting` | KeepAwakeMonitor.cs:236-248 | reading one line changes at most the setting it names |
| `Configuration.LastEntryWins` | KeepAwakeMonitor.cs:234-249 | the last line naming a key decides that setting, whatever came before |
| `Configuration.UnnamedSettingKept` | KeepAwakeMonitor.cs:234-249 | a setting that no line names keeps its value |
| `Configuration.IgnoredLinesKeepConfig` | KeepAwakeMonitor.cs:234-249 | a file of skipped lines and unknown keys leaves the whole configuration as it was |
| `Configuration.NumberSettingRead` | KeepAwakeMonitor.cs:242-245 | a numeric setting written as a 32-bit number is read as that number |
| `Configuration.MalformedNumberIsZero` | KeepAwakeMonitor.cs:242-245 | a numeric setting whose value does not parse (no digit, a stray character, out of range) is set to 0, not kept |
| `Configuration.SameSettingsSameConfig` | KeepAwakeMonitor.cs:133-139 | the seven settings determine the configuration |
| `Activity.RunAppend` | KeepAwakeMonitor.cs:263-328 | running two stretches of samples one after the other is running them together |
| `Activity.RunSnoc` | KeepAwakeMonitor.cs:263-328 | running one more sample is one more tick after the run |
| `Activity.EntryOnlyAtThreshold` | KeepAwakeMonitor.cs:307-310 | from Active, Suppressing is entered exactly when the updated counter equals the threshold (an equality, not `>=`) |
| `Activity.EntryTick` | KeepAwakeMonitor.cs:302-322 | with a positive threshold the entry tick is a quiet tick that brings the counter to the threshold, and emits the timeout log, the active icon, a balloon iff notifications are on and an overlay iff it is enabled |
| `Activity.ActiveTick` | KeepAwakeMonitor.cs:294-307 | in Active mode, pointer movement or a zero idle reading resets the counter and anything else adds one; with a positive threshold an activity tick stays Active |
| `Activity.SuppressingTick` | KeepAwakeMonitor.cs:271-290 | in Suppressing mode the mode is left iff the pointer moved; leaving resets the counter, closes the overlay and emits the exit events for the counter before the reset; otherwise the counter adds one and nothing is emitted |
| `Activity.ExitEventsContent` | KeepAwakeMonitor.cs:274-285 | the exit log line reads back as the pre-reset idle time; a close comes iff an overlay is open, a balloon iff notifications are on |
| `Activity.SwitchShowsBalloon` | KeepAwakeMonitor.cs:279-313 | a balloon is shown exactly on a mode switch with notifications on, for `notificationDuration` ms: the resumed balloon on leaving Suppressing, the suppressing balloon on entering it |
| `Activity.TickBookkeeping` | KeepAwakeMonitor.cs:266-326 | after every tick `lastIdle` equals the counter and `lastMousePosition` is the position just read |
| `Activity.ZeroThreshold` | KeepAwakeMonitor.cs:294-310 | with threshold 0, Active enters Suppressing on activity ticks and only on them |
| `Activity.NegativeThreshold` | KeepAwakeMonitor.cs:294-310 | with a negative threshold Active is never left, and every activity tick logs "Activity detected" |
| `Activity.InitialInv` | KeepAwakeMonitor.cs:130-143 | the initial state (counter 0, Active, pointer at the origin, no overlay) satisfies the invariant |
| `Activity.StepKeepsInv` | KeepAwakeMonitor.cs:271-326 | every tick keeps the invariant: Active has the counter below the threshold and no overlay; Suppressing has it at or above the threshold and an overlay iff enabled |
| `Activity.ActiveResumeLogUnreachable` | KeepAwakeMonitor.cs:296-299 | in a reachable Active state the branch's "Activity detected" log never fires: a tick emits exactly the entry events when it enters Suppressing, and nothing otherwise |
| `Activity.RunKeepsInv` | KeepAwakeMonitor.cs:263-328 | the invariant holds after any number of ticks |
| `Activity.Reachable` | KeepAwakeMonitor.cs:263-328 | every state the sampler reaches from the start satisfies the invariant |
| `Activity.QuietBelowThreshold` | KeepAwakeMonitor.cs:302-305 | quiet ticks that stay below the threshold count up by one each and emit nothing |
| `Activity.QuietReachesThreshold` | KeepAwakeMonitor.cs:302-322 | exactly threshold-minus-counter quiet ticks end in Suppressing, with the counter at the threshold, and emit the entry events once |
| `Activity.StillWhileSuppressing` | KeepAwakeMonitor.cs:287-290 | while suppressing, ticks with the pointer still keep the mode and the overlay, count up and emit nothing, whatever the idle readings |
| `Activity.ActivityBeforeThreshold` | KeepAwakeMonitor.cs:294-307 | activity before the threshold is reached resets the counter, stays Active and emits nothing |
| `Emitter.WrapInt32` | KeepAwakeMonitor.cs:339 | the unchecked `int` result agrees with the exact value modulo 2^32 and equals it when it fits |
| `Emitter.StepAction` | KeepAwakeMonitor.cs:335-344 | when the flag is set: F15 down then F15 up, then sleep the interval in ms when that fits in an `int`; otherwise no key and a 500 ms sleep |
| `Emitter.NegativeInterval` | KeepAwakeMonitor.cs:339 | a negative configured interval reaches Thread.Sleep as a negative number of milliseconds, never -1 |
| `Emitter.IntervalOverflow` | KeepAwakeMonitor.cs:339 | an interval above 2147483 seconds overflows the product; up to 4294967 seconds the sleep argument is negative |
| `Emitter.KeystrokesPaired` | KeepAwakeMonitor.cs:333-345 | over successive iterations the keystrokes alternate F15 down and F15 up, one pair per iteration that saw the flag set |
| `Emitter.SuppressingCadence` | KeepAwakeMonitor.cs:335-340 | while the flag stays set, n iterations give n pulses and sleep n intervals |
| `Monitor.KeepAwakeMonitor.constructor` | KeepAwakeMonitor.cs:130-162 | the field defaults followed by LoadConfig: initial sampler state, configuration read from the file or the defaults |
| `Monitor.KeepAwakeMonitor.LoadConfig` | KeepAwakeMonitor.cs:229-250 | a missing file changes nothing; otherwise the configuration becomes the fold of the lines over the old one, and the sampler state is untouched |
| `Monitor.KeepAwakeMonitor.AssignSetting` | KeepAwakeMonitor.cs:242-248 | the seven key tests assign the field the entry names |
| `Monitor.KeepAwakeMonitor.Tick` | KeepAwakeMonitor.cs:265-326 | the new fields and the events are those of `Activity.Step`; the configuration is unchanged; the invariant is kept |
| `Monitor.KeepAwakeMonitor.LeaveSuppressing` | KeepAwakeMonitor.cs:275-285 | counter 0, mode Active, overlay closed, the exit events for the old counter |
| `Monitor.KeepAwakeMonitor.EnterSuppressing` | KeepAwakeMonitor.cs:309-322 | mode Suppressing, overlay open iff enabled (or already open), the entry events |
| `Monitor.KeepAwakeMonitor.MonitorActivity` | KeepAwakeMonitor.cs:261-329 | after the samples, the fields and all events are those of `Activity.Run`; the invariant is kept |

## Left out

- The WinForms user interface is not modelled: the `IdleOverlayForm` and `RealTimeMenu` layout and positioning, the tray icon objects, balloon rendering, the click handler and the status getters (KeepAwakeMonitor.cs:9-121, 210-227, 356-360). Tray icon, balloon and overlay actions appear as events. The overlay's text is modelled by `Durations.OverlayLabel`.
- GetLastInputInfo and Cursor.Position are operating-system calls. The idle seconds and the pointer position are the sample's fields, and the raw tick counts are parameters of `IdleTime.GetIdleTimeSeconds`.
- keybd_event is an operating-system call. Its arguments are the emitter step's key events.
- LogEvent's directory creation, date-based file name, timestamp and swallowed exceptions are not modelled. They depend on the clock and the file system. A log line is an event whose text is `Activity.LogText`.
- `File.Exists` and `ReadAllLines` become an optional sequence of lines passed to `LoadConfig`. LoadIcons and icon loading are not modelled, because they depend on the file system. The icon names are still read from the file.
- Threads, `Thread.Sleep`, the `volatile` flag, `Invoke` marshalling to the UI thread and the refresh timers are not modelled. The two infinite loops are modelled over a finite sequence of iterations: `MonitorActivity` over its samples, and `Emitter.Keystrokes` over the flag each iteration reads. How many pulses fall into N seconds of suppression (about N divided by the interval) depends on how the two threads' sleeps line up, so it is not stated; `Emitter.SuppressingCadence` states the count per emitter iteration instead.
- Monitor.KeepAwakeMonitor.Tick: the `uint` counter `actualIdleSeconds` is an unbounded `nat`, with no wrap at 2^32. The wrap would take 136 years of one-second ticks.
- Text.ToLower: only the ASCII letters are lowered, and culture-specific mappings (such as a Turkish locale or the Kelvin sign) are not modelled.
- Configuration.ParseLine: `StartsWith("[")` and `StartsWith(";")` are compared ordinally. Culture-aware matching of ignorable characters is not modelled.
- Text.ParseInt32: the culture's sign symbols are taken to be "-" and "+". Trailing NUL characters, which .NET tolerates, are not accepted. Leading and trailing white space, which the default number style skips, is rejected; every value passed to it is already trimmed, so this makes no difference to LoadConfig.
- Emitter.PressF15Step: Thread.Sleep with a negative argument other than -1 throws ArgumentOutOfRangeException. The emitter thread does not catch it, so the whole process terminates, sampler included. The model does not represent that crash: the step returns the negative sleep. The argument goes negative on two routes: a configured negative interval (`Emitter.NegativeInterval`: -5 gives -5000) and an interval above 2147483 seconds whose product wraps (`Emitter.IntervalOverflow`).
- Activity.Notification: NotifyIcon.ShowBalloonTip throws ArgumentOutOfRangeException for a negative timeout. So with a negative `notificationduration` and notifications on, the process terminates at the first mode switch (KeepAwakeMonitor.cs:280, 313). The model does not represent that crash: it emits `Notify` with the negative duration and goes on. `Activity.SwitchShowsBalloon` names exactly the ticks where that call happens.
