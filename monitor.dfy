/**
 * The KeepAwakeMonitor object: its configuration fields, which LoadConfig
 * assigns line by line, and its sampler fields, which each iteration of
 * MonitorActivity updates in place. Each method is proved against the pure
 * definitions of the Configuration and Activity modules.
 */
module Monitor {
  import opened Wrappers
  import opened Text
  import opened Configuration
  import opened Activity

  class KeepAwakeMonitor {
    // The sampler's state
    var isPressingF15: bool
    var actualIdleSeconds: nat
    var lastIdle: nat
    var lastMousePosition: Point
    var overlayOpen: bool

    // The configuration
    var idleThresholdSeconds: int32
    var f15IntervalSeconds: int32
    var showNotifications: bool
    var notificationDuration: int32
    var showIdleOverlay: bool
    var iconIdleName: string
    var iconActiveName: string

    /** The configuration fields as one value. */
    function Settings(): Config
      reads this
    {
      Config(idleThresholdSeconds, f15IntervalSeconds, showNotifications, notificationDuration,
             showIdleOverlay, iconIdleName, iconActiveName)
    }

    /** The sampler fields as one value. */
    function Snapshot(): State
      reads this
    {
      State(actualIdleSeconds, if isPressingF15 then Suppressing else Active,
            lastIdle, lastMousePosition, overlayOpen)
    }

    /** The tick-boundary invariant of a monitor with a positive threshold. */
    ghost predicate Valid()
      reads this
    {
      Inv(Settings(), Snapshot())
    }

    /**
     * The field initialisers followed by LoadConfig, with the contents of
     * config.ini (None when the file does not exist).
     */
    constructor (configFile: Option<seq<string>>)
      ensures Snapshot() == Initial
      ensures Settings() == if configFile.None? then Defaults else ApplyLines(Defaults, configFile.value)
      ensures Settings().idleThresholdSeconds >= 1 ==> Valid()
    {
      isPressingF15, actualIdleSeconds, lastIdle := false, 0, 0;
      lastMousePosition, overlayOpen := Origin, false;
      idleThresholdSeconds, f15IntervalSeconds := 300, 59;
      showNotifications, notificationDuration, showIdleOverlay := true, 1000, false;
      iconIdleName, iconActiveName := "idle.ico", "active.ico";
      new;
      LoadConfig(configFile);
    }

    /** Reads config.ini line by line into the configuration fields. */
    method LoadConfig(configFile: Option<seq<string>>)
      modifies this
      ensures Settings() == if configFile.None? then old(Settings()) else ApplyLines(old(Settings()), configFile.value)
      ensures Snapshot() == old(Snapshot())
    {
      if configFile.None? {
        return;
      }
      var lines := configFile.value;
      for i := 0 to |lines|
        invariant Settings() == ApplyLines(old(Settings()), lines[..i])
        invariant Snapshot() == old(Snapshot())
      {
        assert lines[..i + 1][..i] == lines[..i];
        var trimmed := Trim(lines[i]);
        if StartsWith(trimmed, "[") || trimmed == "" || StartsWith(trimmed, ";") {
          assert ParseLine(lines[i]).None?;
          continue;
        }
        var parts := SplitOn(trimmed, '=');
        if |parts| != 2 {
          assert ParseLine(lines[i]).None?;
          continue;
        }
        var key := ToLower(Trim(parts[0]));
        var value := Trim(parts[1]);
        assert ParseLine(lines[i]) == Some(Entry(key, value));
        AssignSetting(key, value);
      }
      assert lines[..|lines|] == lines;
    }

    /** The seven `if (key == ...)` assignments of one configuration line. */
    method AssignSetting(key: string, value: string)
      modifies this
      ensures Settings() == Apply(old(Settings()), Entry(key, value))
      ensures Snapshot() == old(Snapshot())
    {
      if key == "idlethresholdseconds" { idleThresholdSeconds := TryParseInt32(value); }
      if key == "f15intervalseconds" { f15IntervalSeconds := TryParseInt32(value); }
      if key == "shownotifications" { showNotifications := ToLower(value) == "true"; }
      if key == "notificationduration" { notificationDuration := TryParseInt32(value); }
      if key == "showidleoverlay" { showIdleOverlay := ToLower(value) == "true"; }
      if key == "iconidle" { iconIdleName := value; }
      if key == "iconactive" { iconActiveName := value; }
    }

    /** One iteration of the sampler loop, given what it reads at its top. */
    method Tick(x: Sample) returns (events: seq<Event>)
      modifies this
      ensures Settings() == old(Settings())
      ensures Snapshot() == Step(old(Settings()), old(Snapshot()), x).next
      ensures events == Step(old(Settings()), old(Snapshot()), x).events
      ensures old(Valid()) ==> Valid()
    {
      ghost var before := Snapshot();
      var mouseMoved := x.position != lastMousePosition;
      var keyboardUsed := x.systemIdle == 0;
      lastMousePosition := x.position;

      if isPressingF15 {
        if mouseMoved {
          events := LeaveSuppressing();
        } else {
          actualIdleSeconds := actualIdleSeconds + 1;
          events := [];
        }
      } else {
        events := [];
        if mouseMoved || keyboardUsed {
          if actualIdleSeconds >= idleThresholdSeconds {
            events := [LogActivity(actualIdleSeconds)];
          }
          actualIdleSeconds := 0;
        } else {
          actualIdleSeconds := actualIdleSeconds + 1;
        }

        if actualIdleSeconds == idleThresholdSeconds {
          var entered := EnterSuppressing();
          events := events + entered;
        }
      }

      lastIdle := actualIdleSeconds;
      if Inv(Settings(), before) {
        StepKeepsInv(Settings(), before, x);
      }
    }

    /** The Suppressing branch on pointer movement: log, reset, idle icon, balloon, close the overlay. */
    method LeaveSuppressing() returns (events: seq<Event>)
      modifies this
      ensures Settings() == old(Settings())
      ensures actualIdleSeconds == 0 && !isPressingF15 && !overlayOpen
      ensures lastIdle == old(lastIdle) && lastMousePosition == old(lastMousePosition)
      ensures events == ExitEvents(Settings(), old(actualIdleSeconds), old(overlayOpen))
    {
      events := [LogActivity(actualIdleSeconds)];
      actualIdleSeconds := 0;
      isPressingF15 := false;
      events := events + [ShowIcon(IdleIcon)];
      if showNotifications {
        events := events + [Notify(notificationDuration, ResumedBalloon)];
      }
      if overlayOpen {
        events := events + [CloseOverlay];
        overlayOpen := false;
      }
    }

    /** The threshold branch: log, Suppressing on, active icon, balloon, open the overlay. */
    method EnterSuppressing() returns (events: seq<Event>)
      modifies this
      ensures Settings() == old(Settings())
      ensures isPressingF15 && overlayOpen == (old(overlayOpen) || showIdleOverlay)
      ensures actualIdleSeconds == old(actualIdleSeconds) && lastIdle == old(lastIdle)
      ensures lastMousePosition == old(lastMousePosition)
      ensures events == EntryEvents(Settings())
    {
      events := [LogTimeout(idleThresholdSeconds)];
      isPressingF15 := true;
      events := events + [ShowIcon(ActiveIcon)];
      if showNotifications {
        events := events + [Notify(notificationDuration, SuppressingBalloon)];
      }
      if showIdleOverlay {
        overlayOpen := true;
        events := events + [OpenOverlay];
      }
    }

    /** The sampler loop over a finite sequence of samples, one Tick each. */
    method MonitorActivity(samples: seq<Sample>) returns (events: seq<Event>)
      modifies this
      ensures Settings() == old(Settings())
      ensures Snapshot() == Run(old(Settings()), old(Snapshot()), samples).next
      ensures events == Run(old(Settings()), old(Snapshot()), samples).events
      ensures old(Valid()) ==> Valid()
    {
      events := [];
      for i := 0 to |samples|
        invariant Settings() == old(Settings())
        invariant Snapshot() == Run(old(Settings()), old(Snapshot()), samples[..i]).next
        invariant events == Run(old(Settings()), old(Snapshot()), samples[..i]).events
      {
        RunSnoc(Settings(), old(Snapshot()), samples[..i], samples[i]);
        assert samples[..i + 1] == samples[..i] + [samples[i]];
        var tickEvents := Tick(samples[i]);
        events := events + tickEvents;
      }
      assert samples[..|samples|] == samples;
      if Inv(Settings(), old(Snapshot())) {
        RunKeepsInv(Settings(), old(Snapshot()), samples);
      }
    }
  }
}
