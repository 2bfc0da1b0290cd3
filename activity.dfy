/**
 * The activity sampler of KeepAwakeMonitor.MonitorActivity, one loop iteration
 * at a time, as a pure function of the configuration, the monitor's state and
 * the sample read at the top of the iteration (the idle seconds and the pointer
 * position). The tray icon, balloon notification, overlay and log file are
 * represented by the events the iteration emits, in the order it emits them.
 */
module Activity {
  import opened Text
  import opened Configuration
  import opened Durations
  import opened Wrappers

  /** A screen position; `Point.Empty` is the origin. */
  datatype Point = Point(x: int, y: int)
  const Origin := Point(0, 0)

  /** `isPressingF15`: false is Active, true is Suppressing (the F15 emitter is on). */
  datatype Mode = Active | Suppressing

  datatype Icon = IdleIcon | ActiveIcon

  /**
   * The two balloon tips the tray icon shows, both titled "KeepAwake": the one
   * on leaving Suppressing (KeepAwakeMonitor.cs:280) and the one on entering it
   * (KeepAwakeMonitor.cs:313).
   */
  datatype Balloon = ResumedBalloon | SuppressingBalloon

  /**
   * What an iteration does beyond its state: append a log line (the activity
   * line with the idle seconds it reports, or the timeout line with the
   * threshold), change the tray icon, show a balloon tip for a duration, open or
   * close the overlay.
   */
  datatype Event =
    | LogActivity(idleSeconds: nat)
    | LogTimeout(threshold: int)
    | ShowIcon(icon: Icon)
    | Notify(durationMs: int32, balloon: Balloon)
    | OpenOverlay
    | CloseOverlay

  /** The text LogEvent receives for a log event. */
  function LogText(e: Event): string
    requires e.LogActivity? || e.LogTimeout?
  {
    if e.LogActivity? then ActivityMessage(e.idleSeconds) else TimeoutMessage(e.threshold)
  }

  /**
   * The fields the sampler updates: `actualIdleSeconds`, `isPressingF15`,
   * `lastIdle`, `lastMousePosition`, and whether `overlayForm` holds an open overlay.
   */
  datatype State = State(
    idleSeconds: nat,
    mode: Mode,
    lastIdle: nat,
    lastMousePosition: Point,
    overlayOpen: bool)

  /** The field initialisers. */
  const Initial := State(0, Active, 0, Origin, false)

  /** What one iteration reads: GetIdleTimeSeconds() and Cursor.Position. */
  datatype Sample = Sample(systemIdle: uint32, position: Point)

  datatype Outcome = Outcome(next: State, events: seq<Event>)

  function Notification(cfg: Config, b: Balloon): seq<Event> {
    if cfg.showNotifications then [Notify(cfg.notificationDuration, b)] else []
  }

  /** What leaving Suppressing emits: the log line, the idle icon, the balloon, the overlay close. */
  function ExitEvents(cfg: Config, idleSeconds: nat, overlayOpen: bool): seq<Event> {
    [LogActivity(idleSeconds), ShowIcon(IdleIcon)]
    + Notification(cfg, ResumedBalloon)
    + (if overlayOpen then [CloseOverlay] else [])
  }

  /** What entering Suppressing emits: the log line, the active icon, the balloon, the overlay. */
  function EntryEvents(cfg: Config): seq<Event> {
    [LogTimeout(cfg.idleThresholdSeconds), ShowIcon(ActiveIcon)]
    + Notification(cfg, SuppressingBalloon)
    + (if cfg.showIdleOverlay then [OpenOverlay] else [])
  }

  predicate PointerMoved(s: State, x: Sample) {
    x.position != s.lastMousePosition
  }

  predicate KeyboardUsed(x: Sample) {
    x.systemIdle == 0
  }

  /**
   * One iteration of the sampler loop. The `uint` counter is compared with the
   * `int` threshold as C# does, after widening both to `long`: as integers.
   */
  function Step(cfg: Config, s: State, x: Sample): Outcome {
    var moved := PointerMoved(s, x);
    if s.mode == Suppressing then
      if moved then
        Outcome(State(0, Active, 0, x.position, false), ExitEvents(cfg, s.idleSeconds, s.overlayOpen))
      else
        Outcome(State(s.idleSeconds + 1, Suppressing, s.idleSeconds + 1, x.position, s.overlayOpen), [])
    else
      var activity := moved || KeyboardUsed(x);
      var resumed := if activity && s.idleSeconds >= cfg.idleThresholdSeconds
                     then [LogActivity(s.idleSeconds)] else [];
      var counter := if activity then 0 else s.idleSeconds + 1;
      if counter == cfg.idleThresholdSeconds then
        Outcome(State(counter, Suppressing, counter, x.position, cfg.showIdleOverlay || s.overlayOpen),
                resumed + EntryEvents(cfg))
      else
        Outcome(State(counter, Active, counter, x.position, s.overlayOpen), resumed)
  }

  /** The sampler over a finite sequence of samples: the last state and every event, in order. */
  function Run(cfg: Config, s: State, xs: seq<Sample>): Outcome
    decreases |xs|
  {
    if xs == [] then Outcome(s, [])
    else
      var first := Step(cfg, s, xs[0]);
      var rest := Run(cfg, first.next, xs[1..]);
      Outcome(rest.next, first.events + rest.events)
  }

  /** Running one more sample is one more step after the run. */
  lemma RunSnoc(cfg: Config, s: State, xs: seq<Sample>, x: Sample)
    ensures Run(cfg, s, xs + [x]) ==
            Outcome(Step(cfg, Run(cfg, s, xs).next, x).next,
                    Run(cfg, s, xs).events + Step(cfg, Run(cfg, s, xs).next, x).events)
  {
    RunAppend(cfg, s, xs, [x]);
    RunOne(cfg, Run(cfg, s, xs).next, x);
  }

  lemma RunOne(cfg: Config, s: State, x: Sample)
    ensures Run(cfg, s, [x]) == Outcome(Step(cfg, s, x).next, Step(cfg, s, x).events)
  {
    assert [x][1..] == [];
    assert Step(cfg, s, x).events + [] == Step(cfg, s, x).events;
  }

  /** Running two stretches of samples one after the other is running them together. */
  lemma {:induction false} RunAppend(cfg: Config, s: State, xs: seq<Sample>, ys: seq<Sample>)
    ensures Run(cfg, s, xs + ys) ==
            Outcome(Run(cfg, Run(cfg, s, xs).next, ys).next,
                    Run(cfg, s, xs).events + Run(cfg, Run(cfg, s, xs).next, ys).events)
    decreases |xs|
  {
    if xs == [] {
      assert [] + ys == ys;
    } else {
      var o := Step(cfg, s, xs[0]);
      RunAppend(cfg, o.next, xs[1..], ys);
      RunFirst(cfg, s, xs, ys, o);
    }
  }

  /**
   * The inductive step of RunAppend: the first sample is the first step of both
   * runs, and the rest follow `o`.
   */
  lemma RunFirst(cfg: Config, s: State, xs: seq<Sample>, ys: seq<Sample>, o: Outcome)
    requires xs != [] && o == Step(cfg, s, xs[0])
    requires Run(cfg, o.next, xs[1..] + ys) ==
             Outcome(Run(cfg, Run(cfg, o.next, xs[1..]).next, ys).next,
                     Run(cfg, o.next, xs[1..]).events + Run(cfg, Run(cfg, o.next, xs[1..]).next, ys).events)
    ensures Run(cfg, s, xs + ys) ==
            Outcome(Run(cfg, Run(cfg, s, xs).next, ys).next,
                    Run(cfg, s, xs).events + Run(cfg, Run(cfg, s, xs).next, ys).events)
  {
    var zs := xs + ys;
    assert zs[0] == xs[0];
    assert zs[1..] == xs[1..] + ys;
    RunUnfold(cfg, s, zs, o);
    RunUnfold(cfg, s, xs, o);
    var r := Run(cfg, o.next, xs[1..]);
    Compose(Run(cfg, s, zs), Run(cfg, o.next, zs[1..]), o, r, Run(cfg, r.next, ys));
  }

  /** A non-empty run is its first step `o` followed by the run of the rest. */
  lemma RunUnfold(cfg: Config, s: State, xs: seq<Sample>, o: Outcome)
    requires xs != [] && o == Step(cfg, s, xs[0])
    ensures Run(cfg, s, xs) == Outcome(Run(cfg, o.next, xs[1..]).next, o.events + Run(cfg, o.next, xs[1..]).events)
  {
  }

  /** Outcomes compose associatively: a step, then a run, then another run. */
  lemma Compose(whole: Outcome, rest: Outcome, o: Outcome, r: Outcome, q: Outcome)
    requires whole == Outcome(rest.next, o.events + rest.events)
    requires rest == Outcome(q.next, r.events + q.events)
    ensures whole == Outcome(q.next, (o.events + r.events) + q.events)
  {
    assert o.events + (r.events + q.events) == (o.events + r.events) + q.events;
  }

  // ---------------------------------------------------------------------------
  // One tick

  /** From Active, the mode becomes Suppressing exactly when the updated counter equals the threshold. */
  lemma EntryOnlyAtThreshold(cfg: Config, s: State, x: Sample)
    requires s.mode == Active
    ensures Step(cfg, s, x).next.mode == Suppressing <==> Step(cfg, s, x).next.idleSeconds == cfg.idleThresholdSeconds
  {
  }

  /**
   * With a positive threshold, the tick that enters Suppressing is an idle tick
   * that brings the counter to the threshold, and emits exactly the timeout log
   * line, the active icon, a balloon if notifications are on, and the overlay if
   * it is enabled.
   */
  lemma EntryTick(cfg: Config, s: State, x: Sample)
    requires cfg.idleThresholdSeconds >= 1
    requires s.mode == Active && Step(cfg, s, x).next.mode == Suppressing
    ensures !PointerMoved(s, x) && !KeyboardUsed(x)
    ensures s.idleSeconds + 1 == cfg.idleThresholdSeconds
    ensures Step(cfg, s, x).events == EntryEvents(cfg)
    ensures Step(cfg, s, x).next.overlayOpen == (cfg.showIdleOverlay || s.overlayOpen)
  {
  }

  /**
   * In Active mode a pointer movement or a zero idle reading resets the counter
   * and any other tick adds one; with a positive threshold an activity tick
   * never enters Suppressing.
   */
  lemma ActiveTick(cfg: Config, s: State, x: Sample)
    requires s.mode == Active
    ensures Step(cfg, s, x).next.idleSeconds ==
            (if PointerMoved(s, x) || KeyboardUsed(x) then 0 else s.idleSeconds + 1)
    ensures cfg.idleThresholdSeconds >= 1 && (PointerMoved(s, x) || KeyboardUsed(x)) ==>
            Step(cfg, s, x).next.mode == Active
  {
  }

  /**
   * In Suppressing mode only pointer movement counts: it resets the counter,
   * returns to Active, closes the overlay and emits the activity log line for
   * the counter as it was; anything else (a zero idle reading included) adds one
   * to the counter and emits nothing.
   */
  lemma SuppressingTick(cfg: Config, s: State, x: Sample)
    requires s.mode == Suppressing
    ensures Step(cfg, s, x).next.mode == Active <==> PointerMoved(s, x)
    ensures PointerMoved(s, x) ==>
            && Step(cfg, s, x).next.idleSeconds == 0
            && !Step(cfg, s, x).next.overlayOpen
            && Step(cfg, s, x).events == ExitEvents(cfg, s.idleSeconds, s.overlayOpen)
    ensures !PointerMoved(s, x) ==>
            && Step(cfg, s, x).next.idleSeconds == s.idleSeconds + 1
            && Step(cfg, s, x).next.overlayOpen == s.overlayOpen
            && Step(cfg, s, x).events == []
  {
  }

  /** The exit log line carries the idle time before the reset, and the overlay close comes iff one is open. */
  lemma ExitEventsContent(cfg: Config, idleSeconds: nat, overlayOpen: bool)
    ensures ReadActivityMessage(LogText(ExitEvents(cfg, idleSeconds, overlayOpen)[0])) == Some(idleSeconds)
    ensures CloseOverlay in ExitEvents(cfg, idleSeconds, overlayOpen) <==> overlayOpen
    ensures (exists e :: e in ExitEvents(cfg, idleSeconds, overlayOpen) && e.Notify?) <==> cfg.showNotifications
  {
    ExitLogReads(cfg, idleSeconds, overlayOpen);
    ExitClosesOpenOverlay(cfg, idleSeconds, overlayOpen);
    ExitBalloonIffNotifications(cfg, idleSeconds, overlayOpen);
  }

  lemma ExitLogReads(cfg: Config, idleSeconds: nat, overlayOpen: bool)
    ensures ReadActivityMessage(LogText(ExitEvents(cfg, idleSeconds, overlayOpen)[0])) == Some(idleSeconds)
  {
    assert ExitEvents(cfg, idleSeconds, overlayOpen)[0] == LogActivity(idleSeconds);
    ReadActivity(idleSeconds);
  }

  /** Every exit event is a head event, the balloon or the overlay close. */
  lemma ExitEventsParts(cfg: Config, idleSeconds: nat, overlayOpen: bool, e: Event)
    requires e in ExitEvents(cfg, idleSeconds, overlayOpen)
    ensures e == LogActivity(idleSeconds) || e == ShowIcon(IdleIcon)
            || (cfg.showNotifications && e == Notify(cfg.notificationDuration, ResumedBalloon))
            || (overlayOpen && e == CloseOverlay)
  {
    var head: seq<Event> := [LogActivity(idleSeconds), ShowIcon(IdleIcon)];
    var n := Notification(cfg, ResumedBalloon);
    var tail: seq<Event> := if overlayOpen then [CloseOverlay] else [];
    assert ExitEvents(cfg, idleSeconds, overlayOpen) == head + n + tail;
  }

  lemma ExitClosesOpenOverlay(cfg: Config, idleSeconds: nat, overlayOpen: bool)
    ensures CloseOverlay in ExitEvents(cfg, idleSeconds, overlayOpen) <==> overlayOpen
  {
    var evs := ExitEvents(cfg, idleSeconds, overlayOpen);
    if overlayOpen {
      assert evs[|evs| - 1] == CloseOverlay;
    } else if CloseOverlay in evs {
      ExitEventsParts(cfg, idleSeconds, overlayOpen, CloseOverlay);
    }
  }

  lemma ExitBalloonIffNotifications(cfg: Config, idleSeconds: nat, overlayOpen: bool)
    ensures (exists e :: e in ExitEvents(cfg, idleSeconds, overlayOpen) && e.Notify?) <==> cfg.showNotifications
  {
    var evs := ExitEvents(cfg, idleSeconds, overlayOpen);
    if cfg.showNotifications {
      assert evs[2] == Notify(cfg.notificationDuration, ResumedBalloon);
    } else {
      forall e | e in evs
        ensures !e.Notify?
      {
        ExitEventsParts(cfg, idleSeconds, overlayOpen, e);
      }
    }
  }

  /** After every tick the display copy equals the counter and the last position is the one just read. */
  lemma TickBookkeeping(cfg: Config, s: State, x: Sample)
    ensures Step(cfg, s, x).next.lastIdle == Step(cfg, s, x).next.idleSeconds
    ensures Step(cfg, s, x).next.lastMousePosition == x.position
  {
  }

  /**
   * A balloon is shown exactly on a mode switch with notifications on, for
   * `notificationDuration` ms: the resumed balloon on leaving Suppressing, the
   * suppressing balloon on entering it. This is the call that throws when the
   * duration is negative.
   */
  lemma SwitchShowsBalloon(cfg: Config, s: State, x: Sample)
    ensures (exists e :: e in Step(cfg, s, x).events && e.Notify?) <==>
            (cfg.showNotifications && Step(cfg, s, x).next.mode != s.mode)
    ensures cfg.showNotifications && Step(cfg, s, x).next.mode != s.mode ==>
            Notify(cfg.notificationDuration, if s.mode == Active then SuppressingBalloon else ResumedBalloon)
              in Step(cfg, s, x).events
  {
    if s.mode == Suppressing {
      LeavingBalloon(cfg, s, x);
    } else {
      EnteringBalloon(cfg, s, x);
    }
  }

  lemma LeavingBalloon(cfg: Config, s: State, x: Sample)
    requires s.mode == Suppressing
    ensures (exists e :: e in Step(cfg, s, x).events && e.Notify?) <==>
            (cfg.showNotifications && Step(cfg, s, x).next.mode != s.mode)
    ensures cfg.showNotifications && Step(cfg, s, x).next.mode != s.mode ==>
            Notify(cfg.notificationDuration, ResumedBalloon) in Step(cfg, s, x).events
  {
    if PointerMoved(s, x) {
      var evs := ExitEvents(cfg, s.idleSeconds, s.overlayOpen);
      assert Step(cfg, s, x).events == evs;
      ExitBalloonIffNotifications(cfg, s.idleSeconds, s.overlayOpen);
      if cfg.showNotifications {
        assert evs[2] == Notify(cfg.notificationDuration, ResumedBalloon);
      }
    }
  }

  lemma EnteringBalloon(cfg: Config, s: State, x: Sample)
    requires s.mode == Active
    ensures (exists e :: e in Step(cfg, s, x).events && e.Notify?) <==>
            (cfg.showNotifications && Step(cfg, s, x).next.mode != s.mode)
    ensures cfg.showNotifications && Step(cfg, s, x).next.mode != s.mode ==>
            Notify(cfg.notificationDuration, SuppressingBalloon) in Step(cfg, s, x).events
  {
    var o := Step(cfg, s, x);
    var activity := PointerMoved(s, x) || KeyboardUsed(x);
    var resumed: seq<Event> := if activity && s.idleSeconds >= cfg.idleThresholdSeconds
                               then [LogActivity(s.idleSeconds)] else [];
    assert forall e :: e in resumed ==> e.LogActivity?;
    if o.next.mode == Suppressing {
      var evs := EntryEvents(cfg);
      assert o.events == resumed + evs;
      EntryBalloonIffNotifications(cfg);
      if cfg.showNotifications {
        assert evs[2] == Notify(cfg.notificationDuration, SuppressingBalloon);
        assert o.events[|resumed| + 2] == evs[2];
      }
    } else {
      assert o.events == resumed;
    }
  }

  lemma EntryBalloonIffNotifications(cfg: Config)
    ensures (exists e :: e in EntryEvents(cfg) && e.Notify?) <==> cfg.showNotifications
  {
    var evs := EntryEvents(cfg);
    var head: seq<Event> := [LogTimeout(cfg.idleThresholdSeconds), ShowIcon(ActiveIcon)];
    var n := Notification(cfg, SuppressingBalloon);
    var tail: seq<Event> := if cfg.showIdleOverlay then [OpenOverlay] else [];
    assert evs == head + n + tail;
    if cfg.showNotifications {
      assert evs[2] == Notify(cfg.notificationDuration, SuppressingBalloon);
    } else {
      forall e | e in evs
        ensures !e.Notify?
      {
        assert e in head || e in tail;
      }
    }
  }

  /** With a zero threshold the C# comparisons make Active enter Suppressing on activity ticks only. */
  lemma ZeroThreshold(cfg: Config, s: State, x: Sample)
    requires cfg.idleThresholdSeconds == 0 && s.mode == Active
    ensures Step(cfg, s, x).next.mode == Suppressing <==> (PointerMoved(s, x) || KeyboardUsed(x))
  {
  }

  /**
   * With a negative threshold Active is never left, and every activity tick logs
   * "Activity detected", since the counter is always at or above the threshold.
   */
  lemma NegativeThreshold(cfg: Config, s: State, x: Sample)
    requires cfg.idleThresholdSeconds < 0 && s.mode == Active
    ensures Step(cfg, s, x).next.mode == Active
    ensures Step(cfg, s, x).events ==
            (if PointerMoved(s, x) || KeyboardUsed(x) then [LogActivity(s.idleSeconds)] else [])
  {
  }

  // ---------------------------------------------------------------------------
  // The invariant at tick boundaries

  /**
   * With a positive threshold: Active has the counter below the threshold and no
   * overlay; Suppressing has it at or above the threshold and an overlay exactly
   * when overlays are enabled; the display copy equals the counter.
   */
  ghost predicate Inv(cfg: Config, s: State) {
    && cfg.idleThresholdSeconds >= 1
    && s.lastIdle == s.idleSeconds
    && (s.mode == Active ==> s.idleSeconds < cfg.idleThresholdSeconds && !s.overlayOpen)
    && (s.mode == Suppressing ==> s.idleSeconds >= cfg.idleThresholdSeconds && s.overlayOpen == cfg.showIdleOverlay)
  }

  lemma InitialInv(cfg: Config)
    requires cfg.idleThresholdSeconds >= 1
    ensures Inv(cfg, Initial)
  {
  }

  lemma StepKeepsInv(cfg: Config, s: State, x: Sample)
    requires Inv(cfg, s)
    ensures Inv(cfg, Step(cfg, s, x).next)
  {
  }

  /**
   * In a reachable Active state the "Activity detected" log of the Active
   * branch never fires: a tick emits exactly the entry events when it enters
   * Suppressing, and nothing otherwise.
   */
  lemma ActiveResumeLogUnreachable(cfg: Config, s: State, x: Sample)
    requires Inv(cfg, s) && s.mode == Active
    ensures Step(cfg, s, x).events == (if Step(cfg, s, x).next.mode == Suppressing then EntryEvents(cfg) else [])
  {
  }

  lemma {:induction false} RunKeepsInv(cfg: Config, s: State, xs: seq<Sample>)
    requires Inv(cfg, s)
    ensures Inv(cfg, Run(cfg, s, xs).next)
    decreases |xs|
  {
    if xs != [] {
      StepKeepsInv(cfg, s, xs[0]);
      RunKeepsInv(cfg, Step(cfg, s, xs[0]).next, xs[1..]);
    }
  }

  /** Every state the sampler reaches from the start satisfies the invariant. */
  lemma Reachable(cfg: Config, xs: seq<Sample>)
    requires cfg.idleThresholdSeconds >= 1
    ensures Inv(cfg, Run(cfg, Initial, xs).next)
  {
    InitialInv(cfg);
    RunKeepsInv(cfg, Initial, xs);
  }

  // ---------------------------------------------------------------------------
  // Runs of samples

  /** Samples with the pointer resting at `p` and a non-zero idle reading: no activity in either mode. */
  predicate Quiet(xs: seq<Sample>, p: Point) {
    forall i :: 0 <= i < |xs| ==> xs[i].position == p && xs[i].systemIdle != 0
  }

  /** Samples with the pointer resting at `p`, whatever the idle reading. */
  predicate PointerStill(xs: seq<Sample>, p: Point) {
    forall i :: 0 <= i < |xs| ==> xs[i].position == p
  }

  /** Quiet ticks below the threshold in Active mode count up and emit nothing. */
  lemma {:induction false} QuietBelowThreshold(cfg: Config, s: State, xs: seq<Sample>)
    requires Inv(cfg, s) && s.mode == Active
    requires Quiet(xs, s.lastMousePosition)
    requires s.idleSeconds + |xs| < cfg.idleThresholdSeconds
    ensures Run(cfg, s, xs).next == s.(idleSeconds := s.idleSeconds + |xs|, lastIdle := s.idleSeconds + |xs|)
    ensures Run(cfg, s, xs).events == []
    decreases |xs|
  {
    if xs != [] {
      var t := Step(cfg, s, xs[0]).next;
      assert t == s.(idleSeconds := s.idleSeconds + 1, lastIdle := s.idleSeconds + 1);
      assert Quiet(xs[1..], t.lastMousePosition) by {
        forall i | 0 <= i < |xs[1..]| ensures xs[1..][i].position == t.lastMousePosition && xs[1..][i].systemIdle != 0 {
          assert xs[1..][i] == xs[i + 1];
        }
      }
      QuietBelowThreshold(cfg, t, xs[1..]);
    }
  }

  /**
   * Exactly enough quiet ticks to reach the threshold enter Suppressing on the
   * last of them and emit the entry events once, and nothing before.
   */
  lemma QuietReachesThreshold(cfg: Config, s: State, xs: seq<Sample>)
    requires Inv(cfg, s) && s.mode == Active
    requires Quiet(xs, s.lastMousePosition)
    requires s.idleSeconds + |xs| == cfg.idleThresholdSeconds
    ensures Run(cfg, s, xs).next.mode == Suppressing
    ensures Run(cfg, s, xs).next.idleSeconds == cfg.idleThresholdSeconds
    ensures Run(cfg, s, xs).events == EntryEvents(cfg)
  {
    var n := |xs|;
    var front, last := xs[..n - 1], xs[n - 1];
    assert xs == front + [last];
    assert Quiet(front, s.lastMousePosition) by {
      forall i | 0 <= i < |front| ensures front[i].position == s.lastMousePosition && front[i].systemIdle != 0 {
        assert front[i] == xs[i];
      }
    }
    QuietBelowThreshold(cfg, s, front);
    RunSnoc(cfg, s, front, last);
  }

  /** In Suppressing mode, ticks with the pointer still keep Suppressing, count up and emit nothing. */
  lemma {:induction false} StillWhileSuppressing(cfg: Config, s: State, xs: seq<Sample>)
    requires s.mode == Suppressing
    requires PointerStill(xs, s.lastMousePosition)
    ensures Run(cfg, s, xs).next.mode == Suppressing
    ensures Run(cfg, s, xs).next.overlayOpen == s.overlayOpen
    ensures Run(cfg, s, xs).next.idleSeconds == s.idleSeconds + |xs|
    ensures Run(cfg, s, xs).events == []
    decreases |xs|
  {
    if xs != [] {
      var t := Step(cfg, s, xs[0]).next;
      assert PointerStill(xs[1..], t.lastMousePosition) by {
        forall i | 0 <= i < |xs[1..]| ensures xs[1..][i].position == t.lastMousePosition {
          assert xs[1..][i] == xs[i + 1];
        }
      }
      StillWhileSuppressing(cfg, t, xs[1..]);
    }
  }

  /**
   * Activity on the tick that comes before the threshold is reached resets the
   * counter and keeps Active: no entry, no event.
   */
  lemma ActivityBeforeThreshold(cfg: Config, s: State, xs: seq<Sample>, y: Sample)
    requires Inv(cfg, s) && s.mode == Active
    requires Quiet(xs, s.lastMousePosition)
    requires s.idleSeconds + |xs| < cfg.idleThresholdSeconds
    requires y.position != s.lastMousePosition || y.systemIdle == 0
    ensures Run(cfg, s, xs + [y]).next.mode == Active
    ensures Run(cfg, s, xs + [y]).next.idleSeconds == 0
    ensures Run(cfg, s, xs + [y]).events == []
  {
    QuietBelowThreshold(cfg, s, xs);
    RunSnoc(cfg, s, xs, y);
  }
}
