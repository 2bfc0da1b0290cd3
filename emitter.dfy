/**
 * One iteration of KeepAwakeMonitor.PressF15Loop: when the Suppressing flag is
 * set, press and release F15 and sleep for the configured interval; otherwise
 * sleep for half a second. The keystrokes are keybd_event calls and the sleep
 * is a Thread.Sleep argument; both are the iteration's result here.
 */
module Emitter {
  import opened Text
  import Arithmetic

  const VK_F15 := 0x7E
  const KEYEVENTF_KEYUP := 0x0002
  const IdlePollMs := 500

  /** The virtual-key code and flags of one keybd_event call. */
  datatype KeyEvent = KeyEvent(virtualKey: int, flags: int)

  const PressF15 := KeyEvent(VK_F15, 0)
  const ReleaseF15 := KeyEvent(VK_F15, KEYEVENTF_KEYUP)

  /** The keystrokes of one iteration and the milliseconds it then sleeps. */
  datatype Action = Action(keys: seq<KeyEvent>, sleepMs: int32)

  /** The unchecked C# `int` result of an integer computation: its low 32 bits, signed. */
  function WrapInt32(x: int): (w: int32)
    ensures (w - x) % 0x1_0000_0000 == 0
    ensures -0x8000_0000 <= x < 0x8000_0000 ==> w == x
  {
    var low := x % 0x1_0000_0000;
    if low < 0x8000_0000 then low else low - 0x1_0000_0000
  }

  /** The decision one iteration takes, given the flag it reads and `f15IntervalSeconds`. */
  function PressF15Step(pressing: bool, intervalSeconds: int32): Action {
    if pressing then Action([PressF15, ReleaseF15], WrapInt32(intervalSeconds * 1000))
    else Action([], IdlePollMs)
  }

  /**
   * While suppressing, an iteration presses F15 and then releases it, and sleeps
   * the interval in milliseconds as long as that fits in an `int`; otherwise it
   * emits nothing and polls again after 500 ms.
   */
  lemma StepAction(pressing: bool, intervalSeconds: int32)
    ensures pressing ==> PressF15Step(pressing, intervalSeconds).keys == [PressF15, ReleaseF15]
    ensures pressing && 0 <= intervalSeconds <= 2147483 ==>
            PressF15Step(pressing, intervalSeconds).sleepMs == intervalSeconds * 1000
    ensures !pressing ==> PressF15Step(pressing, intervalSeconds) == Action([], IdlePollMs)
  {
  }

  /**
   * An interval above 2147483 seconds overflows `intervalSeconds * 1000`: the
   * sleep is not the interval, and up to 4294967 seconds it wraps to a negative
   * number, which Thread.Sleep rejects.
   */
  lemma IntervalOverflow(intervalSeconds: int32)
    requires intervalSeconds > 2147483
    ensures PressF15Step(true, intervalSeconds).sleepMs != intervalSeconds * 1000
    ensures intervalSeconds <= 4294967 ==>
            PressF15Step(true, intervalSeconds).sleepMs == intervalSeconds * 1000 - 0x1_0000_0000 < -1
  {
    var x := intervalSeconds * 1000;
    if intervalSeconds <= 4294967 {
      assert 0x8000_0000 <= x < 0x1_0000_0000;
      Arithmetic.DivModUnique(x, 0x1_0000_0000, 0, x);
    }
  }
  /**
   * A negative interval in the configuration reaches Thread.Sleep as a negative
   * number of milliseconds (an interval of -1 seconds gives -1000, not the
   * infinite wait that -1 ms would mean).
   */
  lemma NegativeInterval(intervalSeconds: int32)
    requires -2147483 <= intervalSeconds < 0
    ensures PressF15Step(true, intervalSeconds).sleepMs == intervalSeconds * 1000 < -1
  {
  }


  // ---------------------------------------------------------------------------
  // A finite stretch of the loop

  /** The keystrokes of successive iterations, given the flag each one read. */
  function Keystrokes(flags: seq<bool>, intervalSeconds: int32): seq<KeyEvent> {
    if flags == [] then []
    else PressF15Step(flags[0], intervalSeconds).keys + Keystrokes(flags[1..], intervalSeconds)
  }

  /** The total time slept by those iterations. */
  function SleptMs(flags: seq<bool>, intervalSeconds: int32): int {
    if flags == [] then 0
    else PressF15Step(flags[0], intervalSeconds).sleepMs + SleptMs(flags[1..], intervalSeconds)
  }

  function CountSet(flags: seq<bool>): (n: nat)
    ensures n <= |flags|
  {
    if flags == [] then 0 else (if flags[0] then 1 else 0) + CountSet(flags[1..])
  }

  /**
   * Successive iterations emit one press-release pair per iteration that saw
   * the flag set, and nothing else: the keystrokes alternate press, release.
   */
  lemma {:induction false} KeystrokesPaired(flags: seq<bool>, intervalSeconds: int32)
    ensures |Keystrokes(flags, intervalSeconds)| == 2 * CountSet(flags)
    ensures forall i :: 0 <= i < |Keystrokes(flags, intervalSeconds)| ==>
              Keystrokes(flags, intervalSeconds)[i] == (if i % 2 == 0 then PressF15 else ReleaseF15)
  {
    if flags != [] {
      KeystrokesPaired(flags[1..], intervalSeconds);
      var rest := Keystrokes(flags[1..], intervalSeconds);
      var ks := Keystrokes(flags, intervalSeconds);
      if flags[0] {
        assert ks == [PressF15, ReleaseF15] + rest;
        forall i | 0 <= i < |ks| ensures ks[i] == (if i % 2 == 0 then PressF15 else ReleaseF15) {
          if i >= 2 {
            assert ks[i] == rest[i - 2];
          }
        }
      } else {
        assert ks == rest;
      }
    }
  }

  /**
   * While the flag stays set, n iterations emit n pulses and take n intervals:
   * one pulse per interval, never more.
   */
  lemma {:induction false} SuppressingCadence(flags: seq<bool>, intervalSeconds: int32)
    requires forall i :: 0 <= i < |flags| ==> flags[i]
    requires 0 <= intervalSeconds <= 2147483
    ensures CountSet(flags) == |flags|
    ensures SleptMs(flags, intervalSeconds) == |flags| * intervalSeconds * 1000
  {
    if flags != [] {
      SuppressingCadence(flags[1..], intervalSeconds);
      StepAction(true, intervalSeconds);
      assert (|flags| - 1) * intervalSeconds * 1000 + intervalSeconds * 1000 == |flags| * intervalSeconds * 1000;
    }
  }
}
