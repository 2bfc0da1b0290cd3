/**
 * GetIdleTimeSeconds: the seconds since the last real input, from two 32-bit
 * millisecond tick counts. Environment.TickCount is the low 32 bits of the
 * uptime in milliseconds read as a signed `int`; LASTINPUTINFO.dwTime is the
 * tick count of the last input as a `uint`. The operating-system calls that
 * produce them are not part of this model; both values are parameters.
 */
module IdleTime {
  import opened Text
  import Arithmetic

  const TickModulus: int := 0x1_0000_0000

  /** The C# cast `(uint)` of an `int`: the same 32 bits read as unsigned. */
  function AsUInt32(i: int32): (u: uint32)
    ensures u == if i < 0 then i + TickModulus else i
  {
    i % TickModulus
  }

  /** `((uint)Environment.TickCount - lii.dwTime) / 1000`, with unsigned wrap-around on the subtraction. */
  function GetIdleTimeSeconds(tickCount: int32, dwTime: uint32): (seconds: uint32)
    ensures seconds <= 4294967
  {
    ((AsUInt32(tickCount) - dwTime) % TickModulus) / 1000
  }

  /** The value Environment.TickCount reports after `uptimeMs` milliseconds. */
  function TickCountAt(uptimeMs: nat): (t: int32)
    ensures AsUInt32(t) == uptimeMs % TickModulus
  {
    var low := uptimeMs % TickModulus;
    if low < 0x8000_0000 then low else low - TickModulus
  }

  /**
   * The idle time is right across a wrap of the tick counter: whenever the last
   * input lies less than 2^32 ms (about 49.7 days) in the past, the result is
   * the whole seconds elapsed since it, even when the counter has wrapped to
   * negative or past zero in between.
   */
  lemma IdleAcrossWrap(lastInputMs: nat, nowMs: nat)
    requires lastInputMs <= nowMs < lastInputMs + TickModulus
    ensures GetIdleTimeSeconds(TickCountAt(nowMs), lastInputMs % TickModulus) == (nowMs - lastInputMs) / 1000
  {
    var qa, ra := nowMs / TickModulus, nowMs % TickModulus;
    var qb, rb := lastInputMs / TickModulus, lastInputMs % TickModulus;
    var elapsed := nowMs - lastInputMs;
    assert ra - rb == TickModulus * (qb - qa) + elapsed;
    Arithmetic.DivModUnique(ra - rb, TickModulus, qb - qa, elapsed);
  }
}
