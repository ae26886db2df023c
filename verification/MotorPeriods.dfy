/**
 The step periods of whole ramps, told from the period table alone: on the way up, at full speed, on the way
 down, and when the motor is called back.
 */
module MotorPeriods {
  import opened MotorModel

  /** The two ends of the range of periods and the table between them. */
  datatype Timing = Timing(table: seq<int>, maxP: int, minP: int)

  /** `k` steps of the ramp, all asked to go the same way. */
  function Gone(r: Ramp, up: bool, k: nat): Ramp
    decreases k
  {
    if k == 0 then r else Go(Gone(r, up, k - 1), up)
  }

  /** The period of the step after `k` others. */
  function PeriodAfter(r: Ramp, up: bool, k: nat, t: Timing): int
    requires ValidRamp(Gone(r, up, k)) && |t.table| == Gone(r, up, k).size
  {
    Period(Gone(r, up, k), up, t.table, t.maxP, t.minP)
  }

  lemma {:induction false} GoneUp(r: Ramp, up: bool, k: nat)
    requires ValidRamp(r) && r.phase.Stop? && k > 0
    ensures Gone(r, up, k) == if k <= r.size then Ramp(r.size, k - 1, Accel, up) else Ramp(r.size, r.size - 1, Full, up)
    decreases k
  {
    if k > 1 {
      GoneUp(r, up, k - 1);
    }
  }

  /** From a stop: first `minP`, then the table upwards from its second entry, and then `maxP` for as long as the
      motor is not told to brake. */
  lemma PeriodsUp(r: Ramp, up: bool, k: nat, t: Timing)
    requires ValidRamp(r) && r.phase.Stop? && |t.table| == r.size
    ensures ValidRamp(Gone(r, up, k)) && Gone(r, up, k).size == r.size
    ensures PeriodAfter(r, up, k, t) == if k == 0 then t.minP else if k < r.size then t.table[k] else t.maxP
  {
    if k > 0 {
      GoneUp(r, up, k);
    }
  }

  /** How many steps it takes to stop. */
  function ToStop(r: Ramp): int {
    if r.idx > 0 then r.idx else 1
  }

  lemma {:induction false} GoneDown(r: Ramp, up: bool, k: nat)
    requires ValidRamp(r) && r.phase.Decel? && k <= ToStop(r)
    ensures Gone(r, up, k) == if k < ToStop(r) then r.(idx := r.idx - k) else Ramp(r.size, 0, Stop, up)
    decreases k
  {
    if k > 0 {
      GoneDown(r, up, k - 1);
    }
  }

  /** Braking: from each speed its own entry of the table, downwards, to a stop. */
  lemma PeriodsDown(r: Ramp, k: nat, t: Timing)
    requires ValidRamp(r) && r.phase.Decel? && |t.table| == r.size && k < ToStop(r)
    ensures ValidRamp(Gone(r, r.forward, k)) && Gone(r, r.forward, k).size == r.size
    ensures PeriodAfter(r, r.forward, k, t) == t.table[r.idx - k]
    ensures Gone(r, r.forward, ToStop(r)) == Ramp(r.size, 0, Stop, r.forward)
  {
    GoneDown(r, r.forward, k);
    GoneDown(r, r.forward, ToStop(r));
  }

  function Lower(r: Ramp, k: nat): int {
    if r.idx > k then r.idx - k - 1 else 0
  }

  lemma {:induction false} GoneBack(r: Ramp, k: nat)
    requires ValidRamp(r) && (r.phase.Accel? || r.phase.Decel?) && k <= ToStop(r)
    ensures var s := Gone(r, !r.forward, k);
            if k == 0 then s == r
            else if k < ToStop(r) then s == r.(idx := r.idx - k, phase := Decel)
            else s == Ramp(r.size, 0, Stop, !r.forward)
    decreases k
  {
    if k > 0 {
      GoneBack(r, k - 1);
    }
  }

  /** Called back: each step has the period of the speed it slows down to, and the motor stops facing the other way. */
  lemma PeriodsBack(r: Ramp, k: nat, t: Timing)
    requires ValidRamp(r) && (r.phase.Accel? || r.phase.Decel?) && |t.table| == r.size && k < ToStop(r)
    ensures ValidRamp(Gone(r, !r.forward, k)) && Gone(r, !r.forward, k).size == r.size
    ensures PeriodAfter(r, !r.forward, k, t) == t.table[Lower(r, k)]
    ensures Gone(r, !r.forward, ToStop(r)) == Ramp(r.size, 0, Stop, !r.forward)
  {
    GoneBack(r, k);
    GoneBack(r, ToStop(r));
  }

  /** Called back at full speed: one step at the top entry of the table before it slows down. */
  lemma PeriodsBackFromFull(r: Ramp, t: Timing)
    requires ValidRamp(r) && r.phase.Full? && |t.table| == r.size
    ensures PeriodAfter(r, !r.forward, 0, t) == t.table[r.size - 1]
    ensures Gone(r, !r.forward, 1) == r.(phase := Decel)
  {
    assert Gone(r, !r.forward, 0) == r;
  }
}
