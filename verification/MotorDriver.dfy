/**
 The motor classes. Each method is proved against the functions of MotorModel, so what the lemmas say about
 those functions holds of these objects.
 */
module MotorDriver {
  import opened MotorModel
  import opened MotorSeek
  import opened MotorRotate
  import opened MotorRuns
  import opened Modulo

  const PINS := 4

  /** The half-step sequence of a four-wire unipolar motor. */
  const CYCLE: seq<seq<bool>> := [
    [true,  false, false, false],
    [true,  false, false, true ],
    [false, false, false, true ],
    [false, false, true,  true ],
    [false, false, true,  false],
    [false, true,  true,  false],
    [false, true,  false, false],
    [true,  true,  false, false]
  ]

  /** One coil changes on every step, in either direction and also across the ends of the sequence. */
  lemma OneCoilPerStep(s: int, up: bool)
    requires 0 <= s < COIL_STATES
    ensures var t := Wrap(if up then s + 1 else s - 1, COIL_STATES);
            && 0 <= t < COIL_STATES && |CYCLE[s]| == |CYCLE[t]| == PINS
            && exists p :: 0 <= p < PINS && CYCLE[t] == CYCLE[s][p := !CYCLE[s][p]]
  {
    var t := Wrap(if up then s + 1 else s - 1, COIL_STATES);
    var p := if CYCLE[s][0] != CYCLE[t][0] then 0 else if CYCLE[s][1] != CYCLE[t][1] then 1
             else if CYCLE[s][2] != CYCLE[t][2] then 2 else 3;
    assert CYCLE[t] == CYCLE[s][p := !CYCLE[s][p]];
  }

  class MotorIo4 {
    const pins: array<bool>
    var state: int

    ghost predicate Valid()
      reads this, pins
    {
      && pins.Length == PINS && 0 <= state < COIL_STATES
      && pins[..] == CYCLE[state]
    }

    constructor ()
      ensures Valid() && state == 0 && fresh(pins)
    {
      pins := new bool[PINS];
      state := 0;
      new;
      SetState(0);
    }

    method SetState(s: int)
      requires pins.Length == PINS && 0 <= s < COIL_STATES
      modifies this, pins
      ensures Valid() && state == s
    {
      var states := CYCLE[s];
      for i := 0 to PINS
        invariant pins[..i] == states[..i]
      {
        pins[i] := states[i];
      }
      assert pins[..] == pins[..PINS] == states;
      state := s;
    }

    method Step(up: bool)
      requires Valid()
      modifies this, pins
      ensures Valid() && state == Wrap(old(state) + (if up then 1 else -1), COIL_STATES)
    {
      var s := state + (if up then 1 else -1);
      if s < 0 {
        s := s + COIL_STATES;
      }
      if s >= COIL_STATES {
        s := s - COIL_STATES;
      }
      SetState(s);
    }
  }

  class Accelerator {
    const size: int
    var idx: int
    var state: Phase
    var dirnForward: bool
    const table: seq<int>
    const maxP: int
    const minP: int

    ghost function Ramp(): Ramp
      reads this
    {
      MotorModel.Ramp(size, idx, state, dirnForward)
    }

    ghost predicate Valid()
      reads this
    {
      ValidRamp(Ramp()) && |table| == size
    }

    constructor (maxP: int, minP: int, table: seq<int>)
      requires |table| >= 1
      ensures Valid() && Ramp() == MotorModel.Ramp(|table|, 0, Stop, true)
      ensures this.table == table && this.maxP == maxP && this.minP == minP
    {
      size := |table|;
      idx := 0;
      state := Stop;
      dirnForward := true;
      this.table := table;
      this.maxP := maxP;
      this.minP := minP;
    }

    /** No period is 0. */
    ghost predicate AllPositive() {
      maxP > 0 && minP > 0 && forall i :: 0 <= i < |table| ==> table[i] > 0
    }

    method Decelerate()
      requires Valid()
      modifies this
      ensures Valid() && Ramp() == MotorModel.Decelerate(old(Ramp()))
    {
      if !state.Stop? {
        state := Decel;
      }
    }

    /** The asserted facts are the assertions of the original: none of them can fail. */
    method Go(up: bool) returns (period: int)
      requires Valid()
      modifies this
      ensures Valid() && Ramp() == MotorModel.Go(old(Ramp()), up)
      ensures period == Period(old(Ramp()), up, table, maxP, minP)
    {
      if state.Stop? {
        dirnForward := up;
        state := Accel;
        return minP;
      }
      if dirnForward == up {
        if state.Full? {
          return maxP;
        }
        if state.Accel? {
          if idx + 1 == size {
            state := Full;
            return maxP;
          }
          idx := idx + 1;
          return table[idx];
        }
        assert state.Decel?;
        var v := table[idx];
        if idx > 0 {
          idx := idx - 1;
        }
        if idx == 0 {
          state := Stop;
        }
        return v;
      }
      assert dirnForward != up;
      if state.Full? {
        assert idx == size - 1;
        state := Decel;
        return table[idx];
      }
      assert state.Accel? || state.Decel?;
      if state.Accel? {
        state := Decel;
      }
      if idx > 0 {
        idx := idx - 1;
      }
      if idx == 0 {
        state := Stop;
        dirnForward := up;
      }
      return table[idx];
    }

    predicate Stopped()
      reads this
    {
      idx == 0
    }
  }

  lemma PeriodIsPositive(r: Ramp, up: bool, a: Accelerator)
    requires ValidRamp(r) && |a.table| == r.size
    ensures a.AllPositive() ==> Period(r, up, a.table, a.maxP, a.minP) > 0
  {
  }

  class Stepper {
    const io: MotorIo4
    const steps: int
    var count: int
    var target: int
    var rotateTo: int
    const accelerator: Accelerator

    ghost function Drive(): Drive
      reads this, accelerator
    {
      MotorModel.Drive(accelerator.Ramp(), steps, count, target, rotateTo)
    }

    ghost function Machine(): Machine
      reads this, accelerator, io
    {
      MotorRuns.Machine(Drive(), io.state)
    }

    ghost predicate Valid()
      reads this, accelerator, io, io.pins
    {
      accelerator.Valid() && io.Valid() && MotorModel.Valid(Drive())
    }

    constructor (cycle: int, io: MotorIo4, maxP: int, minP: int, table: seq<int>)
      requires cycle >= 1 && |table| >= 1 && io.Valid()
      ensures Valid() && fresh(accelerator) && this.io == io
      ensures Machine() == MotorRuns.Machine(PowerUp(|table|, cycle), io.state)
    {
      this.io := io;
      steps := cycle;
      count := 0;
      target := 0;
      rotateTo := NO_ROTATION;
      accelerator := new Accelerator(maxP, minP, table);
    }

    method Step(up: bool)
      requires io.Valid() && 0 <= count < steps
      modifies this`count, io, io.pins
      ensures io.Valid() && io.state == Wrap(old(io.state) + (if up then 1 else -1), COIL_STATES)
      ensures count == Wrap(old(count) + (if up then 1 else -1), steps)
    {
      io.Step(up);
      var c := count + (if up then 1 else -1);
      if c < 0 {
        c := c + steps;
      }
      if c >= steps {
        c := c - steps;
      }
      count := c;
    }

    method Seek(t: int)
      requires Valid()
      modifies this`target
      ensures Valid() && Machine() == Obey(old(Machine()), DoSeek(t))
      ensures Nearest(steps, t, target)
    {
      RequestsKeepValid(Drive(), t);
      ClipIsNearest(steps, t);
      target := Clip(t, steps);
    }

    method Rotate(t: int)
      requires Valid()
      modifies this`rotateTo
      ensures Valid() && Machine() == Obey(old(Machine()), DoRotate(t))
      ensures if (count - t) % steps == 0 then rotateTo == old(rotateTo) else (rotateTo - t) % steps == 0
    {
      RequestsKeepValid(Drive(), t);
      Congruent(count, t, steps);
      Congruent(t % steps, t, steps);
      var goal := t;
      while goal < 0
        invariant goal % steps == t % steps && rotateTo == old(rotateTo)
        decreases -goal
      {
        AddMultiple(goal, steps);
        goal := goal + steps;
      }
      goal := goal % steps;
      if goal != count {
        rotateTo := goal;
      }
    }

    method GetDelta() returns (delta: int)
      requires Valid()
      ensures delta == Delta(Drive())
    {
      if rotateTo == NO_ROTATION {
        return target - count;
      }
      var d := rotateTo - count;
      if d == 0 {
        return 0;
      }
      var half := steps / 2;
      if d > 0 {
        if d < half {
          return d;
        }
        return -d;
      }
      if d >= -half {
        return d;
      }
      return -d;
    }

    method IsReady() returns (ready: bool)
      requires Valid()
      ensures ready == Ready(Drive())
    {
      var delta := GetDelta();
      return delta == 0 && accelerator.idx == 0;
    }

    /** The braking decision of `Poll`. */
    method Brake(delta: int)
      requires Valid() && delta == Delta(Drive())
      modifies accelerator
      ensures accelerator.Valid() && accelerator.Ramp() == old(Braked(Drive()))
    {
      var state := accelerator.state;
      if state.Full? || state.Accel? {
        if Abs(delta) <= accelerator.idx {
          accelerator.Decelerate();
        }
      }
    }

    method Poll() returns (period: int)
      requires Valid()
      modifies this`count, this`target, this`rotateTo, accelerator, io, io.pins
      ensures Valid() && Machine() == Obey(old(Machine()), DoPoll)
      ensures old(Ready(Drive())) ==> period == 0
      ensures !old(Ready(Drive())) ==>
                period == Period(old(Braked(Drive())), old(Delta(Drive())) > 0,
                                 accelerator.table, accelerator.maxP, accelerator.minP)
      ensures accelerator.AllPositive() ==> (period == 0 <==> old(Ready(Drive())))
    {
      PollKeepsValid(Drive());
      var delta := GetDelta();
      if delta == 0 && accelerator.Stopped() {
        return 0;
      }
      Brake(delta);
      assert accelerator.Ramp() == old(Braked(Drive()));
      period := accelerator.Go(delta > 0);
      var travel := accelerator.dirnForward;
      Step(travel);
      PeriodIsPositive(old(Braked(Drive())), delta > 0, accelerator);
      assert Drive() == old(Advance(Drive()));
      if rotateTo != NO_ROTATION && rotateTo == count && accelerator.Stopped() {
        rotateTo := NO_ROTATION;
        target := count;
      }
    }

    /** The loop that waits for the motor: it ends, at rest on the goal, for every safe seek or rotation. */
    method Settle()
      requires Valid()
      requires rotateTo == NO_ROTATION ==> SafeSeek(Drive())
      requires rotateTo != NO_ROTATION ==> RotateSafe(accelerator.size, steps)
      modifies this`count, this`target, this`rotateTo, accelerator, io, io.pins
      ensures Valid() && Settled(old(Drive()), Drive())
    {
      ghost var start := Drive();
      if rotateTo == NO_ROTATION {
        SeekReachesTarget(start);
      } else {
        RotateReachesGoal(start);
      }
      ghost var left: nat :| Settled(start, Polls(start, left));
      var ready := IsReady();
      while !ready
        invariant Valid() && ready == Ready(Drive())
        invariant Settled(start, Polls(Drive(), left))
        decreases left
      {
        var period := Poll();
        left := left - 1;
        ready := IsReady();
      }
      ReadyForever(Drive(), left);
    }
  }
}
