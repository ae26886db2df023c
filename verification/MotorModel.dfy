/**
 The motion of a stepper motor as values: the four-phase acceleration ramp and the position controller
 stacked on it. These functions are the specification of the classes in MotorDriver; the lemmas of
 MotorSeek, MotorRotate and MotorRuns are about them.
 */
module MotorModel {

  datatype Phase = Stop | Accel | Decel | Full

  /** The ramp: `size` speeds, the current speed `idx`, and the direction of travel. */
  datatype Ramp = Ramp(size: int, idx: int, phase: Phase, forward: bool)

  /** The position controller. `rotateTo` is -1 when no rotation is pending. */
  datatype Drive = Drive(ramp: Ramp, steps: int, count: int, target: int, rotateTo: int)

  const NO_ROTATION := -1

  ghost predicate ValidRamp(r: Ramp) {
    && 0 <= r.idx < r.size
    && (r.phase.Stop? ==> r.idx == 0)
    && (r.phase.Full? ==> r.idx == r.size - 1)
  }

  ghost predicate InRange(d: Drive) {
    && ValidRamp(d.ramp)
    && 0 <= d.count < d.steps
    && 0 <= d.target < d.steps
    && NO_ROTATION <= d.rotateTo < d.steps
  }

  /** What every call keeps. A pending rotation is never already home: `rotate` does not start one there
      and `poll` clears one that arrives. */
  ghost predicate Valid(d: Drive) {
    && InRange(d)
    && (d.rotateTo != NO_ROTATION ==> !Ready(d))
  }

  function Decelerate(r: Ramp): Ramp {
    if r.phase.Stop? then r else r.(phase := Decel)
  }

  /** The ramp slows by one speed and stops at the lowest, facing `facing` once stopped. */
  function SlowDown(r: Ramp, facing: bool): Ramp {
    var idx := if r.idx > 0 then r.idx - 1 else r.idx;
    if idx == 0 then r.(idx := 0, phase := Stop, forward := facing) else r.(idx := idx, phase := Decel)
  }

  /** One step of the ramp when asked to travel forwards (`up`) or backwards. */
  function Go(r: Ramp, up: bool): Ramp {
    if r.phase.Stop? then r.(phase := Accel, forward := up)
    else if r.forward == up then
      match r.phase
      case Full => r
      case Accel => if r.idx + 1 == r.size then r.(phase := Full) else r.(idx := r.idx + 1)
      case Decel => SlowDown(r, r.forward)
      case Stop => r
    else if r.phase.Full? then r.(phase := Decel)
    else SlowDown(r, up)
  }

  /** The step period that goes with that step: `slow` and `fast` at the two ends, the table in between. */
  function Period(r: Ramp, up: bool, table: seq<int>, slow: int, fast: int): int
    requires ValidRamp(r) && |table| == r.size
  {
    if r.phase.Stop? then fast
    else if r.forward == up then
      match r.phase
      case Full => slow
      case Accel => if r.idx + 1 == r.size then slow else table[r.idx + 1]
      case Decel => table[r.idx]
      case Stop => fast
    else table[Go(r, up).idx]
  }

  function Wrap(c: int, steps: int): int {
    var low := if c < 0 then c + steps else c;
    if low >= steps then low - steps else low
  }

  function Delta(d: Drive): int {
    if d.rotateTo == NO_ROTATION then d.target - d.count
    else
      var x := d.rotateTo - d.count;
      var half := d.steps / 2;
      if x == 0 then 0
      else if x > 0 then (if x < half then x else -x)
      else (if x >= -half then x else -x)
  }

  function Abs(x: int): nat {
    if x < 0 then -x else x
  }

  predicate Ready(d: Drive) {
    Delta(d) == 0 && d.ramp.idx == 0
  }

  /** The braking decision of `poll`. */
  function Braked(d: Drive): Ramp {
    if (d.ramp.phase.Full? || d.ramp.phase.Accel?) && Abs(Delta(d)) <= d.ramp.idx then Decelerate(d.ramp) else d.ramp
  }

  /** One motor step: brake or not, let the ramp step, move one position. */
  function Advance(d: Drive): Drive {
    var r := Go(Braked(d), Delta(d) > 0);
    d.(ramp := r, count := Wrap(d.count + (if r.forward then 1 else -1), d.steps))
  }

  /** A rotation is over when it is on its goal at the lowest speed. */
  function Arrive(d: Drive): Drive {
    if d.rotateTo != NO_ROTATION && d.rotateTo == d.count && d.ramp.idx == 0
    then d.(rotateTo := NO_ROTATION, target := d.count)
    else d
  }

  function Poll(d: Drive): Drive {
    if Ready(d) then d else Arrive(Advance(d))
  }

  function Clip(t: int, steps: int): int {
    if t < 0 then 0 else if t >= steps then steps - 1 else t
  }

  function Seek(d: Drive, t: int): Drive {
    d.(target := Clip(t, d.steps))
  }

  function Rotate(d: Drive, t: int): Drive
    requires d.steps > 0
  {
    if t % d.steps != d.count then d.(rotateTo := t % d.steps) else d
  }

  function PowerUp(size: int, steps: int): Drive {
    Drive(Ramp(size, 0, Stop, true), steps, 0, 0, NO_ROTATION)
  }

  /** `k` polls, one after the other. */
  function Polls(d: Drive, k: nat): Drive
    decreases k
  {
    if k == 0 then d else Polls(Poll(d), k - 1)
  }

  /** `k` motor steps, without the tests of `poll` for being home. */
  function Steps(d: Drive, k: nat): Drive {
    Times(Advance, d, k)
  }

  function Times<T>(f: T -> T, x: T, k: nat): T
    decreases k
  {
    if k == 0 then x else Times(f, f(x), k - 1)
  }

  lemma {:induction false} PollsAdd(d: Drive, i: nat, j: nat)
    ensures Polls(d, i + j) == Polls(Polls(d, i), j)
    decreases i
  {
    if i > 0 {
      PollsAdd(Poll(d), i - 1, j);
    }
  }

  lemma {:induction false} TimesAdd<T>(f: T -> T, x: T, i: nat, j: nat)
    ensures Times(f, x, i + j) == Times(f, Times(f, x, i), j)
    decreases i
  {
    if i > 0 {
      TimesAdd(f, f(x), i - 1, j);
    }
  }

  lemma WrapIsModulo(c: int, steps: int)
    requires steps >= 1 && -1 <= c <= steps
    ensures Wrap(c, steps) == c % steps
  {
  }

  lemma AdvanceKeepsRange(d: Drive)
    requires InRange(d) && !Ready(d)
    ensures InRange(Advance(d))
    ensures Advance(d).steps == d.steps && Advance(d).ramp.size == d.ramp.size
  {
  }

  lemma ArriveIsValid(d: Drive)
    requires InRange(d)
    ensures Valid(Arrive(d)) && Arrive(d).steps == d.steps && Arrive(d).ramp.size == d.ramp.size
  {
  }

  /** Every entry point keeps the invariant, so it holds in every run from power-up. */
  lemma PollKeepsValid(d: Drive)
    requires Valid(d)
    ensures Valid(Poll(d))
    ensures Poll(d).steps == d.steps && Poll(d).ramp.size == d.ramp.size
  {
    if !Ready(d) {
      AdvanceKeepsRange(d);
      ArriveIsValid(Advance(d));
    }
  }

  lemma RequestsKeepValid(d: Drive, t: int)
    requires Valid(d)
    ensures Valid(Seek(d, t)) && Valid(Rotate(d, t))
  {
  }

  lemma {:induction false} PollsKeepValid(d: Drive, k: nat)
    requires Valid(d)
    ensures Valid(Polls(d, k))
    ensures Polls(d, k).steps == d.steps && Polls(d, k).ramp.size == d.ramp.size
    decreases k
  {
    if k > 0 {
      PollKeepsValid(d);
      PollsKeepValid(Poll(d), k - 1);
    }
  }

  /** Once home, a drive stays home. */
  lemma {:induction false} ReadyForever(d: Drive, k: nat)
    requires Ready(d)
    ensures Polls(d, k) == d
    decreases k
  {
    if k > 0 {
      ReadyForever(Poll(d), k - 1);
    }
  }
}
