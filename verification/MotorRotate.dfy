/**
 Rotations: the drive takes a way round the circle, and `Delta` misreports how far it is when that way
 crosses zero, so it may brake too late. Each stop is nevertheless nearer than the one before.
 */
module MotorRotate {
  import opened MotorModel
  import opened MotorSeek
  import opened Modulo

  ghost predicate Rotating(d: Drive) {
    InRange(d) && d.rotateTo != NO_ROTATION
  }

  /** The goal lies `off` positions ahead in direction `g`, or behind when `off` is negative. */
  ghost predicate GoalAt(d: Drive, g: bool, off: int) {
    var x := if g then d.rotateTo - d.count else d.count - d.rotateTo;
    x == off || x == off - d.steps || x == off + d.steps
  }

  /** As GoalAt, and the drive knows which way the goal is. */
  ghost predicate Senses(d: Drive, g: bool, off: int) {
    && GoalAt(d, g, off)
    && PathLeft(d) == Abs(off)
    && (off == 0 ==> Delta(d) == 0)
    && (off > 0 ==> Delta(d) != 0 && Heading(d) == g)
    && (off < 0 ==> Delta(d) != 0 && Heading(d) == !g)
  }

  /** Where braking from speed `idx` with the goal `off` ahead leaves the drive: short of the goal, or past
      it and, with the last step taken backwards, two positions nearer than it coasted. */
  ghost function RestDistance(idx: int, off: int): int {
    if idx <= off then off - idx
    else if idx - off <= 2 then (if idx - off == 1 then 1 else 0)
    else idx - off - 2
  }

  lemma BrakeStep(d: Drive, g: bool, off: int)
    requires Rotating(d) && d.steps >= 4 && d.ramp.phase.Decel? && d.ramp.idx > 1 && d.ramp.forward == g
    requires Senses(d, g, off) && d.ramp.idx - off <= d.steps / 2
    ensures var a := Advance(d);
            && SameGoal(d, a) && InRange(a)
            && a.ramp == d.ramp.(idx := d.ramp.idx - 1) && Senses(a, g, off - 1)
  {
  }

  lemma LastBrakeStep(d: Drive, g: bool, off: int)
    requires Rotating(d) && d.steps >= 4 && d.ramp.phase.Decel? && d.ramp.idx == 1 && d.ramp.forward == g
    requires Senses(d, g, off) && 1 - off <= d.steps / 2
    ensures var a := Advance(d);
            SameGoal(d, a) && InRange(a) && a.ramp.phase.Stop? && PathLeft(a) == RestDistance(1, off)
  {
  }

  lemma BrakeNext(d: Drive, g: bool, off: int) returns (a: Drive)
    requires Rotating(d) && d.steps >= 4 && d.ramp.phase.Decel? && d.ramp.idx >= 1 && d.ramp.forward == g
    requires Senses(d, g, off) && d.ramp.idx - off <= d.steps / 2
    ensures Gets(d, 1, a) && InRange(a) && SameGoal(d, a)
    ensures if d.ramp.idx == 1 then a.ramp.phase.Stop? && PathLeft(a) == RestDistance(1, off)
            else a.ramp == d.ramp.(idx := d.ramp.idx - 1) && Senses(a, g, off - 1)
  {
    GetsOne(d);
    a := Advance(d);
    if d.ramp.idx == 1 {
      LastBrakeStep(d, g, off);
    } else {
      BrakeStep(d, g, off);
    }
  }

  lemma {:induction false} BrakeRun(d: Drive, g: bool, off: int) returns (s: Drive)
    requires Rotating(d) && d.steps >= 4 && d.ramp.phase.Decel? && d.ramp.idx >= 1 && d.ramp.forward == g
    requires Senses(d, g, off) && d.ramp.idx - off <= d.steps / 2
    ensures Gets(d, d.ramp.idx, s) && InRange(s) && SameGoal(d, s) && s.ramp.phase.Stop?
    ensures PathLeft(s) == RestDistance(d.ramp.idx, off)
    decreases d.ramp.idx
  {
    s := BrakeNext(d, g, off);
    if d.ramp.idx > 1 {
      var a := s;
      s := BrakeRun(a, g, off - 1);
      GetsOn(d, 1, a, d.ramp.idx - 1, s);
    }
  }

  /** On its way from a stop `e` positions away. */
  ghost predicate Closing(d: Drive, g: bool, e: int) {
    && Rotating(d) && (d.ramp.phase.Accel? || d.ramp.phase.Full?) && d.ramp.forward == g
    && Senses(d, g, PathLeft(d))
    && PathLeft(d) + d.ramp.idx < e <= d.steps - d.steps / 2
  }

  lemma ClosingStarts(d: Drive)
    requires Rotating(d) && d.ramp.phase.Stop? && !Ready(d)
    ensures Closing(Advance(d), Heading(d), PathLeft(d)) && SameGoal(d, Advance(d))
  {
    TowardStep(d);
  }

  lemma ClosingStep(d: Drive, g: bool, e: int)
    requires Closing(d, g, e) && Abs(Delta(d)) > d.ramp.idx
    ensures Closing(Advance(d), g, e) && SameGoal(d, Advance(d)) && PathLeft(Advance(d)) < PathLeft(d)
  {
    TowardStep(d);
  }

  /** The state that brakes on an approach, before its first step. */
  function Braking(d: Drive): Drive {
    d.(ramp := d.ramp.(phase := Decel))
  }

  lemma BrakingBegins(d: Drive, g: bool, e: int)
    requires Closing(d, g, e) && RotateSafe(d.ramp.size, d.steps) && !Ready(d) && Abs(Delta(d)) <= d.ramp.idx
    ensures var b := Braking(d);
            && Rotating(b) && b.steps >= 4 && b.ramp.idx >= 1 && b.ramp.forward == g
            && Senses(b, g, PathLeft(d)) && b.ramp.idx - PathLeft(d) <= b.steps / 2
  {
    assert d.ramp.idx >= 1 && e >= 2;
    assert d.steps >= 4;
    var b := Braking(d);
    assert PathLeft(b) == PathLeft(d) && Delta(b) == Delta(d);
  }

  lemma SameFirstStep(d: Drive, k: nat, s: Drive)
    requires (d.ramp.phase.Full? || d.ramp.phase.Accel?) && Abs(Delta(d)) <= d.ramp.idx
    requires k > 0 && Gets(Braking(d), k, s)
    ensures Gets(d, k, s)
  {
    var b := Braking(d);
    assert Name(b, 0);
    assert Delta(b) == Delta(d);
    assert Braked(d) == Braked(b);
  }

  /** Braking that starts on an approach: late, early or on time, the next stop is nearer. */
  lemma ClosingBrakes(d: Drive, g: bool, e: int) returns (k: nat, s: Drive)
    requires Closing(d, g, e) && RotateSafe(d.ramp.size, d.steps) && !Ready(d) && Abs(Delta(d)) <= d.ramp.idx
    ensures Gets(d, k, s) && SameGoal(d, s) && InRange(s) && s.ramp.phase.Stop? && PathLeft(s) < e
    ensures k <= d.ramp.size
  {
    BrakingBegins(d, g, e);
    k := d.ramp.idx;
    s := BrakeRun(Braking(d), g, PathLeft(d));
    SameFirstStep(d, k, s);
  }

  lemma ClosingNext(d: Drive, g: bool, e: int) returns (a: Drive)
    requires Closing(d, g, e) && Abs(Delta(d)) > d.ramp.idx
    ensures Gets(d, 1, a) && Closing(a, g, e) && SameGoal(d, a) && PathLeft(a) < PathLeft(d)
  {
    GetsOne(d);
    ClosingStep(d, g, e);
    a := Advance(d);
  }

  /** Every approach ends home, or at a stop nearer than the one it left. */
  lemma {:induction false} ClosingEnds(d: Drive, g: bool, e: int) returns (k: nat, s: Drive)
    requires Closing(d, g, e) && RotateSafe(d.ramp.size, d.steps)
    ensures Gets(d, k, s) && SameGoal(d, s) && InRange(s) && (Ready(s) || (s.ramp.phase.Stop? && PathLeft(s) < e))
    ensures k <= PathLeft(d) + d.ramp.size
    decreases PathLeft(d)
  {
    PathLeftBound(d);
    if Ready(d) {
      GetsNowhere(d);
      return 0, d;
    }
    if Abs(Delta(d)) <= d.ramp.idx {
      k, s := ClosingBrakes(d, g, e);
    } else {
      var a := ClosingNext(d, g, e);
      PathLeftBound(a);
      k, s := ClosingEnds(a, g, e);
      GetsOn(d, 1, a, k, s);
      k := 1 + k;
    }
  }

  /** The geometries on which every rotation ends: all but a circle of three positions with a real ramp. */
  predicate RotateSafe(size: int, steps: int) {
    steps != 3 || size == 1
  }

  /** How long an approach and the stop after it can take. */
  function Stage(d: Drive): int {
    d.steps + d.ramp.size
  }

  /** How long a rotation can take: every approach brings it nearer by a position at least. */
  function RotateBound(d: Drive): int {
    (d.steps + 1) * Stage(d) + 1
  }

  lemma OneMore(e: int, f: int, c: int)
    requires 0 <= f < e && c >= 0
    ensures c + f * c <= e * c
  {
    assert (e - f - 1) * c >= 0;
    assert (e - f - 1) * c == e * c - f * c - c;
  }

  lemma RotateStarts(d: Drive) returns (a: Drive, g: bool)
    requires Rotating(d) && d.ramp.phase.Stop? && !Ready(d)
    ensures Gets(d, 1, a) && SameGoal(d, a) && Closing(a, g, PathLeft(d))
  {
    GetsOne(d);
    ClosingStarts(d);
    a, g := Advance(d), Heading(d);
  }

  lemma {:induction false} RotateFromStop(d: Drive) returns (k: nat, s: Drive)
    requires Rotating(d) && d.ramp.phase.Stop? && RotateSafe(d.ramp.size, d.steps)
    ensures Gets(d, k, s) && SameGoal(d, s) && Ready(s)
    ensures k <= PathLeft(d) * Stage(d)
    decreases PathLeft(d)
  {
    PathLeftBound(d);
    if Ready(d) {
      GetsNowhere(d);
      assert PathLeft(d) * Stage(d) >= 0;
      return 0, d;
    }
    var a, g := RotateStarts(d);
    var i, j: nat;
    i, s := ClosingEnds(a, g, PathLeft(d));
    GetsOn(d, 1, a, i, s);
    k, j := 1 + i, 0;
    var left := 0;
    if !Ready(s) {
      var m := s;
      left := PathLeft(m);
      PathLeftBound(m);
      j, s := RotateFromStop(m);
      GetsOn(d, 1 + i, m, j, s);
      k := 1 + i + j;
    }
    StageCount(i, j, left, PathLeft(d), PathLeft(a), d.steps, d.ramp.size);
  }

  lemma StageCount(i: nat, j: nat, left: int, e: int, p: int, steps: int, size: int)
    requires 0 <= left < e <= steps && p < e && size >= 1
    requires i <= p + size && j <= left * (steps + size)
    ensures 1 + i + j <= e * (steps + size)
  {
    OneMore(e, left, steps + size);
  }

  lemma RotateSettles(d: Drive) returns (k: nat, s: Drive)
    requires Rotating(d) && RotateSafe(d.ramp.size, d.steps)
    ensures Gets(d, k, s) && SameGoal(d, s) && Ready(s) && k <= RotateBound(d)
  {
    PathLeftBound(d);
    var i, j: nat := 0, 0;
    i, s := ComesToStop(d);
    var left := 0;
    if !Ready(s) {
      var m := s;
      PathLeftBound(m);
      left := PathLeft(m);
      j, s := RotateFromStop(m);
      GetsOn(d, i, m, j, s);
    }
    k := i + j;
    WithinBound(i, j, d.steps, left, PathLeft(d), d.ramp.size);
  }

  lemma WithinBound(i: nat, j: nat, steps: int, left: int, first: int, size: int)
    requires 0 <= left <= steps && first <= steps && size >= 1
    requires i <= first + size + 1 && j <= left * (steps + size)
    ensures i + j <= (steps + 1) * (steps + size) + 1
  {
    OneMore(steps + 1, left, steps + size);
  }

  /** A rotation sets out the shorter way round, but for a way back that is longer by one position. */
  lemma ShorterWay(d: Drive)
    requires Rotating(d) && d.rotateTo != d.count
    ensures var ahead := (d.rotateTo - d.count) % d.steps; var back := (d.count - d.rotateTo) % d.steps;
            && ahead + back == d.steps
            && if Delta(d) > 0 then ahead < back else back <= ahead + 1
  {
    var x := d.rotateTo - d.count;
    if x > 0 {
      Small(x, d.steps);
      AddMultiple(-x, d.steps);
      Small(d.steps - x, d.steps);
    } else {
      Small(-x, d.steps);
      AddMultiple(x, d.steps);
      Small(d.steps + x, d.steps);
    }
  }

  /** Main result for rotations: on a safe geometry, from every state with a rotation pending, within so many
      polls the drive is at rest on the goal, the rotation cleared and the goal the new target. */
  lemma RotateReachesGoal(d: Drive)
    requires Valid(d) && d.rotateTo != NO_ROTATION && RotateSafe(d.ramp.size, d.steps)
    ensures exists k: nat :: k <= RotateBound(d) && Settled(d, Polls(d, k))
  {
    var i, s := RotateSettles(d);
    var k, p := StepsToPolls(d, i, s);
    assert Name(d, 0);
    assert Polls(d, k) == p;
  }
}
