/**
 Whole runs of the motor from power-up: any mixture of seeks, rotations and polls. What every run keeps,
 and exactly which geometries let every seek and every rotation come to an end.
 */
module MotorRuns {
  import opened MotorModel
  import opened MotorSeek
  import opened MotorRotate
  import opened Modulo

  const COIL_STATES := 8

  /** A drive and the phase of the coils it steps through. */
  datatype Machine = Machine(drive: Drive, coil: int)

  datatype Command = DoSeek(to: int) | DoRotate(to: int) | DoPoll

  /** The position change of the next poll: one step either way, or none once home. */
  function Move(d: Drive): int {
    if Ready(d) then 0 else if Advance(d).ramp.forward then 1 else -1
  }

  function PollMachine(m: Machine): Machine {
    Machine(Poll(m.drive), Wrap(m.coil + Move(m.drive), COIL_STATES))
  }

  function Obey(m: Machine, c: Command): Machine
    requires m.drive.steps > 0
    ensures Obey(m, c).drive.steps == m.drive.steps
  {
    match c
    case DoSeek(t) => m.(drive := Seek(m.drive, t))
    case DoRotate(t) => m.(drive := Rotate(m.drive, t))
    case DoPoll => PollMachine(m)
  }

  function Run(m: Machine, script: seq<Command>): Machine
    requires m.drive.steps > 0
    decreases |script|
  {
    if script == [] then m else Run(Obey(m, script[0]), script[1..])
  }

  /** Forward steps less backward steps in a run. */
  function NetSteps(m: Machine, script: seq<Command>): int
    requires m.drive.steps > 0
    decreases |script|
  {
    if script == [] then 0
    else (if script[0].DoPoll? then Move(m.drive) else 0) + NetSteps(Obey(m, script[0]), script[1..])
  }

  function Start(size: int, steps: int): Machine {
    Machine(PowerUp(size, steps), 0)
  }

  lemma ModuloStep(start: int, move: int, net: int, n: int)
    requires n >= 1 && 0 <= start < n && -1 <= move <= 1
    ensures 0 <= Wrap(start + move, n) < n
    ensures (Wrap(start + move, n) + net) % n == (start + (move + net)) % n
  {
    var x := start + (move + net);
    var w := Wrap(start + move, n) + net;
    if w == x + n {
      AddMultiple(x, n);
    } else if w == x - n {
      AddMultiple(w, n);
    }
  }

  /** One command: what it keeps, and how far it moves the drive and its coils. */
  lemma ObeyKeepsCount(m: Machine, c: Command, net: int)
    requires Valid(m.drive) && 0 <= m.coil < COIL_STATES
    ensures var n := Obey(m, c); var move := if c.DoPoll? then Move(m.drive) else 0;
            && Valid(n.drive) && n.drive.steps == m.drive.steps && n.drive.ramp.size == m.drive.ramp.size
            && 0 <= n.coil < COIL_STATES
            && (n.drive.count + net) % m.drive.steps == (m.drive.count + (move + net)) % m.drive.steps
            && (n.coil + net) % COIL_STATES == (m.coil + (move + net)) % COIL_STATES
  {
    match c {
      case DoSeek(t) => RequestsKeepValid(m.drive, t);
      case DoRotate(t) => RequestsKeepValid(m.drive, t);
      case DoPoll =>
        PollKeepsValid(m.drive);
        ModuloStep(m.drive.count, Move(m.drive), net, m.drive.steps);
        ModuloStep(m.coil, Move(m.drive), net, COIL_STATES);
    }
  }

  /** Names a machine that is to be looked at; until it is named, the fact below is not unfolded. */
  ghost predicate Name(m: Machine, k: int) {
    true
  }

  /** `r` is `m` after `net` steps forward. */
  ghost predicate Moved(m: Machine, r: Machine, net: int) {
    forall k {:trigger Name(m, k)} :: Name(m, k) && m.drive.steps > 0 ==>
      && Valid(r.drive) && r.drive.steps == m.drive.steps && r.drive.ramp.size == m.drive.ramp.size
      && r.drive.count == (m.drive.count + net) % m.drive.steps
      && r.coil == (m.coil + net) % COIL_STATES
  }

  lemma NotMoved(m: Machine)
    requires Valid(m.drive) && 0 <= m.coil < COIL_STATES
    ensures Moved(m, m, 0)
  {
  }

  lemma FirstMove(m: Machine, c: Command, r: Machine, net: int)
    requires Valid(m.drive) && 0 <= m.coil < COIL_STATES
    requires Moved(Obey(m, c), r, net)
    ensures Moved(m, r, (if c.DoPoll? then Move(m.drive) else 0) + net)
    ensures Valid(Obey(m, c).drive) && 0 <= Obey(m, c).coil < COIL_STATES
  {
    ObeyKeepsCount(m, c, net);
    assert Name(Obey(m, c), 0);
  }

  lemma {:induction false} RunMoves(m: Machine, script: seq<Command>)
    requires Valid(m.drive) && 0 <= m.coil < COIL_STATES
    ensures Moved(m, Run(m, script), NetSteps(m, script))
    decreases |script|
  {
    if script == [] {
      NotMoved(m);
    } else {
      var n := Obey(m, script[0]);
      ObeyKeepsCount(m, script[0], 0);
      RunMoves(n, script[1..]);
      FirstMove(m, script[0], Run(n, script[1..]), NetSteps(n, script[1..]));
    }
  }

  /** Every run keeps the invariant, and position and coils both equal their start plus the net steps. */
  lemma RunKeepsCount(m: Machine, script: seq<Command>)
    requires Valid(m.drive) && 0 <= m.coil < COIL_STATES
    ensures var r := Run(m, script);
            && Valid(r.drive) && r.drive.steps == m.drive.steps && r.drive.ramp.size == m.drive.ramp.size
            && r.drive.count == (m.drive.count + NetSteps(m, script)) % m.drive.steps
            && r.coil == (m.coil + NetSteps(m, script)) % COIL_STATES
  {
    RunMoves(m, script);
    assert Name(m, 0);
  }

  // ---------------------------------------------------------------------------------------------------
  // A seek that never ends
  // ---------------------------------------------------------------------------------------------------

  /** The states of a drive that turns backwards for ever past target 0: it stops on the position below zero,
      and the way round from there is one it overshoots by one position again. */
  ghost predicate Circling(d: Drive) {
    var m := d.steps / 2;
    && d.steps % 2 == 1 && 1 <= m < d.ramp.size
    && d.target == 0 && d.rotateTo == NO_ROTATION
    && match d.ramp.phase
       case Stop => d.count == d.steps - 1 && d.ramp.idx == 0
       case Accel => !d.ramp.forward && 0 <= d.ramp.idx <= m && d.count == d.steps - 2 - d.ramp.idx
       case Decel => !d.ramp.forward && 1 <= d.ramp.idx < m && d.count == d.ramp.idx - 1
       case Full => false
  }

  lemma {:induction false} CirclesForever(d: Drive, k: nat)
    requires Circling(d)
    ensures Circling(Polls(d, k)) && !Ready(Polls(d, k))
    decreases k
  {
    if k > 0 {
      assert Circling(Poll(d));
      CirclesForever(Poll(d), k - 1);
    }
  }

  // ---------------------------------------------------------------------------------------------------
  // Exactly when every seek and every rotation ends
  // ---------------------------------------------------------------------------------------------------

  ghost predicate Settles(d: Drive) {
    exists k: nat :: Settled(d, Polls(d, k))
  }

  ghost predicate Reachable(size: int, steps: int, d: Drive)
    requires steps > 0
  {
    exists script :: Run(Start(size, steps), script).drive == d
  }

  ghost predicate SeeksAlwaysSettle(size: int, steps: int)
    requires steps > 0
  {
    forall d :: Reachable(size, steps, d) && d.rotateTo == NO_ROTATION ==> Settles(d)
  }

  ghost predicate RotationsAlwaysSettle(size: int, steps: int)
    requires steps > 0
  {
    forall d :: Reachable(size, steps, d) && d.rotateTo != NO_ROTATION ==> Settles(d)
  }

  lemma ReachableIsValid(size: int, steps: int, d: Drive)
    requires size >= 1 && steps >= 1 && Reachable(size, steps, d)
    ensures Valid(d) && d.steps == steps && d.ramp.size == size
  {
    var script :| Run(Start(size, steps), script).drive == d;
    RunKeepsCount(Start(size, steps), script);
  }

  lemma {:induction false} RunAppend(m: Machine, script: seq<Command>, c: Command)
    requires m.drive.steps > 0
    ensures Run(m, script).drive.steps == m.drive.steps
    ensures Run(m, script + [c]) == Obey(Run(m, script), c)
    decreases |script|
  {
    if script == [] {
      assert script + [c] == [c] && [c][1..] == [];
    } else {
      var longer := script + [c];
      assert longer[0] == script[0] && longer[1..] == script[1..] + [c];
      RunAppend(Obey(m, script[0]), script[1..], c);
    }
  }

  lemma PollReachable(size: int, steps: int, d: Drive)
    requires steps > 0 && Reachable(size, steps, d)
    ensures Reachable(size, steps, Poll(d))
  {
    var script :| Run(Start(size, steps), script).drive == d;
    RunAppend(Start(size, steps), script, DoPoll);
  }

  lemma RequestReachable(size: int, steps: int, d: Drive, t: int)
    requires steps > 0 && Reachable(size, steps, d)
    ensures d.steps == steps
    ensures Reachable(size, steps, Seek(d, t)) && Reachable(size, steps, Rotate(d, t))
  {
    var script :| Run(Start(size, steps), script).drive == d;
    RunAppend(Start(size, steps), script, DoSeek(t));
    RunAppend(Start(size, steps), script, DoRotate(t));
  }

  lemma {:induction false} PollsReachable(size: int, steps: int, d: Drive, k: nat)
    requires steps > 0 && Reachable(size, steps, d)
    ensures Reachable(size, steps, Polls(d, k))
    decreases k
  {
    if k > 0 {
      PollReachable(size, steps, d);
      PollsReachable(size, steps, Poll(d), k - 1);
    }
  }

  lemma StartReachable(size: int, steps: int)
    requires steps > 0
    ensures Reachable(size, steps, PowerUp(size, steps))
  {
    assert Run(Start(size, steps), []).drive == PowerUp(size, steps);
  }

  function At(size: int, steps: int, idx: int, phase: Phase, forward: bool, count: int, target: int): Drive {
    Drive(Ramp(size, idx, phase, forward), steps, count, target, NO_ROTATION)
  }

  /** Runs into the circle: out to 2, on to 4 from the stop at 1, and back to 0 from the stop at 4. */
  lemma LongWayIn(size: int, steps: int)
    requires size >= 3 && steps >= 5
    ensures Poll(Poll(Poll(At(size, steps, 0, Stop, true, 0, 2)))) == At(size, steps, 0, Stop, false, 1, 2)
    ensures Poll(Poll(Poll(At(size, steps, 0, Stop, false, 1, 4)))) == At(size, steps, 0, Stop, true, 4, 4)
    ensures Poll(Poll(Poll(At(size, steps, 0, Stop, true, 4, 0)))) == At(size, steps, 2, Accel, false, 1, 0)
    ensures Poll(Poll(At(size, steps, 2, Accel, false, 1, 0))) == At(size, steps, 0, Stop, false, steps - 1, 0)
  {
    assert Poll(At(size, steps, 0, Stop, true, 0, 2)) == At(size, steps, 0, Accel, true, 1, 2);
    assert Poll(At(size, steps, 0, Accel, true, 1, 2)) == At(size, steps, 1, Accel, true, 2, 2);
    assert Poll(At(size, steps, 0, Stop, false, 1, 4)) == At(size, steps, 0, Accel, true, 2, 4);
    assert Poll(At(size, steps, 0, Accel, true, 2, 4)) == At(size, steps, 1, Accel, true, 3, 4);
    assert Poll(At(size, steps, 0, Stop, true, 4, 0)) == At(size, steps, 0, Accel, false, 3, 0);
    assert Poll(At(size, steps, 0, Accel, false, 3, 0)) == At(size, steps, 1, Accel, false, 2, 0);
    assert Poll(At(size, steps, 2, Accel, false, 1, 0)) == At(size, steps, 1, Decel, false, 0, 0);
  }

  /** On three positions: backwards to 2, one step on, and called back to 2. */
  lemma ShortWayIn(size: int)
    requires size >= 2
    ensures Poll(Rotate(PowerUp(size, 3), 2)) == At(size, 3, 0, Accel, false, 2, 2)
    ensures Poll(At(size, 3, 0, Accel, false, 2, 0)) == At(size, 3, 1, Accel, false, 1, 0)
    ensures Poll(At(size, 3, 1, Accel, false, 1, 2)) == At(size, 3, 0, Stop, true, 2, 2)
  {
  }

  lemma CircleIsReachable(size: int, steps: int) returns (d: Drive)
    requires size >= 1 && steps >= 1 && !SeekSafe(size, steps)
    ensures Reachable(size, steps, d) && Circling(d)
  {
    StartReachable(size, steps);
    if steps == 3 {
      ShortWayIn(size);
      RequestReachable(size, 3, PowerUp(size, 3), 2);
      PollReachable(size, 3, Rotate(PowerUp(size, 3), 2));
      RequestReachable(size, 3, At(size, 3, 0, Accel, false, 2, 2), 0);
      PollReachable(size, 3, At(size, 3, 0, Accel, false, 2, 0));
      RequestReachable(size, 3, At(size, 3, 1, Accel, false, 1, 0), 2);
      PollReachable(size, 3, At(size, 3, 1, Accel, false, 1, 2));
      d := At(size, 3, 0, Stop, true, 2, 2);
    } else {
      LongWayIn(size, steps);
      RequestReachable(size, steps, PowerUp(size, steps), 2);
      var d1 := PollThrice(size, steps, At(size, steps, 0, Stop, true, 0, 2));
      RequestReachable(size, steps, d1, 4);
      var d2 := PollThrice(size, steps, At(size, steps, 0, Stop, false, 1, 4));
      RequestReachable(size, steps, d2, 0);
      var d3 := PollThrice(size, steps, At(size, steps, 0, Stop, true, 4, 0));
      PollReachable(size, steps, d3);
      PollReachable(size, steps, Poll(d3));
      d := Poll(Poll(d3));
    }
    RequestReachable(size, steps, d, 0);
    d := Seek(d, 0);
  }

  lemma PollThrice(size: int, steps: int, d: Drive) returns (e: Drive)
    requires steps > 0 && Reachable(size, steps, d)
    ensures e == Poll(Poll(Poll(d))) && Reachable(size, steps, e)
  {
    PollReachable(size, steps, d);
    PollReachable(size, steps, Poll(d));
    PollReachable(size, steps, Poll(Poll(d)));
    e := Poll(Poll(Poll(d)));
  }

  /** Seeks end in every run exactly on the safe geometries. */
  lemma SeeksSettleExactly(size: int, steps: int)
    requires size >= 1 && steps >= 1
    ensures SeeksAlwaysSettle(size, steps) <==> SeekSafe(size, steps)
  {
    if SeekSafe(size, steps) {
      forall d | Reachable(size, steps, d) && d.rotateTo == NO_ROTATION ensures Settles(d) {
        ReachableIsValid(size, steps, d);
        SeekReachesTarget(d);
      }
    } else {
      var d := CircleIsReachable(size, steps);
      forall k: nat ensures !Settled(d, Polls(d, k)) {
        CirclesForever(d, k);
      }
      assert !Settles(d);
    }
  }

  /** Target by target: only seeks to 0 can turn for ever, and do on every other geometry. */
  lemma TargetsSettleExactly(size: int, steps: int, t: int)
    requires size >= 1 && 0 <= t < steps
    ensures (forall d :: Reachable(size, steps, d) && d.rotateTo == NO_ROTATION && d.target == t ==> Settles(d))
            <==> SeekSafe(size, steps) || t >= 1
  {
    if SeekSafe(size, steps) || t >= 1 {
      forall d | Reachable(size, steps, d) && d.rotateTo == NO_ROTATION && d.target == t ensures Settles(d) {
        ReachableIsValid(size, steps, d);
        SeekReachesTarget(d);
      }
    } else {
      var d := CircleIsReachable(size, steps);
      forall k: nat ensures !Settled(d, Polls(d, k)) {
        CirclesForever(d, k);
      }
      assert !Settles(d);
    }
  }

  /** The rotation of a three-position circle to position 1 turns backwards past it for ever. */
  ghost predicate Spinning(d: Drive) {
    && d.steps == 3 && d.ramp.size >= 2 && d.rotateTo == 1
    && match d.ramp.phase
       case Stop => d.count == 0 && d.ramp.idx == 0
       case Accel => !d.ramp.forward && 0 <= d.ramp.idx <= 1 && d.count == 2 - d.ramp.idx
       case Decel => false
       case Full => false
  }

  lemma {:induction false} SpinsForever(d: Drive, k: nat)
    requires Spinning(d)
    ensures Spinning(Polls(d, k))
    decreases k
  {
    if k > 0 {
      SpinsForever(Poll(d), k - 1);
    }
  }

  /** Rotations end in every run exactly when the circle has not three positions, or the ramp only one speed. */
  lemma RotationsSettleExactly(size: int, steps: int)
    requires size >= 1 && steps >= 1
    ensures RotationsAlwaysSettle(size, steps) <==> RotateSafe(size, steps)
  {
    if RotateSafe(size, steps) {
      forall d | Reachable(size, steps, d) && d.rotateTo != NO_ROTATION ensures Settles(d) {
        ReachableIsValid(size, steps, d);
        RotateReachesGoal(d);
      }
    } else {
      StartReachable(size, steps);
      var d := Rotate(PowerUp(size, steps), 1);
      RequestReachable(size, steps, PowerUp(size, steps), 1);
      forall k: nat ensures !Settled(d, Polls(d, k)) {
        SpinsForever(d, k);
      }
      assert !Settles(d);
    }
  }

  // ---------------------------------------------------------------------------------------------------
  // From the request to its end
  // ---------------------------------------------------------------------------------------------------

  /** On the circle, at the lowest speed, with nothing pending, and so however often it is polled. */
  ghost predicate AtRest(s: Drive) {
    && 0 <= s.count < s.steps && s.ramp.idx == 0
    && s.rotateTo == NO_ROTATION && s.target == s.count
    && forall j: nat :: Polls(s, j) == s
  }

  function Apart(a: int, b: int): nat {
    if a < b then b - a else a - b
  }

  /** `c` is the position of the circle nearest to `t`. */
  ghost predicate Nearest(steps: int, t: int, c: int) {
    && 0 <= c < steps
    && forall p :: 0 <= p < steps ==> Apart(c, t) <= Apart(p, t)
  }

  lemma ClipIsNearest(steps: int, t: int)
    requires steps >= 1
    ensures Nearest(steps, t, Clip(t, steps))
  {
  }

  lemma SettledIsAtRest(d: Drive, s: Drive)
    requires Settled(d, s) && Valid(s)
    ensures AtRest(s)
  {
    forall j: nat ensures Polls(s, j) == s {
      ReadyForever(s, j);
    }
  }

  /** Main result: whatever a seek asks for, the drive comes to rest on the nearest position there is. */
  lemma SeekIsObeyed(d: Drive, t: int)
    requires Valid(d) && d.rotateTo == NO_ROTATION
    requires SeekSafe(d.ramp.size, d.steps) || t >= 1
    ensures exists k: nat :: k <= SeekBound(d) && AtRest(Polls(Seek(d, t), k))
                             && Nearest(d.steps, t, Polls(Seek(d, t), k).count)
  {
    var e := Seek(d, t);
    ClipIsNearest(d.steps, t);
    SeekReachesTarget(e);
    var k: nat :| k <= SeekBound(e) && Settled(e, Polls(e, k));
    PollsKeepValid(e, k);
    SettledIsAtRest(e, Polls(e, k));
  }

  /** Main result: whatever a rotation asks for, the drive is there already, modulo the circle, and nothing changes,
      or it comes to rest there. */
  lemma RotationIsObeyed(d: Drive, t: int)
    requires Valid(d) && RotateSafe(d.ramp.size, d.steps)
    ensures if (d.count - t) % d.steps == 0 then Rotate(d, t) == d
            else exists k: nat :: k <= RotateBound(d) && AtRest(Polls(Rotate(d, t), k))
                                  && (Polls(Rotate(d, t), k).count - t) % d.steps == 0
  {
    Congruent(d.count, t, d.steps);
    if (d.count - t) % d.steps != 0 {
      var e := Rotate(d, t);
      RequestsKeepValid(d, t);
      RotateReachesGoal(e);
      var k: nat :| k <= RotateBound(e) && Settled(e, Polls(e, k));
      PollsKeepValid(e, k);
      SettledIsAtRest(e, Polls(e, k));
      Congruent(Polls(e, k).count, t, d.steps);
    }
  }

  /** A seek while a rotation is pending is forgotten: the drive comes to rest on the goal of the rotation. */
  lemma SeekIsForgotten(d: Drive, t: int)
    requires Valid(d) && d.rotateTo != NO_ROTATION && RotateSafe(d.ramp.size, d.steps)
    ensures exists k: nat :: k <= RotateBound(d) && AtRest(Polls(Seek(d, t), k))
                             && Polls(Seek(d, t), k).count == d.rotateTo
  {
    var e := Seek(d, t);
    RequestsKeepValid(d, t);
    RotateReachesGoal(e);
    var k: nat :| k <= RotateBound(e) && Settled(e, Polls(e, k));
    PollsKeepValid(e, k);
    SettledIsAtRest(e, Polls(e, k));
  }

  // ---------------------------------------------------------------------------------------------------
  // How far a seek strays
  // ---------------------------------------------------------------------------------------------------

  /** The states of a seek that left a stop at `from`: at that stop, approaching, stopped one below the
      target, or home. */
  ghost predicate OnCourse(d: Drive, from: int) {
    && InRange(d) && d.rotateTo == NO_ROTATION && d.target >= 1
    && Between(d, from)
    && (|| Ready(d)
        || (d.ramp.phase.Stop? && (d.count == from || d.count == d.target - 1))
        || (exists g, e :: Approaching(d, g, e)))
  }

  ghost predicate Between(d: Drive, from: int) {
    && (from <= d.count || d.target - 1 <= d.count)
    && (d.count <= from || d.count <= d.target)
  }

  lemma LeavesOnCourse(d: Drive, from: int)
    requires OnCourse(d, from) && !Ready(d) && d.ramp.phase.Stop?
    ensures OnCourse(Poll(d), from)
  {
    ApproachStarts(d);
    assert Approaching(Poll(d), Heading(d), PathLeft(d));
  }

  lemma ApproachesOnCourse(d: Drive, from: int, g: bool, e: int)
    requires OnCourse(d, from) && !Ready(d) && Approaching(d, g, e)
    ensures OnCourse(Poll(d), from)
  {
    ApproachStep(d, g, e);
  }

  lemma StaysOnCourse(d: Drive, from: int)
    requires OnCourse(d, from)
    ensures OnCourse(Poll(d), from)
  {
    if !Ready(d) {
      if d.ramp.phase.Stop? {
        LeavesOnCourse(d, from);
      } else {
        var g, e :| Approaching(d, g, e);
        ApproachesOnCourse(d, from, g, e);
      }
    }
  }

  lemma {:induction false} OnCourseForever(d: Drive, from: int, k: nat)
    requires OnCourse(d, from)
    ensures OnCourse(Polls(d, k), from)
    decreases k
  {
    if k > 0 {
      StaysOnCourse(d, from);
      OnCourseForever(Poll(d), from, k - 1);
    }
  }

  /** A seek from a stop to a target of 1 or more never leaves the range from its start to its target, but
      for one position below the target. */
  lemma SeekStaysBetween(d: Drive, k: nat)
    requires Valid(d) && d.rotateTo == NO_ROTATION && d.ramp.phase.Stop? && d.target >= 1
    ensures d.count <= Polls(d, k).count || d.target - 1 <= Polls(d, k).count
    ensures Polls(d, k).count <= d.count || Polls(d, k).count <= d.target
  {
    OnCourseForever(d, d.count, k);
    SameTarget(d, k);
  }

  lemma {:induction false} SameTarget(d: Drive, k: nat)
    requires d.rotateTo == NO_ROTATION
    ensures Polls(d, k).target == d.target
    decreases k
  {
    if k > 0 {
      SameTarget(Poll(d), k - 1);
    }
  }
}
