/**
 Where polling leads. From every state the drive stops or is home; from a stop a seek ends on its target,
 except on one family of geometries, where it can circle for ever.
 */
module MotorSeek {
  import opened MotorModel

  ghost predicate SameGoal(d: Drive, e: Drive) {
    e.steps == d.steps && e.target == d.target && e.rotateTo == d.rotateTo && e.ramp.size == d.ramp.size
  }

  ghost predicate Heading(d: Drive) {
    Delta(d) > 0
  }

  /** The number of positions left in the direction the drive wants to travel, crossing zero if need be. */
  ghost function PathLeft(d: Drive): int {
    var x := (if d.rotateTo == NO_ROTATION then d.target else d.rotateTo) - d.count;
    if Delta(d) == 0 then 0
    else if Delta(d) > 0 then (if x > 0 then x else x + d.steps)
    else (if x < 0 then -x else d.steps - x)
  }

  /** A step in the wanted direction is progress, and does not change what is wanted. */
  lemma TowardStep(d: Drive)
    requires InRange(d) && Delta(d) != 0
    requires Advance(d).ramp.forward == Heading(d)
    ensures PathLeft(d) > 0
    ensures PathLeft(Advance(d)) == PathLeft(d) - 1
    ensures PathLeft(d) == 1 <==> Delta(Advance(d)) == 0
    ensures PathLeft(d) > 1 ==> Heading(Advance(d)) == Heading(d)
  {
  }

  /** Names a drive whose steps are wanted; until it is named, the fact below is not unfolded. */
  ghost predicate Name(d: Drive, n: int) {
    true
  }

  /** `k` motor steps take `d` to `s`. */
  ghost predicate Gets(d: Drive, k: nat, s: Drive) {
    forall n {:trigger Name(d, n)} :: Name(d, n) ==> Steps(d, k) == s
  }

  lemma GetsNowhere(d: Drive)
    ensures Gets(d, 0, d)
  {
  }

  lemma GetsOne(d: Drive)
    ensures Gets(d, 1, Advance(d))
  {
    assert Steps(d, 1) == Steps(Advance(d), 0);
  }

  lemma GetsOn(d: Drive, i: nat, m: Drive, j: nat, s: Drive)
    requires Gets(d, i, m) && Gets(m, j, s)
    ensures Gets(d, i + j, s)
  {
    assert Name(d, 0) && Name(m, 0);
    TimesAdd(Advance, d, i, j);
  }

  lemma BrakingStep(d: Drive) returns (a: Drive)
    requires InRange(d) && d.ramp.phase.Decel?
    ensures Gets(d, 1, a) && InRange(a) && SameGoal(d, a)
    ensures if d.ramp.idx <= 1 then a.ramp.phase.Stop? else a.ramp.phase.Decel? && a.ramp.idx == d.ramp.idx - 1
  {
    GetsOne(d);
    a := Advance(d);
  }

  /** Braking always ends in a stop, whatever direction is asked for meanwhile. */
  lemma {:induction false} BrakingStops(d: Drive) returns (k: nat, s: Drive)
    requires InRange(d) && d.ramp.phase.Decel?
    ensures Gets(d, k, s) && InRange(s) && SameGoal(d, s) && s.ramp.phase.Stop?
    ensures k <= if d.ramp.idx == 0 then 1 else d.ramp.idx
    decreases d.ramp.idx
  {
    var a := BrakingStep(d);
    k, s := 1, a;
    if d.ramp.idx > 1 {
      var j;
      j, s := BrakingStops(a);
      GetsOn(d, 1, a, j, s);
      k := 1 + j;
    }
  }

  lemma MovingStep(d: Drive) returns (a: Drive)
    requires InRange(d) && !Ready(d) && !d.ramp.phase.Stop?
    ensures Gets(d, 1, a) && InRange(a) && SameGoal(d, a)
    ensures a.ramp.phase.Decel? || a.ramp.phase.Stop? || PathLeft(a) == PathLeft(d) - 1
  {
    GetsOne(d);
    a := Advance(d);
    if !a.ramp.phase.Decel? && !a.ramp.phase.Stop? {
      TowardStep(d);
    }
  }

  lemma PathLeftBound(d: Drive)
    requires InRange(d)
    ensures 0 <= PathLeft(d) <= d.steps
  {
  }

  /** From any state the drive comes to a stop or is home. */
  lemma {:induction false} ComesToStop(d: Drive) returns (k: nat, s: Drive)
    requires InRange(d)
    ensures Gets(d, k, s) && InRange(s) && SameGoal(d, s)
    ensures s.ramp.phase.Stop? || Ready(s)
    ensures k <= PathLeft(d) + d.ramp.size + 1
    decreases PathLeft(d)
  {
    PathLeftBound(d);
    if Ready(d) || d.ramp.phase.Stop? {
      GetsNowhere(d);
      return 0, d;
    }
    var a := MovingStep(d);
    PathLeftBound(a);
    k, s := 1, a;
    if !a.ramp.phase.Stop? {
      var j;
      if a.ramp.phase.Decel? {
        j, s := BrakingStops(a);
      } else {
        j, s := ComesToStop(a);
      }
      GetsOn(d, 1, a, j, s);
      k := 1 + j;
    }
  }

  // ---------------------------------------------------------------------------------------------------
  // A seek from a stop
  // ---------------------------------------------------------------------------------------------------

  ghost function Distance(d: Drive, g: bool): int {
    if g then d.target - d.count else d.count - d.target
  }

  /** A seek that left a stop `e` positions from its target in direction `g` and has not passed the target.
      It brakes on the mark, or one position late when `e` is even and too short to reach full speed. */
  ghost predicate Approaching(d: Drive, g: bool, e: int) {
    var p := Distance(d, g);
    && InRange(d) && d.rotateTo == NO_ROTATION
    && d.ramp.forward == g && 0 <= p < e
    && match d.ramp.phase
       case Stop => false
       case Accel => p + d.ramp.idx + 1 == e && d.ramp.idx <= p + 1
       case Full => d.ramp.idx <= p && 2 * d.ramp.size <= e
       case Decel => d.ramp.idx >= 1 && (p == d.ramp.idx || (p == d.ramp.idx - 1 && Short(e, d.ramp.size)))
  }

  /** The distances a seek overshoots by one position. */
  ghost predicate Short(e: int, size: int) {
    e >= 2 && e % 2 == 0 && e < 2 * size
  }

  /** Stopped one position below the target, on the far side of zero when the target is 0. */
  ghost predicate OneBelow(d: Drive) {
    InRange(d) && d.rotateTo == NO_ROTATION && d.ramp.phase.Stop? && d.count == Wrap(d.target - 1, d.steps)
  }

  lemma ApproachStarts(d: Drive)
    requires InRange(d) && d.rotateTo == NO_ROTATION && d.ramp.phase.Stop? && !Ready(d)
    ensures Approaching(Advance(d), Heading(d), PathLeft(d))
    ensures PathLeft(d) == Abs(d.target - d.count)
    ensures SameGoal(d, Advance(d))
  {
  }

  lemma ApproachStep(d: Drive, g: bool, e: int)
    requires Approaching(d, g, e) && !Ready(d)
    ensures SameGoal(d, Advance(d))
    ensures || Ready(Advance(d))
            || (Approaching(Advance(d), g, e) && Distance(Advance(d), g) < Distance(d, g))
            || (OneBelow(Advance(d)) && Short(e, d.ramp.size))
  {
  }

  lemma ApproachNext(d: Drive, g: bool, e: int) returns (a: Drive)
    requires Approaching(d, g, e) && !Ready(d)
    ensures Gets(d, 1, a) && InRange(a) && SameGoal(d, a)
    ensures || Ready(a)
            || (Approaching(a, g, e) && Distance(a, g) < Distance(d, g))
            || (OneBelow(a) && Short(e, d.ramp.size))
  {
    GetsOne(d);
    ApproachStep(d, g, e);
    a := Advance(d);
  }

  lemma {:induction false} ApproachEnds(d: Drive, g: bool, e: int) returns (k: nat, s: Drive)
    requires Approaching(d, g, e)
    ensures Gets(d, k, s) && InRange(s) && SameGoal(d, s)
    ensures Ready(s) || (OneBelow(s) && Short(e, d.ramp.size))
    ensures k <= Distance(d, g) + 1
    decreases Distance(d, g)
  {
    if Ready(d) {
      GetsNowhere(d);
      return 0, d;
    }
    var a := ApproachNext(d, g, e);
    k, s := 1, a;
    if !Ready(a) && !OneBelow(a) {
      var j;
      j, s := ApproachEnds(a, g, e);
      GetsOn(d, 1, a, j, s);
      k := 1 + j;
    }
  }

  lemma SeekStarts(d: Drive) returns (a: Drive, g: bool, e: int)
    requires InRange(d) && d.rotateTo == NO_ROTATION && d.ramp.phase.Stop? && !Ready(d)
    ensures Gets(d, 1, a) && SameGoal(d, a) && Approaching(a, g, e) && e == Abs(d.target - d.count)
  {
    GetsOne(d);
    ApproachStarts(d);
    a, g, e := Advance(d), Heading(d), PathLeft(d);
  }

  lemma SeekFromStop(d: Drive) returns (k: nat, s: Drive)
    requires InRange(d) && d.rotateTo == NO_ROTATION && d.ramp.phase.Stop?
    ensures Gets(d, k, s) && InRange(s) && SameGoal(d, s)
    ensures Ready(s) || (OneBelow(s) && Short(Abs(d.target - d.count), d.ramp.size))
    ensures k <= d.steps
  {
    if Ready(d) {
      GetsNowhere(d);
      return 0, d;
    }
    var a, g, e := SeekStarts(d);
    var j;
    j, s := ApproachEnds(a, g, e);
    GetsOn(d, 1, a, j, s);
    k := 1 + j;
  }

  /** The geometries on which every seek ends: an odd circle of three positions or more must be long enough
      for the ramp to reach full speed and brake again within one turn. */
  predicate SeekSafe(size: int, steps: int) {
    steps % 2 == 0 || steps == 1 || steps >= 2 * size
  }

  /** A seek that ends: on a geometry that is safe for all of them, or to a target other than 0. */
  predicate SafeSeek(d: Drive) {
    SeekSafe(d.ramp.size, d.steps) || d.target >= 1
  }

  /** How long a seek can take: it stops, approaches, and may have to go round once. */
  function SeekBound(d: Drive): int {
    3 * d.steps + d.ramp.size + 1
  }

  lemma SeekSettles(d: Drive) returns (k: nat, s: Drive)
    requires InRange(d) && d.rotateTo == NO_ROTATION && SafeSeek(d)
    ensures Gets(d, k, s) && SameGoal(d, s) && Ready(s)
    ensures k <= SeekBound(d)
  {
    PathLeftBound(d);
    k, s := ComesToStop(d);
    var i, j: nat := k, 0;
    if !Ready(s) {
      var m := s;
      i, s := SeekFromStop(m);
      GetsOn(d, k, m, i, s);
      k := k + i;
      if !Ready(s) {
        m := s;
        j, s := SeekFromStop(m);
        GetsOn(d, k, m, j, s);
        k := k + j;
        SecondIsHome(m, s);
      }
    }
  }

  /** From one position below the target a safe seek does not end there again. */
  lemma SecondIsHome(m: Drive, s: Drive)
    requires OneBelow(m) && SafeSeek(m)
    requires Ready(s) || Short(Abs(m.target - m.count), m.ramp.size)
    ensures Ready(s)
  {
  }

  // ---------------------------------------------------------------------------------------------------
  // From motor steps to polls
  // ---------------------------------------------------------------------------------------------------

  /** What polling for `d` must reach: home on the goal `d` has, and no rotation pending. */
  ghost predicate Settled(d: Drive, s: Drive) {
    && Ready(s) && s.rotateTo == NO_ROTATION && s.count == s.target
    && s.target == (if d.rotateTo == NO_ROTATION then d.target else d.rotateTo)
  }

  /** `j` polls take `d` to `s`. */
  ghost predicate PolledTo(d: Drive, j: nat, s: Drive) {
    forall n {:trigger Name(d, n)} :: Name(d, n) ==> Polls(d, j) == s
  }

  lemma PolledNowhere(d: Drive)
    ensures PolledTo(d, 0, d)
  {
  }

  lemma PolledOn(d: Drive, m: Drive, j: nat, s: Drive)
    requires m == Poll(d) && PolledTo(m, j, s)
    ensures PolledTo(d, j + 1, s)
  {
    assert Name(m, 0);
  }

  /** A motor step that does not end home is a poll, and the one that does is as good as one. */
  lemma PollIsStep(d: Drive, k: nat, s: Drive) returns (a: Drive, p: Drive)
    requires Valid(d) && !Ready(d) && Gets(d, k, s) && SameGoal(d, s) && Ready(s)
    ensures k > 0 && Gets(a, k - 1, s) && p == Poll(d)
    ensures !Ready(a) ==> p == a && Valid(a) && SameGoal(a, s)
    ensures Ready(a) && SameGoal(d, a) ==> Settled(d, p)
    ensures SameGoal(d, a)
  {
    assert Name(d, 0);
    PollKeepsValid(d);
    a, p := Advance(d), Poll(d);
  }

  lemma {:induction false} StepsToPolls(d: Drive, k: nat, s: Drive) returns (j: nat, p: Drive)
    requires Valid(d) && Gets(d, k, s) && SameGoal(d, s) && Ready(s)
    ensures j <= k && PolledTo(d, j, p) && Settled(d, p)
    decreases k
  {
    PolledNowhere(d);
    j, p := 0, d;
    if !Ready(d) {
      var a;
      a, p := PollIsStep(d, k, s);
      var m := p;
      if Ready(a) {
        PolledNowhere(m);
      } else {
        j, p := StepsToPolls(a, k - 1, s);
      }
      PolledOn(d, m, j, p);
      j := j + 1;
    }
  }

  /** Main result for seeks: on a safe geometry, or to a target other than 0, from every state without a pending
      rotation, the drive comes to rest on its target within so many polls, and it stays there. */
  lemma SeekReachesTarget(d: Drive)
    requires Valid(d) && d.rotateTo == NO_ROTATION && SafeSeek(d)
    ensures exists k: nat :: k <= SeekBound(d) && Settled(d, Polls(d, k))
                             && forall j: nat :: Polls(Polls(d, k), j) == Polls(d, k)
  {
    var k, s := SeekSettles(d);
    var j, p := StepsToPolls(d, k, s);
    assert Name(d, 0);
    forall i: nat ensures Polls(p, i) == p {
      ReadyForever(p, i);
    }
    assert Polls(d, j) == p;
  }
}
