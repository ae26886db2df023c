/**
 The blocking queue as a step system. One mutex serialises the critical sections and two semaphores carry
 the wake-ups, so each action below is atomic; a run is any interleaving of any number of threads. The put
 semaphore may start with any number of tokens.
 */
module QueueProtocol {

  type Tid = nat

  /** Where a thread is. `woken` marks a putter that took a put token and has not looked at the queue yet. */
  datatype Pc<T> =
    | Idle
    | GetWaits                       // about to take a get token
    | GetPast                        // holds a get token, about to enter the critical section
    | PutTries(msg: T, woken: bool)  // about to enter the critical section
    | PutWaits(msg: T)               // saw the queue full, about to take a put token

  /** The state guarded by the mutex, and the two token counts. */
  datatype Store<T> = Store(num: nat, items: seq<T>, getTokens: nat, putTokens: nat)

  datatype Sys<T> = Sys(store: Store<T>, threads: map<Tid, Pc<T>>, accepted: seq<T>, delivered: seq<T>, failedGets: nat)

  datatype Action<T> =
    | BeginGet(t: Tid)
    | TakeGetToken(t: Tid)
    | Serve(t: Tid)
    | BeginPut(t: Tid, msg: T)
    | TryPut(t: Tid)
    | TakePutToken(t: Tid)

  predicate Full<T>(s: Store<T>) {
    |s.items| + 1 >= s.num
  }

  /** The critical section of `put` when there is room. */
  function Accept<T>(s: Store<T>, msg: T): Store<T> {
    s.(items := s.items + [msg], getTokens := s.getTokens + 1)
  }

  /** The critical section of `get` when there is a message. */
  function Deliver<T>(s: Store<T>): Store<T>
    requires s.items != []
  {
    s.(items := s.items[1..], putTokens := s.putTokens + 1)
  }

  ghost predicate Enabled<T>(s: Sys<T>, a: Action<T>) {
    a.t in s.threads &&
    var pc := s.threads[a.t];
    match a
    case BeginGet(_) => pc.Idle?
    case TakeGetToken(_) => pc.GetWaits? && s.store.getTokens > 0
    case Serve(_) => pc.GetPast?
    case BeginPut(_, _) => pc.Idle?
    case TryPut(_) => pc.PutTries?
    case TakePutToken(_) => pc.PutWaits? && s.store.putTokens > 0
  }

  ghost function Next<T>(s: Sys<T>, a: Action<T>): Sys<T>
    requires Enabled(s, a)
  {
    var pc := s.threads[a.t];
    match a
    case BeginGet(t) => s.(threads := s.threads[t := GetWaits])
    case TakeGetToken(t) =>
      s.(store := s.store.(getTokens := s.store.getTokens - 1), threads := s.threads[t := GetPast])
    case Serve(t) =>
      if s.store.items == [] then s.(threads := s.threads[t := Idle], failedGets := s.failedGets + 1)
      else s.(store := Deliver(s.store), threads := s.threads[t := Idle], delivered := s.delivered + [s.store.items[0]])
    case BeginPut(t, msg) => s.(threads := s.threads[t := PutTries(msg, false)])
    case TryPut(t) =>
      if Full(s.store) then s.(threads := s.threads[t := PutWaits(pc.msg)])
      else s.(store := Accept(s.store, pc.msg), threads := s.threads[t := Idle], accepted := s.accepted + [pc.msg])
    case TakePutToken(t) =>
      s.(store := s.store.(putTokens := s.store.putTokens - 1), threads := s.threads[t := PutTries(pc.msg, true)])
  }

  ghost predicate Possible<T>(s: Sys<T>, run: seq<Action<T>>)
    decreases |run|
  {
    run == [] || (Enabled(s, run[0]) && Possible(Next(s, run[0]), run[1..]))
  }

  ghost function After<T>(s: Sys<T>, run: seq<Action<T>>): Sys<T>
    requires Possible(s, run)
    decreases |run|
  {
    if run == [] then s else After(Next(s, run[0]), run[1..])
  }

  /** An empty queue of `num` slots with any number of put tokens, and every thread idle. */
  ghost predicate Initial<T>(s: Sys<T>) {
    && s.store.num >= 1 && s.store.items == [] && s.store.getTokens == 0
    && (forall t :: t in s.threads ==> s.threads[t].Idle?)
    && s.accepted == [] && s.delivered == [] && s.failedGets == 0
  }

  // ---------------------------------------------------------------------------------------------------
  // Counting threads
  // ---------------------------------------------------------------------------------------------------

  datatype Role = Waiting | Past | Trying | Woken | Blocked

  ghost predicate Plays<T>(pc: Pc<T>, r: Role) {
    match r
    case Waiting => pc.GetWaits?
    case Past => pc.GetPast?
    case Trying => pc.PutTries?
    case Woken => pc.PutTries? && pc.woken
    case Blocked => pc.PutWaits?
  }

  ghost function PlayersIn<T>(threads: map<Tid, Pc<T>>, r: Role): set<Tid> {
    set t | t in threads && Plays(threads[t], r)
  }

  ghost function Players<T>(s: Sys<T>, r: Role): set<Tid> {
    PlayersIn(s.threads, r)
  }

  ghost function Number<T>(s: Sys<T>, r: Role): nat {
    |Players(s, r)|
  }

  ghost function One<T>(pc: Pc<T>, r: Role): nat {
    if Plays(pc, r) then 1 else 0
  }

  lemma OthersPlayOn<T>(threads: map<Tid, Pc<T>>, t: Tid, pc: Pc<T>, r: Role)
    ensures PlayersIn(threads[t := pc], r) - {t} == PlayersIn(threads, r) - {t}
    ensures t in PlayersIn(threads[t := pc], r) <==> Plays(pc, r)
  {
  }

  lemma CountWith<T>(s: set<T>, t: T)
    ensures |s| == |s - {t}| + (if t in s then 1 else 0)
  {
    if t in s {
      assert s == (s - {t}) + {t};
    } else {
      assert s == s - {t};
    }
  }

  lemma UpdateCounts<T>(threads: map<Tid, Pc<T>>, t: Tid, pc: Pc<T>, r: Role)
    requires t in threads
    ensures |PlayersIn(threads[t := pc], r)| == |PlayersIn(threads, r)| - One(threads[t], r) + One(pc, r)
  {
    OthersPlayOn(threads, t, pc, r);
    CountWith(PlayersIn(threads, r), t);
    CountWith(PlayersIn(threads[t := pc], r), t);
  }

  /** A step moves one thread, and each count changes by what that thread was and is. */
  lemma StepCounts<T>(s: Sys<T>, a: Action<T>, r: Role)
    requires Enabled(s, a)
    ensures Number(Next(s, a), r) == Number(s, r) - One(s.threads[a.t], r) + One(Next(s, a).threads[a.t], r)
  {
    var pc := Next(s, a).threads[a.t];
    assert Next(s, a).threads == s.threads[a.t := pc];
    UpdateCounts(s.threads, a.t, pc, r);
  }

  // ---------------------------------------------------------------------------------------------------
  // What every interleaving keeps
  // ---------------------------------------------------------------------------------------------------

  ghost predicate Inv<T>(s: Sys<T>) {
    && s.store.num >= 1
    && |s.store.items| < s.store.num
    // first in, first out
    && s.accepted == s.delivered + s.store.items
    // every stored message is backed by a token, on the semaphore or in the hands of a getter
    && |s.store.items| == s.store.getTokens + Number(s, Past)
    && s.failedGets == 0
    // no lost wake-up
    && (Number(s, Blocked) > 0 ==> s.store.putTokens + Number(s, Woken) >= Room(s))
  }

  ghost function Room<T>(s: Sys<T>): int {
    s.store.num - 1 - |s.store.items|
  }

  lemma InitialInv<T>(s: Sys<T>)
    requires Initial(s)
    ensures Inv(s)
  {
  }

  lemma StepInv<T>(s: Sys<T>, a: Action<T>)
    requires Inv(s) && Enabled(s, a)
    ensures Inv(Next(s, a))
  {
    StepCounts(s, a, Past);
    StepCounts(s, a, Blocked);
    StepCounts(s, a, Woken);
    match a {
      case Serve(t) =>
        assert t in Players(s, Past);
        assert s.store.items == [s.store.items[0]] + s.store.items[1..];
      case TryPut(t) =>
        if s.threads[t].woken {
          assert t in Players(s, Woken);
        }
      case _ =>
    }
  }

  lemma {:induction false} RunInv<T>(s: Sys<T>, run: seq<Action<T>>)
    requires Inv(s) && Possible(s, run)
    ensures Inv(After(s, run))
    decreases |run|
  {
    if run != [] {
      StepInv(s, run[0]);
      RunInv(Next(s, run[0]), run[1..]);
    }
  }

  /** Main safety result, over every interleaving from power-up: delivered messages are a prefix of the
      accepted ones, no get fails, stored messages equal get tokens plus getters past their wait, and no
      wake-up is lost. */
  lemma EveryRunIsSafe<T>(s: Sys<T>, run: seq<Action<T>>)
    requires Initial(s) && Possible(s, run)
    ensures var r := After(s, run);
            && r.delivered <= r.accepted && r.accepted[|r.delivered|..] == r.store.items
            && |r.store.items| < r.store.num
            && r.failedGets == 0
            && |r.store.items| == r.store.getTokens + Number(r, Past)
            && (Number(r, Blocked) > 0 ==> r.store.putTokens + Number(r, Woken) >= Room(r))
  {
    InitialInv(s);
    RunInv(s, run);
  }

  // ---------------------------------------------------------------------------------------------------
  // Progress
  // ---------------------------------------------------------------------------------------------------

  predicate Internal<T>(a: Action<T>) {
    !a.BeginGet? && !a.BeginPut?
  }

  /** No call in flight can take a step. */
  ghost predicate Quiet<T>(s: Sys<T>) {
    forall t :: t in s.threads ==>
      && !Enabled(s, TakeGetToken(t)) && !Enabled(s, Serve(t))
      && !Enabled(s, TryPut(t)) && !Enabled(s, TakePutToken(t))
  }

  ghost function Work<T>(s: Sys<T>): nat {
    4 * Number(s, Waiting) + 3 * Number(s, Past) + 2 * Number(s, Trying) + Number(s, Blocked) + 2 * s.store.putTokens
  }

  lemma StepWorks<T>(s: Sys<T>, a: Action<T>)
    requires Inv(s) && Enabled(s, a) && Internal(a)
    ensures Work(Next(s, a)) < Work(s)
  {
    StepInv(s, a);
    StepCounts(s, a, Waiting);
    StepCounts(s, a, Past);
    StepCounts(s, a, Trying);
    StepCounts(s, a, Blocked);
  }

  /** Without new calls, every schedule stops within `Work` steps: nothing spins for ever. */
  lemma {:induction false} SchedulesEnd<T>(s: Sys<T>, run: seq<Action<T>>)
    requires Inv(s) && Possible(s, run) && forall i :: 0 <= i < |run| ==> Internal(run[i])
    ensures |run| <= Work(s) - Work(After(s, run))
    decreases |run|
  {
    if run != [] {
      StepInv(s, run[0]);
      StepWorks(s, run[0]);
      SchedulesEnd(Next(s, run[0]), run[1..]);
    }
  }

  /** When nothing can move, a waiting getter means an empty queue and a blocked putter a full one; with two
      slots or more, never both. */
  lemma QuietMeansStarved<T>(s: Sys<T>)
    requires Inv(s) && Quiet(s)
    ensures Number(s, Past) == 0 && Number(s, Trying) == 0
    ensures Number(s, Waiting) > 0 ==> s.store.items == []
    ensures Number(s, Blocked) > 0 ==> Room(s) == 0
    ensures s.store.num >= 2 ==> Number(s, Waiting) == 0 || Number(s, Blocked) == 0
  {
  }

  /** Some schedule of the calls in flight does come to rest. */
  lemma {:induction false} ReachesQuiet<T>(s: Sys<T>) returns (run: seq<Action<T>>)
    requires Inv(s)
    ensures Possible(s, run) && (forall i :: 0 <= i < |run| ==> Internal(run[i])) && Quiet(After(s, run))
    decreases Work(s)
  {
    if Quiet(s) {
      run := [];
    } else {
      var t :| t in s.threads && (Enabled(s, TakeGetToken(t)) || Enabled(s, Serve(t))
                                  || Enabled(s, TryPut(t)) || Enabled(s, TakePutToken(t)));
      var a: Action<T> := if Enabled(s, TakeGetToken(t)) then TakeGetToken(t)
                          else if Enabled(s, Serve(t)) then Serve(t)
                          else if Enabled(s, TryPut(t)) then TryPut(t) else TakePutToken(t);
      StepInv(s, a);
      StepWorks(s, a);
      var rest := ReachesQuiet(Next(s, a));
      run := [a] + rest;
      assert run[1..] == rest;
    }
  }

  ghost function Getters<T>(s: Sys<T>): nat {
    Number(s, Waiting) + Number(s, Past)
  }

  ghost function Putters<T>(s: Sys<T>): nat {
    Number(s, Trying) + Number(s, Blocked)
  }

  lemma {:induction false} CallsConserved<T>(s: Sys<T>, run: seq<Action<T>>)
    requires Inv(s) && Possible(s, run) && forall i :: 0 <= i < |run| ==> Internal(run[i])
    ensures var r := After(s, run);
            && r.store.num == s.store.num
            && Getters(r) + |r.delivered| == Getters(s) + |s.delivered|
            && Putters(r) + |r.accepted| == Putters(s) + |s.accepted|
    decreases |run|
  {
    if run != [] {
      var a := run[0];
      StepInv(s, a);
      StepCounts(s, a, Waiting);
      StepCounts(s, a, Past);
      StepCounts(s, a, Trying);
      StepCounts(s, a, Blocked);
      CallsConserved(Next(s, a), run[1..]);
    }
  }

  lemma {:induction false} OneSlotAcceptsNothing<T>(s: Sys<T>, run: seq<Action<T>>)
    requires Inv(s) && Possible(s, run) && s.store.num == 1
    ensures After(s, run).accepted == s.accepted && |After(s, run).delivered| == |s.delivered|
    decreases |run|
  {
    if run != [] {
      StepInv(s, run[0]);
      OneSlotAcceptsNothing(Next(s, run[0]), run[1..]);
    }
  }

  /** Main progress result: whatever the schedule, the same number of calls of each kind gets through. */
  lemma OutcomeIsDetermined<T>(s: Sys<T>, run1: seq<Action<T>>, run2: seq<Action<T>>)
    requires Inv(s)
    requires Possible(s, run1) && forall i :: 0 <= i < |run1| ==> Internal(run1[i])
    requires Possible(s, run2) && forall i :: 0 <= i < |run2| ==> Internal(run2[i])
    requires Quiet(After(s, run1)) && Quiet(After(s, run2))
    ensures |After(s, run1).delivered| == |After(s, run2).delivered|
    ensures |After(s, run1).accepted| == |After(s, run2).accepted|
  {
    var r1, r2 := After(s, run1), After(s, run2);
    RunInv(s, run1);
    RunInv(s, run2);
    CallsConserved(s, run1);
    CallsConserved(s, run2);
    QuietMeansStarved(r1);
    QuietMeansStarved(r2);
    if s.store.num == 1 {
      OneSlotAcceptsNothing(s, run1);
      OneSlotAcceptsNothing(s, run2);
    }
  }
}
