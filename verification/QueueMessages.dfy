/**
 Whose messages the queue takes: in every run from power-up, what callers asked to put is what was accepted and
 what is still in the hands of waiting putters, message by message and, thread by thread, in order.
 */
module QueueMessages {
  import opened QueueProtocol

  /** A message that was accepted, and the thread whose step accepted it. */
  datatype Entry<T> = Entry(t: Tid, msg: T)

  /** What a step adds to the accepted messages, if it adds any. */
  ghost function Logged<T>(s: Sys<T>, a: Action<T>): seq<Entry<T>>
    requires Enabled(s, a)
  {
    var before, after := s.accepted, Next(s, a).accepted;
    if |after| > |before| then [Entry(a.t, after[|before|])] else []
  }

  ghost function Log<T>(s: Sys<T>, run: seq<Action<T>>): seq<Entry<T>>
    requires Possible(s, run)
    decreases |run|
  {
    if run == [] then [] else Logged(s, run[0]) + Log(Next(s, run[0]), run[1..])
  }

  function Messages<T>(log: seq<Entry<T>>): seq<T>
    decreases |log|
  {
    if log == [] then [] else [log[0].msg] + Messages(log[1..])
  }

  /** The messages of one thread's part of a log. */
  function Of<T>(log: seq<Entry<T>>, t: Tid): seq<T>
    decreases |log|
  {
    if log == [] then [] else If(log[0].t == t, log[0].msg) + Of(log[1..], t)
  }

  function If<T>(mine: bool, msg: T): seq<T> {
    if mine then [msg] else []
  }

  /** The messages that the callers of a run ask to put: how often `msg`, and those of one thread in order. */
  function Asked<T(==)>(run: seq<Action<T>>, msg: T): nat
    decreases |run|
  {
    if run == [] then 0 else Asks(run[0], msg) + Asked(run[1..], msg)
  }

  function Asks<T(==)>(a: Action<T>, msg: T): nat {
    if a.BeginPut? && a.msg == msg then 1 else 0
  }

  function AskedBy<T>(run: seq<Action<T>>, t: Tid): seq<T>
    decreases |run|
  {
    if run == [] then [] else AskedNow(run[0], t) + AskedBy(run[1..], t)
  }

  function AskedNow<T>(a: Action<T>, t: Tid): seq<T> {
    if a.BeginPut? && a.t == t then [a.msg] else []
  }

  /** The message of a put of thread `t` that has not returned. */
  function Held<T>(threads: map<Tid, Pc<T>>, t: Tid): seq<T> {
    if t in threads && (threads[t].PutTries? || threads[t].PutWaits?) then [threads[t].msg] else []
  }

  /** How often `msg` is in the hands of the threads below `n`. */
  function InHands<T(==)>(threads: map<Tid, Pc<T>>, n: nat, msg: T): nat
    decreases n
  {
    if n == 0 then 0 else InHands(threads, n - 1, msg) + Holds(threads, n - 1, msg)
  }

  function Holds<T(==)>(threads: map<Tid, Pc<T>>, t: Tid, msg: T): nat {
    if Held(threads, t) == [msg] then 1 else 0
  }

  function Count<T(==)>(s: seq<T>, msg: T): nat
    decreases |s|
  {
    if s == [] then 0 else (if s[0] == msg then 1 else 0) + Count(s[1..], msg)
  }

  // ---------------------------------------------------------------------------------------------------
  // The log
  // ---------------------------------------------------------------------------------------------------

  lemma OfFirst<T>(e: Entry<T>, rest: seq<Entry<T>>, t: Tid)
    ensures Of([e] + rest, t) == If(e.t == t, e.msg) + Of(rest, t)
  {
    assert ([e] + rest)[1..] == rest;
  }

  lemma LogStep<T>(s: Sys<T>, a: Action<T>, rest: seq<Entry<T>>)
    requires Enabled(s, a)
    ensures s.accepted + Messages(Logged(s, a) + rest) == Next(s, a).accepted + Messages(rest)
  {
    var log := Logged(s, a) + rest;
    if Logged(s, a) == [] {
      assert log == rest;
    } else {
      assert log[1..] == rest;
    }
  }

  /** The log holds what is accepted in a run, in order. */
  lemma {:induction false} LogIsComplete<T>(s: Sys<T>, run: seq<Action<T>>)
    requires Possible(s, run)
    ensures After(s, run).accepted == s.accepted + Messages(Log(s, run))
    decreases |run|
  {
    if run != [] {
      LogIsComplete(Next(s, run[0]), run[1..]);
      LogStep(s, run[0], Log(Next(s, run[0]), run[1..]));
    }
  }

  // ---------------------------------------------------------------------------------------------------
  // Thread by thread
  // ---------------------------------------------------------------------------------------------------

  lemma StepHolds<T>(s: Sys<T>, a: Action<T>, t: Tid, rest: seq<Entry<T>>) returns (now: seq<T>)
    requires Enabled(s, a)
    ensures Of(Logged(s, a) + rest, t) == now + Of(rest, t)
    ensures now + Held(Next(s, a).threads, t) == Held(s.threads, t) + AskedNow(a, t)
  {
    now := [];
    if Logged(s, a) == [] {
      assert Logged(s, a) + rest == rest;
    } else {
      var e := Logged(s, a)[0];
      OfFirst(e, rest, t);
      now := If(e.t == t, e.msg);
    }
  }

  lemma Regrouped<T>(now: seq<T>, later: seq<T>, kept: seq<T>, held: seq<T>, mine: seq<T>, asked: seq<T>, was: seq<T>)
    requires later + kept == held + asked && now + held == was + mine
    ensures (now + later) + kept == was + (mine + asked)
  {
    assert (now + later) + kept == now + (later + kept);
    assert now + (held + asked) == (now + held) + asked;
    assert (was + mine) + asked == was + (mine + asked);
  }

  lemma {:induction false} RunHolds<T>(s: Sys<T>, run: seq<Action<T>>, t: Tid)
    requires Possible(s, run)
    ensures Of(Log(s, run), t) + Held(After(s, run).threads, t) == Held(s.threads, t) + AskedBy(run, t)
    decreases |run|
  {
    if run != [] {
      var n, rest := Next(s, run[0]), run[1..];
      RunHolds(n, rest, t);
      var now := StepHolds(s, run[0], t, Log(n, rest));
      Regrouped(now, Of(Log(n, rest), t), Held(After(n, rest).threads, t), Held(n.threads, t),
                AskedNow(run[0], t), AskedBy(rest, t), Held(s.threads, t));
    }
  }

  /** Main result: what is accepted for a thread, and then the message it is still waiting to put, are the messages
      it asked to put, each once and in the order of its calls, however often it had to wait. */
  lemma PutsAreKept<T>(s: Sys<T>, run: seq<Action<T>>, t: Tid)
    requires Initial(s) && Possible(s, run)
    ensures After(s, run).accepted == Messages(Log(s, run))
    ensures Of(Log(s, run), t) + Held(After(s, run).threads, t) == AskedBy(run, t)
  {
    LogIsComplete(s, run);
    RunHolds(s, run, t);
  }

  // ---------------------------------------------------------------------------------------------------
  // All threads together
  // ---------------------------------------------------------------------------------------------------

  lemma {:induction false} OthersHold<T>(threads: map<Tid, Pc<T>>, t: Tid, pc: Pc<T>, n: nat, msg: T)
    requires t >= n
    ensures InHands(threads[t := pc], n, msg) == InHands(threads, n, msg)
    decreases n
  {
    if n > 0 {
      OthersHold(threads, t, pc, n - 1, msg);
    }
  }

  lemma {:induction false} HeldAfterUpdate<T>(threads: map<Tid, Pc<T>>, t: Tid, pc: Pc<T>, n: nat, msg: T)
    requires t in threads && t < n
    ensures InHands(threads[t := pc], n, msg) + Holds(threads, t, msg)
            == InHands(threads, n, msg) + Holds(threads[t := pc], t, msg)
    decreases n
  {
    if t == n - 1 {
      OthersHold(threads, t, pc, n - 1, msg);
    } else {
      HeldAfterUpdate(threads, t, pc, n - 1, msg);
    }
  }

  lemma {:induction false} CountJoins<T>(a: seq<T>, b: seq<T>, msg: T)
    ensures Count(a + b, msg) == Count(a, msg) + Count(b, msg)
    decreases |a|
  {
    if a == [] {
      assert a + b == b;
    } else {
      assert (a + b)[1..] == a[1..] + b;
      CountJoins(a[1..], b, msg);
    }
  }

  lemma StepConserves<T>(s: Sys<T>, a: Action<T>, n: nat, msg: T)
    requires Enabled(s, a) && a.t < n
    ensures Count(Next(s, a).accepted, msg) + InHands(Next(s, a).threads, n, msg)
            == Count(s.accepted, msg) + InHands(s.threads, n, msg) + Asks(a, msg)
  {
    var pc := Next(s, a).threads[a.t];
    assert Next(s, a).threads == s.threads[a.t := pc];
    HeldAfterUpdate(s.threads, a.t, pc, n, msg);
    if a.TryPut? {
      CountJoins(s.accepted, [s.threads[a.t].msg], msg);
    }
  }

  lemma {:induction false} RunConserves<T>(s: Sys<T>, run: seq<Action<T>>, n: nat, msg: T)
    requires Possible(s, run) && forall t :: t in s.threads ==> t < n
    ensures Count(After(s, run).accepted, msg) + InHands(After(s, run).threads, n, msg)
            == Count(s.accepted, msg) + InHands(s.threads, n, msg) + Asked(run, msg)
    decreases |run|
  {
    if run != [] {
      StepConserves(s, run[0], n, msg);
      RunConserves(Next(s, run[0]), run[1..], n, msg);
    }
  }

  lemma {:induction false} IdleHoldNothing<T>(threads: map<Tid, Pc<T>>, n: nat, msg: T)
    requires forall t :: t in threads ==> threads[t].Idle?
    ensures InHands(threads, n, msg) == 0
    decreases n
  {
    if n > 0 {
      IdleHoldNothing(threads, n - 1, msg);
    }
  }

  /** Main result: no message is lost, doubled or made up. Those read, those stored and those in the hands of
      putters are together the messages that were asked to be put, each as often. */
  lemma MessagesConserved<T>(s: Sys<T>, run: seq<Action<T>>, n: nat, msg: T)
    requires Initial(s) && Possible(s, run) && forall t :: t in s.threads ==> t < n
    ensures var r := After(s, run);
            Count(r.delivered, msg) + Count(r.store.items, msg) + InHands(r.threads, n, msg) == Asked(run, msg)
  {
    InitialInv(s);
    RunInv(s, run);
    IdleHoldNothing(s.threads, n, msg);
    RunConserves(s, run, n, msg);
    CountJoins(After(s, run).delivered, After(s, run).store.items, msg);
  }
}
