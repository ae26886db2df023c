/** What a whole start-up achieves, and exactly when it succeeds. */
module DeviceStartup {
  import opened Wrappers
  import opened DeviceModel
  import opened DeviceProofs

  lemma {:induction false} InitAllMoves(w: World, loops: nat, turns: nat, hw: Hardware)
    returns (ds: seq<Device>, failed: Option<Device>)
    requires Distinct(w) && turns <= loops
    ensures var r := InitAll(w, loops, turns, hw);
            Explains(w, r, ds, failed, hw) && (r.ok ==> r.world.todo == [])
    decreases loops - turns
  {
    if w.todo == [] {
      return [], None;
    }
    var d := w.todo[0];
    var r := Init(w, d, loops, hw);
    ds, failed := InitMoves(w, [d], loops, hw);
    assert NameMoves(ds, 0);
    if r.ok && turns + 1 <= loops {
      LegalKeeps(w, ds, hw);
      var more;
      more, failed := InitAllMoves(r.world, loops, turns + 1, hw);
      assert NameMoves(more, 0);
      JoinMoves(w, ds, r.world, InitAll(w, loops, turns, hw), more, failed, hw);
      ds := ds + more;
    }
  }

  // ---------------------------------------------------------------------------------------------------
  // When the needs can be ordered
  // ---------------------------------------------------------------------------------------------------

  ghost predicate Supplied(w: World, d: Device, n: string, rank: string -> nat) {
    Has(w.done, n) || (Has(w.todo, n) && rank(n) < rank(d.name))
  }

  /** `rank` orders the queued devices: everything a device needs is done, or queued at a lower rank. */
  ghost predicate Ranks(w: World, rank: string -> nat) {
    forall d, n :: d in w.todo && n in d.needs ==> Supplied(w, d, n, rank)
  }

  /** Nothing queued needs, directly or not, a name that is missing or itself. */
  ghost predicate Solvable(w: World) {
    exists rank :: Ranks(w, rank)
  }

  function IndexOf(ds: seq<Device>, name: string): nat {
    if ds == [] || ds[0].name == name then 0 else 1 + IndexOf(ds[1..], name)
  }

  lemma {:induction false} IndexOfIs(ds: seq<Device>, i: nat)
    requires NoRepeats(ds) && i < |ds|
    ensures IndexOf(ds, ds[i].name) == i
    decreases |ds|
  {
    if i > 0 {
      assert ds[i] == ds[1..][i - 1];
      IndexOfIs(ds[1..], i - 1);
    }
  }

  /** What a moved device needs was done at the start or moved before it. */
  lemma {:induction false} MovedInOrder(w: World, ds: seq<Device>, hw: Hardware, i: nat, n: string)
    requires Legal(w, ds, hw) && i < |ds| && n in ds[i].needs
    ensures Has(w.done, n) || exists j :: 0 <= j < i && ds[j].name == n
    decreases |ds|
  {
    if i > 0 {
      var v := Move(w, ds[0], hw);
      assert ds[i] == ds[1..][i - 1];
      MovedInOrder(v, ds[1..], hw, i - 1, n);
      if Has(v.done, n) {
        var k :| 0 <= k < |v.done| && v.done[k].name == n;
        if k > 0 {
          assert w.done[k - 1].name == n;
        }
      } else {
        var j :| 0 <= j < i - 1 && ds[1..][j].name == n;
        assert ds[j + 1].name == n;
      }
    }
  }

  lemma AllMovedMeansSolvable(w: World, ds: seq<Device>, hw: Hardware)
    requires Distinct(w) && Legal(w, ds, hw) && Play(w, ds, hw).todo == []
    ensures Solvable(w)
  {
    LegalKeeps(w, ds, hw);
    var rank := (name: string) => IndexOf(ds, name);
    forall d, n | d in w.todo && n in d.needs ensures Supplied(w, d, n, rank) {
      var i :| 0 <= i < |ds| && ds[i] == d;
      MovedInOrder(w, ds, hw, i, n);
      if !Has(w.done, n) {
        var j :| 0 <= j < i && ds[j].name == n;
        IndexOfIs(ds, i);
        IndexOfIs(ds, j);
        assert ds[j] in w.todo;
      }
    }
    assert Ranks(w, rank);
  }

  lemma LegalKeepsRanks(w: World, ds: seq<Device>, hw: Hardware, rank: string -> nat)
    requires Distinct(w) && Legal(w, ds, hw) && Ranks(w, rank)
    ensures Ranks(Play(w, ds, hw), rank)
  {
    LegalKeeps(w, ds, hw);
    var v := Play(w, ds, hw);
    forall d, n | d in v.todo && n in d.needs ensures Supplied(v, d, n, rank) {
      assert Supplied(w, d, n, rank);
      if !Has(w.done, n) {
        var i :| 0 <= i < |w.todo| && w.todo[i].name == n;
        assert w.todo[i] in v.todo || w.todo[i] in ds;
      }
    }
  }

  /** The queued devices ranked no higher than `bound`: how deep a walk from there can go. */
  ghost function UpTo(w: World, rank: string -> nat, bound: nat): set<Device> {
    set d | d in w.todo && rank(d.name) <= bound
  }

  lemma FewerBelow(w: World, v: World, rank: string -> nat, d: Device, bound: nat)
    requires (forall x :: x in v.todo ==> x in w.todo) && d in w.todo && bound < rank(d.name)
    ensures |UpTo(v, rank, bound)| < |UpTo(w, rank, rank(d.name))|
  {
    var small, large := UpTo(v, rank, bound), UpTo(w, rank, rank(d.name));
    assert small <= large - {d};
    Fewer(small, large - {d});
    assert |large - {d}| == |large| - 1;
  }

  lemma {:induction false} Fewer<T>(a: set<T>, b: set<T>)
    requires a <= b
    ensures |a| <= |b|
    decreases a
  {
    if a != {} {
      var x :| x in a;
      Fewer(a - {x}, b - {x});
    }
  }

  /** The run stopped at an init that failed and may not. */
  ghost predicate Fatal(w: World, r: Outcome) {
    exists i :: |w.log| <= i < |r.world.log| && !Tolerated(r.world.log[i])
  }

  ghost predicate Completes(w: World, r: Outcome) {
    |w.log| <= |r.world.log| && (r.ok || Fatal(w, r))
  }

  /** With room enough below the nest limit, an ordered device comes up unless an init is fatal. */
  lemma {:induction false} InitCompletes(w: World, d: Device, nest: nat, hw: Hardware, rank: string -> nat)
    requires Distinct(w) && d in w.todo && Ranks(w, rank) && nest >= |UpTo(w, rank, rank(d.name))|
    ensures Completes(w, Init(w, d, nest, hw))
    decreases nest, 1, 0
  {
    assert d in UpTo(w, rank, rank(d.name));
    var n := Needs(w, d.needs, nest, hw);
    NeedsComplete(w, w, d, d.needs, nest, hw, rank);
    if n.ok {
      var log := n.world.log + [CallOf(n.world, d, hw)];
      assert log[|n.world.log|] == CallOf(n.world, d, hw);
    }
  }

  lemma {:induction false} NeedsComplete(w: World, v: World, d: Device, needs: seq<string>, nest: nat, hw: Hardware,
                                         rank: string -> nat)
    requires nest >= 1 && Distinct(v) && d in v.todo && Ranks(v, rank)
    requires forall i :: 0 <= i < |needs| ==> needs[i] in d.needs
    requires d in w.todo && (forall x :: x in v.todo ==> x in w.todo)
    requires nest >= |UpTo(w, rank, rank(d.name))|
    ensures Completes(v, Needs(v, needs, nest, hw))
    decreases nest, 0, |needs|
  {
    if needs == [] {
      return;
    }
    forall i | 0 <= i < |needs[1..]| ensures needs[1..][i] in d.needs {
      assert needs[1..][i] == needs[i + 1];
    }
    assert Supplied(v, d, needs[0], rank);
    if Find(v.done, needs[0]).Some? {
      NeedsComplete(w, v, d, needs[1..], nest, hw, rank);
      return;
    }
    var dev := Find(v.todo, needs[0]).value;
    FewerBelow(w, v, rank, d, rank(dev.name));
    InitCompletes(v, dev, nest - 1, hw, rank);
    var r := Init(v, dev, nest - 1, hw);
    if r.ok {
      assert dev != d && needs[0] in d.needs;
      var ds := StepDown(v, d, dev, nest - 1, hw, rank);
      NeedsComplete(w, r.world, d, needs[1..], nest, hw, rank);
      var t := Needs(v, needs, nest, hw);
      if Fatal(r.world, t) {
        assert Fatal(v, t);
      }
    } else {
      assert Fatal(v, Needs(v, needs, nest, hw));
    }
  }

  /** After a need came up, the device that needs it is still queued and still ordered. */
  lemma StepDown(v: World, d: Device, dev: Device, nest: nat, hw: Hardware, rank: string -> nat)
    returns (ds: seq<Device>)
    requires Distinct(v) && Ranks(v, rank) && d in v.todo && dev in v.todo && d != dev && dev.name in d.needs
    requires Init(v, dev, nest, hw).ok
    ensures var u := Init(v, dev, nest, hw).world;
            Distinct(u) && Ranks(u, rank) && d in u.todo && (forall x :: x in u.todo ==> x in v.todo)
  {
    assert Chain(v, [d, dev]);
    var failed;
    ds, failed := InitMoves(v, [d, dev], nest, hw);
    assert NameMoves(ds, 0);
    LegalKeeps(v, ds, hw);
    LegalKeepsRanks(v, ds, hw, rank);
    assert [d, dev][0] !in ds;
  }

  lemma HeadMoved(w: World, d: Device, nest: nat, hw: Hardware, rank: string -> nat)
    requires Distinct(w) && d in w.todo && Ranks(w, rank) && Init(w, d, nest, hw).ok
    ensures var v := Init(w, d, nest, hw).world;
            Distinct(v) && Ranks(v, rank) && |v.todo| < |w.todo|
  {
    assert Chain(w, [d]);
    var ds, failed := InitMoves(w, [d], nest, hw);
    assert NameMoves(ds, 0);
    LegalKeeps(w, ds, hw);
    LegalKeepsRanks(w, ds, hw, rank);
  }

  lemma {:induction false} InitAllCompletes(w: World, loops: nat, turns: nat, hw: Hardware, rank: string -> nat)
    requires Distinct(w) && turns + |w.todo| <= loops && Ranks(w, rank)
    ensures Completes(w, InitAll(w, loops, turns, hw))
    decreases loops - turns
  {
    if w.todo != [] {
      var d := w.todo[0];
      var r := Init(w, d, loops, hw);
      QueueBounds(w, rank, rank(d.name));
      InitCompletes(w, d, loops, hw, rank);
      if r.ok {
        HeadMoved(w, d, loops, hw, rank);
        InitAllCompletes(r.world, loops, turns + 1, hw, rank);
      }
      TurnCompletes(w, r, InitAll(w, loops, turns, hw));
    }
  }

  /** A turn completes, and then the others. */
  lemma TurnCompletes(w: World, r: Outcome, t: Outcome)
    requires Completes(w, r) && if r.ok then Completes(r.world, t) else t == r
    ensures Completes(w, t)
  {
    assert r.ok && Fatal(r.world, t) ==> Fatal(w, t);
  }

  lemma {:induction false} AsSet<T>(list: seq<T>)
    ensures |set d | d in list| <= |list|
    decreases |list|
  {
    if list != [] {
      var s := set d | d in list[1..];
      AsSet(list[1..]);
      assert (set d | d in list) == s + {list[0]};
    } else {
      assert (set d | d in list) == {};
    }
  }

  lemma QueueBounds(w: World, rank: string -> nat, bound: nat)
    ensures |UpTo(w, rank, bound)| <= |w.todo|
  {
    AsSet(w.todo);
    Fewer(UpTo(w, rank, bound), set d | d in w.todo);
  }

  // ---------------------------------------------------------------------------------------------------
  // Main results
  // ---------------------------------------------------------------------------------------------------

  ghost predicate NoRepeatedCall(log: seq<Call>) {
    forall i, j :: 0 <= i < j < |log| ==> log[i].name != log[j].name
  }

  lemma LogHasNoRepeats(w: World, r: Outcome, ds: seq<Device>, failed: Option<Device>, hw: Hardware)
    requires Distinct(w) && Explains(w, r, ds, failed, hw)
    ensures |w.log| <= |r.world.log| && r.world.log[..|w.log|] == w.log && NoRepeatedCall(r.world.log[|w.log|..])
  {
    assert NameMoves(ds, 0);
    LegalKeeps(w, ds, hw);
    PlayRecords(w, ds, hw);
    var log := r.world.log[|w.log|..];
    forall i | 0 <= i < |log|
      ensures i < |ds| ==> log[i].name == ds[i].name
      ensures i >= |ds| ==> failed.Some? && i == |ds| && log[i].name == failed.value.name
    {
      if i < |ds| {
        assert log[i] == Play(w, ds, hw).log[|w.log| + i];
      }
    }
    if failed.Some? {
      QueuedIsNotDone(Play(w, ds, hw), failed.value);
      forall i | 0 <= i < |ds| ensures ds[i].name != failed.value.name {
        assert Has(Play(w, ds, hw).done, ds[i].name);
      }
    }
  }

  /** The `i`th call of a log is that of a queued device, with what its init answers after all calls before it. */
  ghost predicate Answered(w: World, log: seq<Call>, i: nat, hw: Hardware)
    requires i < |log|
  {
    exists d :: d in w.todo && log[i] == Call(d.name, hw(log[..i], d), d.canFail)
  }

  lemma {:induction false} MovesAreAnswered(w: World, ds: seq<Device>, hw: Hardware, i: nat)
    requires Legal(w, ds, hw) && i < |ds|
    ensures var v := Play(w, ds, hw); var k := |w.log| + i;
            k < |v.log| && v.log[k] == Call(ds[i].name, hw(v.log[..k], ds[i]), ds[i].canFail)
    decreases |ds|
  {
    var m := Move(w, ds[0], hw);
    PlayRecords(m, ds[1..], hw);
    var v := Play(w, ds, hw);
    if i == 0 {
      assert v.log[|w.log|] == v.log[..|m.log|][|w.log|] == CallOf(w, ds[0], hw);
      assert v.log[..|w.log|] == v.log[..|m.log|][..|w.log|] == w.log;
    } else {
      MovesAreAnswered(m, ds[1..], hw, i - 1);
    }
  }

  /** Every call of a start-up is answered by the hardware. */
  lemma CallsAreAnswered(w: World, loops: nat, hw: Hardware)
    requires Distinct(w)
    ensures var log := InitAll(w, loops, 0, hw).world.log;
            && |w.log| <= |log| && log[..|w.log|] == w.log
            && forall i :: |w.log| <= i < |log| ==> Answered(w, log, i, hw)
  {
    var r := InitAll(w, loops, 0, hw);
    var ds, failed := InitAllMoves(w, loops, 0, hw);
    assert NameMoves(ds, 0);
    LegalKeeps(w, ds, hw);
    PlayRecords(w, ds, hw);
    LogHasNoRepeats(w, r, ds, failed, hw);
    forall i | |w.log| <= i < |r.world.log| ensures Answered(w, r.world.log, i, hw) {
      CallIsAnswered(w, r, ds, failed, hw, i);
    }
  }

  lemma CallIsAnswered(w: World, r: Outcome, ds: seq<Device>, failed: Option<Device>, hw: Hardware, i: nat)
    requires Legal(w, ds, hw) && r.world == Finish(Play(w, ds, hw), failed, hw)
    requires |Play(w, ds, hw).log| == |w.log| + |ds| && (forall x :: x in ds ==> x in w.todo)
    requires failed.Some? ==> failed.value in w.todo
    requires |w.log| <= i < |r.world.log|
    ensures Answered(w, r.world.log, i, hw)
  {
    var log, v, k := r.world.log, Play(w, ds, hw), i - |w.log|;
    if k < |ds| {
      MovesAreAnswered(w, ds, hw, k);
      assert log[..i] == v.log[..i];
      assert ds[k] in w.todo;
    } else {
      assert log[..i] == v.log;
    }
  }

  /** Safety of every start-up, successful or not: no init is called twice, every device is done after all it
      needs, none is lost or invented, and success means every queued device came up. */
  lemma StartupIsSafe(w: World, loops: nat, hw: Hardware)
    requires Distinct(w) && Ordered(w.done)
    ensures var r := InitAll(w, loops, 0, hw);
            && Distinct(r.world) && Ordered(r.world.done)
            && |w.log| <= |r.world.log| && NoRepeatedCall(r.world.log[|w.log|..])
            && (forall x :: x in r.world.todo + r.world.done <==> x in w.todo + w.done)
            && |w.done| <= |r.world.done| && r.world.done[|r.world.done| - |w.done|..] == w.done
            && (r.ok ==> r.world.todo == [])
  {
    var r := InitAll(w, loops, 0, hw);
    var ds, failed := InitAllMoves(w, loops, 0, hw);
    assert NameMoves(ds, 0);
    LegalKeeps(w, ds, hw);
    PlayRecords(w, ds, hw);
    LogHasNoRepeats(w, r, ds, failed, hw);
    var done := r.world.done;
    forall x ensures x in r.world.todo + done <==> x in w.todo + w.done {
      DoneIs(done, ds, w.done, x);
    }
  }

  lemma DoneIs(done: seq<Device>, ds: seq<Device>, before: seq<Device>, x: Device)
    requires |done| == |before| + |ds| && done[|ds|..] == before
    requires forall i :: 0 <= i < |ds| ==> done[|ds| - 1 - i] == ds[i]
    ensures x in done <==> x in ds || x in before
  {
    assert done == done[..|ds|] + before;
    if x in ds {
      var i :| 0 <= i < |ds| && ds[i] == x;
      assert done[|ds| - 1 - i] == x;
    }
    if x in done[..|ds|] {
      var i :| 0 <= i < |ds| && done[i] == x;
      assert done[|ds| - 1 - (|ds| - 1 - i)] == ds[|ds| - 1 - i];
    }
  }

  /** Exactly when a start-up of at most `loops` devices succeeds: the needs can be ordered and no init that
      was called failed fatally. */
  lemma StartupSucceedsExactly(w: World, loops: nat, hw: Hardware)
    requires Distinct(w) && |w.todo| <= loops
    ensures var r := InitAll(w, loops, 0, hw); r.ok <==> Solvable(w) && !Fatal(w, r)
  {
    var r := InitAll(w, loops, 0, hw);
    if Solvable(w) {
      var rank :| Ranks(w, rank);
      InitAllCompletes(w, loops, 0, hw, rank);
    }
    if r.ok {
      var ds, failed := InitAllMoves(w, loops, 0, hw);
      assert NameMoves(ds, 0);
      AllMovedMeansSolvable(w, ds, hw);
      NothingFatal(w, ds, hw);
    }
  }

  /** Main result: when no queued device can fail fatally, a start-up of at most `loops` devices succeeds exactly
      when the needs can be ordered. */
  lemma HealthyStartupSucceeds(w: World, loops: nat, hw: Hardware)
    requires Distinct(w) && |w.todo| <= loops
    requires forall log, d :: d in w.todo ==> hw(log, d) || d.canFail
    ensures InitAll(w, loops, 0, hw).ok <==> Solvable(w)
  {
    var r := InitAll(w, loops, 0, hw);
    StartupSucceedsExactly(w, loops, hw);
    CallsAreAnswered(w, loops, hw);
    if Fatal(w, r) {
      var i :| |w.log| <= i < |r.world.log| && !Tolerated(r.world.log[i]);
      assert Answered(w, r.world.log, i, hw);
    }
  }

  // ---------------------------------------------------------------------------------------------------
  // More devices than `loops`
  // ---------------------------------------------------------------------------------------------------

  /** No device before `d` in the queue needs it. */
  predicate Unneeded(todo: seq<Device>, d: Device) {
    todo == [] || todo[0] == d || (d.name !in todo[0].needs && Unneeded(todo[1..], d))
  }

  /** The devices that the loop over the queue may have to start itself. */
  ghost function Roots(w: World): set<Device> {
    set d | d in w.todo && Unneeded(w.todo, d)
  }

  lemma {:induction false} UnneededBefore(todo: seq<Device>, x: Device, d: Device)
    requires d.name !in x.needs && Unneeded(Remove(todo, x), d)
    ensures Unneeded(todo, d)
    decreases |todo|
  {
    if todo != [] && todo[0] != x && todo[0] != d {
      assert Remove(todo, x)[1..] == Remove(todo[1..], x);
      UnneededBefore(todo[1..], x, d);
    }
  }

  lemma MoveKeepsRoots(w: World, x: Device, hw: Hardware)
    requires Distinct(w) && x in w.todo && NeedsDone(w, x)
    ensures Roots(Move(w, x, hw)) <= Roots(w)
  {
    var v := Move(w, x, hw);
    RemoveKeeps(w.todo, x);
    forall d | d in Roots(v) ensures d in Roots(w) {
      QueuedIsNotDone(w, d);
      UnneededBefore(w.todo, x, d);
    }
  }

  lemma {:induction false} LegalKeepsRoots(w: World, ds: seq<Device>, hw: Hardware)
    requires Distinct(w) && Legal(w, ds, hw)
    ensures Roots(Play(w, ds, hw)) <= Roots(w)
    decreases |ds|
  {
    if ds != [] {
      MoveKeepsDistinct(w, ds[0], hw);
      MoveKeepsRoots(w, ds[0], hw);
      LegalKeepsRoots(Move(w, ds[0], hw), ds[1..], hw);
    }
  }

  /** Needs that go no deeper than the nest limit do not meet it. */
  lemma {:induction false} ShallowInit(w: World, d: Device, nest: nat, hw: Hardware, rank: string -> nat)
    requires Distinct(w) && d in w.todo && Ranks(w, rank) && nest > rank(d.name)
    ensures Completes(w, Init(w, d, nest, hw))
    decreases nest, 1, 0
  {
    var n := Needs(w, d.needs, nest, hw);
    ShallowNeeds(w, d, d.needs, nest, hw, rank);
    if n.ok {
      var log := n.world.log + [CallOf(n.world, d, hw)];
      assert log[|n.world.log|] == CallOf(n.world, d, hw);
    }
  }

  lemma {:induction false} ShallowNeeds(v: World, d: Device, needs: seq<string>, nest: nat, hw: Hardware,
                                        rank: string -> nat)
    requires nest >= 1 && Distinct(v) && d in v.todo && Ranks(v, rank) && nest > rank(d.name)
    requires forall i :: 0 <= i < |needs| ==> needs[i] in d.needs
    ensures Completes(v, Needs(v, needs, nest, hw))
    decreases nest, 0, |needs|
  {
    if needs == [] {
      return;
    }
    forall i | 0 <= i < |needs[1..]| ensures needs[1..][i] in d.needs {
      assert needs[1..][i] == needs[i + 1];
    }
    assert Supplied(v, d, needs[0], rank);
    if Find(v.done, needs[0]).Some? {
      ShallowNeeds(v, d, needs[1..], nest, hw, rank);
      return;
    }
    var dev := Find(v.todo, needs[0]).value;
    ShallowInit(v, dev, nest - 1, hw, rank);
    var r := Init(v, dev, nest - 1, hw);
    if r.ok {
      assert dev != d && needs[0] in d.needs;
      var ds := StepDown(v, d, dev, nest - 1, hw, rank);
      ShallowNeeds(r.world, d, needs[1..], nest, hw, rank);
    }
    TurnCompletes(v, r, Needs(v, needs, nest, hw));
  }

  lemma {:induction false} ShallowInitAll(w: World, loops: nat, turns: nat, hw: Hardware, rank: string -> nat)
    requires Distinct(w) && turns + |Roots(w)| <= loops && Ranks(w, rank)
    requires forall d :: d in w.todo ==> rank(d.name) < loops
    ensures Completes(w, InitAll(w, loops, turns, hw))
    decreases loops - turns
  {
    if w.todo != [] {
      var d := w.todo[0];
      assert d in Roots(w);
      var r := Init(w, d, loops, hw);
      ShallowInit(w, d, loops, hw, rank);
      if r.ok {
        OneRootLess(w, d, loops, hw, rank);
        ShallowInitAll(r.world, loops, turns + 1, hw, rank);
      }
      TurnCompletes(w, r, InitAll(w, loops, turns, hw));
    }
  }

  lemma OneRootLess(w: World, d: Device, nest: nat, hw: Hardware, rank: string -> nat)
    requires Distinct(w) && d in Roots(w) && Ranks(w, rank) && Init(w, d, nest, hw).ok
    ensures var v := Init(w, d, nest, hw).world;
            && Distinct(v) && Ranks(v, rank) && |Roots(v)| < |Roots(w)|
            && forall x :: x in v.todo ==> x in w.todo
  {
    assert Chain(w, [d]);
    var ds, failed := InitMoves(w, [d], nest, hw);
    assert NameMoves(ds, 0);
    LegalKeeps(w, ds, hw);
    LegalKeepsRanks(w, ds, hw, rank);
    LegalKeepsRoots(w, ds, hw);
    var v := Init(w, d, nest, hw).world;
    assert d !in v.todo;
    Fewer(Roots(v), Roots(w) - {d});
  }

  /** Success however many devices are queued: the needs go no deeper than `loops`, and no more than `loops`
      devices are not needed by any before them in the queue. */
  lemma ShallowStartupSucceeds(w: World, loops: nat, hw: Hardware, rank: string -> nat)
    requires Distinct(w) && Ranks(w, rank) && (forall d :: d in w.todo ==> rank(d.name) < loops)
    requires |Roots(w)| <= loops
    requires forall log, d :: d in w.todo ==> hw(log, d) || d.canFail
    ensures InitAll(w, loops, 0, hw).ok
  {
    var r := InitAll(w, loops, 0, hw);
    ShallowInitAll(w, loops, 0, hw, rank);
    CallsAreAnswered(w, loops, hw);
    if Fatal(w, r) {
      var i :| |w.log| <= i < |r.world.log| && !Tolerated(r.world.log[i]);
      assert Answered(w, r.world.log, i, hw);
    }
  }

  lemma {:induction false} NothingFatal(w: World, ds: seq<Device>, hw: Hardware)
    requires Legal(w, ds, hw)
    ensures var v := Play(w, ds, hw); forall i :: |w.log| <= i < |v.log| ==> Tolerated(v.log[i])
    decreases |ds|
  {
    if ds != [] {
      var m := Move(w, ds[0], hw);
      NothingFatal(m, ds[1..], hw);
      PlayRecords(m, ds[1..], hw);
      var v := Play(w, ds, hw);
      assert v.log[..|m.log|][|w.log|] == m.log[|w.log|];
    }
  }

  /** Queued devices that need a missing name or one another. */
  ghost predicate Hopeless(w: World, c: set<Device>) {
    forall d :: d in c ==> d in w.todo && NeedsMissing(w, d, c)
  }

  ghost predicate NeedsMissing(w: World, d: Device, c: set<Device>) {
    exists n :: n in d.needs && !Has(w.done, n) && (!Has(w.todo, n) || exists e :: e in c && e.name == n)
  }

  lemma {:induction false} Lowest(c: set<Device>, rank: string -> nat) returns (d: Device)
    requires c != {}
    ensures d in c && forall e :: e in c ==> rank(d.name) <= rank(e.name)
    decreases c
  {
    d :| d in c;
    if c != {d} {
      var e := Lowest(c - {d}, rank);
      d := if rank(e.name) < rank(d.name) then e else d;
    }
  }

  lemma LowestIsSupplied(w: World, rank: string -> nat, c: set<Device>) returns (d: Device)
    requires Ranks(w, rank) && c != {} && forall e :: e in c ==> e in w.todo
    ensures d in c && !NeedsMissing(w, d, c)
  {
    d := Lowest(c, rank);
    forall n | n in d.needs ensures Supplied(w, d, n, rank) {
    }
  }

  /** A cycle of needs, or a missing name, anywhere in the queue makes the start-up fail, whatever the limits. */
  lemma HopelessFails(w: World, loops: nat, hw: Hardware, c: set<Device>)
    requires Distinct(w) && c != {} && Hopeless(w, c)
    ensures !InitAll(w, loops, 0, hw).ok && !Solvable(w)
  {
    if Solvable(w) {
      var rank :| Ranks(w, rank);
      var d := LowestIsSupplied(w, rank, c);
    }
    if InitAll(w, loops, 0, hw).ok {
      var ds, failed := InitAllMoves(w, loops, 0, hw);
      assert NameMoves(ds, 0);
      AllMovedMeansSolvable(w, ds, hw);
    }
  }

  /** The devices outside `left` are ranked, all below `bound`. */
  ghost predicate Peeled(w: World, left: set<Device>, rank: map<string, nat>, bound: nat) {
    && (forall n :: n in rank ==> rank[n] < bound)
    && (forall d :: d in w.todo && d !in left ==> d.name in rank)
    && forall d, n :: d in w.todo && d !in left && n in d.needs ==>
         Has(w.done, n) || (Has(w.todo, n) && n in rank && rank[n] < rank[d.name])
  }

  lemma {:induction false} Peel(w: World, left: set<Device>, rank: map<string, nat>, bound: nat)
    requires Distinct(w) && Peeled(w, left, rank, bound) && forall d :: d in left ==> d in w.todo && d.name !in rank
    ensures Solvable(w) || exists c: set<Device> :: c != {} && Hopeless(w, c)
    decreases left
  {
    if left == {} {
      var total := (name: string) => if name in rank then rank[name] else 0;
      assert Ranks(w, total);
    } else if d :| d in left && !NeedsMissing(w, d, left) {
      var next := rank[d.name := bound];
      forall x, n | x in w.todo && x !in left - {d} && n in x.needs
        ensures Has(w.done, n) || (Has(w.todo, n) && n in next && next[n] < next[x.name])
      {
        if x == d && !Has(w.done, n) {
          var i :| 0 <= i < |w.todo| && w.todo[i].name == n;
          assert w.todo[i] !in left;
        }
      }
      Peel(w, left - {d}, next, bound + 1);
    } else {
      assert Hopeless(w, left);
    }
  }

  /** The queue can be ordered exactly when no part of it is hopeless. */
  lemma SolvableExactly(w: World)
    requires Distinct(w)
    ensures Solvable(w) <==> forall c: set<Device> :: c != {} ==> !Hopeless(w, c)
  {
    if !Solvable(w) {
      Peel(w, set d | d in w.todo, map[], 0);
    } else {
      forall c: set<Device> | c != {} && Hopeless(w, c) ensures false {
        HopelessFails(w, 0, (log, d) => true, c);
      }
    }
  }
}
