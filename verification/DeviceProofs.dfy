/**
 Every run of the start-up is a sequence of legal moves, each of a queued device all of whose needs are done;
 what holds of legal moves holds of the run. The start-up succeeds exactly when the needs can be ordered and
 no init fails that may not.
 */
module DeviceProofs {
  import opened Wrappers
  import opened DeviceModel

  ghost predicate NeedsDone(w: World, d: Device) {
    forall n :: n in d.needs ==> Has(w.done, n)
  }

  function CallOf(w: World, d: Device, hw: Hardware): Call {
    Call(d.name, hw(w.log, d), d.canFail)
  }

  predicate Tolerated(c: Call) {
    c.ok || c.canFail
  }

  function Move(w: World, d: Device, hw: Hardware): World {
    World(Remove(w.todo, d), [d] + w.done, w.log + [CallOf(w, d, hw)])
  }

  ghost predicate Legal(w: World, ds: seq<Device>, hw: Hardware)
    decreases |ds|
  {
    ds == [] || (&& ds[0] in w.todo && NeedsDone(w, ds[0]) && Tolerated(CallOf(w, ds[0], hw))
                 && Legal(Move(w, ds[0], hw), ds[1..], hw))
  }

  ghost function Play(w: World, ds: seq<Device>, hw: Hardware): World
    decreases |ds|
  {
    if ds == [] then w else Play(Move(w, ds[0], hw), ds[1..], hw)
  }

  /** A run that ends in an init that failed and may not. */
  ghost function Finish(w: World, failed: Option<Device>, hw: Hardware): World {
    match failed
    case None => w
    case Some(d) => w.(log := w.log + [CallOf(w, d, hw)])
  }

  ghost predicate FailsAt(w: World, failed: Option<Device>, hw: Hardware) {
    failed.Some? ==>
      failed.value in w.todo && NeedsDone(w, failed.value) && !Tolerated(CallOf(w, failed.value, hw))
  }

  /** The outcome is that of the legal moves `ds`, and then of the fatal failure if there is one. */
  ghost predicate Explains(w: World, r: Outcome, ds: seq<Device>, failed: Option<Device>, hw: Hardware) {
    forall k {:trigger NameMoves(ds, k)} :: NameMoves(ds, k) ==>
      && Legal(w, ds, hw)
      && r.world == Finish(Play(w, ds, hw), failed, hw)
      && FailsAt(Play(w, ds, hw), failed, hw)
      && (r.ok ==> failed.None?)
  }

  /** Names the moves that explain an outcome; until they are named, that is not unfolded. */
  ghost predicate NameMoves(ds: seq<Device>, k: int) {
    true
  }

  // ---------------------------------------------------------------------------------------------------
  // Legal moves
  // ---------------------------------------------------------------------------------------------------

  lemma MoveKeepsDistinct(w: World, d: Device, hw: Hardware)
    requires Distinct(w) && d in w.todo
    ensures Distinct(Move(w, d, hw))
  {
    RemoveKeeps(w.todo, d);
    var v := Move(w, d, hw);
    forall i, j | 0 <= i < |v.todo| && 0 <= j < |v.done| ensures v.todo[i].name != v.done[j].name {
      assert v.todo[i] in w.todo && v.todo[i] != d;
    }
  }

  lemma MoveKeepsOrdered(w: World, d: Device, hw: Hardware)
    requires Ordered(w.done) && NeedsDone(w, d)
    ensures Ordered(Move(w, d, hw).done)
  {
    var done := [d] + w.done;
    forall i, n | 0 <= i < |done| && n in done[i].needs ensures Has(done[i + 1..], n) {
      if i == 0 {
        assert done[1..] == w.done;
      } else {
        assert done[i + 1..] == w.done[i..];
        assert w.done[i - 1 + 1..] == w.done[i..];
        assert Has(w.done[i - 1 + 1..], n);
      }
    }
  }

  lemma {:induction false} LegalKeepsOrder(w: World, ds: seq<Device>, hw: Hardware)
    requires Distinct(w) && Legal(w, ds, hw)
    ensures Distinct(Play(w, ds, hw)) && (Ordered(w.done) ==> Ordered(Play(w, ds, hw).done))
    decreases |ds|
  {
    if ds != [] {
      MoveKeepsDistinct(w, ds[0], hw);
      if Ordered(w.done) {
        MoveKeepsOrdered(w, ds[0], hw);
      }
      LegalKeepsOrder(Move(w, ds[0], hw), ds[1..], hw);
    }
  }

  lemma {:induction false} LegalKeepsTodo(w: World, ds: seq<Device>, hw: Hardware)
    requires Distinct(w) && Legal(w, ds, hw)
    ensures var v := Play(w, ds, hw);
            && (forall x :: x in v.todo <==> x in w.todo && x !in ds)
            && |v.todo| == |w.todo| - |ds|
            && (forall x :: x in ds ==> x in w.todo)
    decreases |ds|
  {
    if ds != [] {
      MoveKeepsDistinct(w, ds[0], hw);
      RemoveKeeps(w.todo, ds[0]);
      LegalKeepsTodo(Move(w, ds[0], hw), ds[1..], hw);
      assert ds == [ds[0]] + ds[1..];
    }
  }

  lemma HasMore(done: seq<Device>, d: Device, n: string)
    ensures Has([d] + done, d.name)
    ensures Has(done, n) ==> Has([d] + done, n)
  {
    assert ([d] + done)[0] == d;
    if i :| 0 <= i < |done| && done[i].name == n {
      assert ([d] + done)[i + 1].name == n;
    }
  }

  lemma {:induction false} LegalKeepsDone(w: World, ds: seq<Device>, hw: Hardware, n: string)
    requires Legal(w, ds, hw)
    requires Has(w.done, n) || exists i :: 0 <= i < |ds| && ds[i].name == n
    ensures Has(Play(w, ds, hw).done, n)
    decreases |ds|
  {
    if ds != [] {
      HasMore(w.done, ds[0], n);
      if !Has(w.done, n) && ds[0].name != n {
        var i :| 0 <= i < |ds| && ds[i].name == n;
        assert ds[1..][i - 1].name == n;
      }
      LegalKeepsDone(Move(w, ds[0], hw), ds[1..], hw, n);
    }
  }

  lemma {:induction false} LegalMovesOnce(w: World, ds: seq<Device>, hw: Hardware)
    requires Distinct(w) && Legal(w, ds, hw)
    ensures NoRepeats(ds)
    decreases |ds|
  {
    if ds != [] {
      var d, v := ds[0], Move(w, ds[0], hw);
      MoveKeepsDistinct(w, d, hw);
      RemoveKeeps(w.todo, d);
      LegalKeepsTodo(v, ds[1..], hw);
      LegalMovesOnce(v, ds[1..], hw);
      forall j | 0 < j < |ds| ensures ds[j].name != d.name {
        assert ds[j] == ds[1..][j - 1] && ds[j] in ds[1..];
        assert ds[j] in v.todo && ds[j] in w.todo;
      }
      assert ds == [d] + ds[1..];
    }
  }

  lemma LegalKeeps(w: World, ds: seq<Device>, hw: Hardware)
    requires Distinct(w) && Legal(w, ds, hw)
    ensures var v := Play(w, ds, hw);
            && Distinct(v) && (Ordered(w.done) ==> Ordered(v.done))
            && (forall x :: x in v.todo <==> x in w.todo && x !in ds)
            && |v.todo| == |w.todo| - |ds|
            && (forall x :: x in ds ==> x in w.todo)
            && (forall n :: Has(w.done, n) ==> Has(v.done, n))
            && (forall x :: x in ds ==> Has(v.done, x.name))
            && NoRepeats(ds)
  {
    LegalKeepsOrder(w, ds, hw);
    LegalKeepsTodo(w, ds, hw);
    LegalMovesOnce(w, ds, hw);
    var v := Play(w, ds, hw);
    forall n | Has(w.done, n) ensures Has(v.done, n) {
      LegalKeepsDone(w, ds, hw, n);
    }
    forall x | x in ds ensures Has(v.done, x.name) {
      LegalKeepsDone(w, ds, hw, x.name);
    }
  }

  lemma {:induction false} PlayAppend(w: World, xs: seq<Device>, ys: seq<Device>, hw: Hardware)
    requires Legal(w, xs, hw) && Legal(Play(w, xs, hw), ys, hw)
    ensures Legal(w, xs + ys, hw) && Play(w, xs + ys, hw) == Play(Play(w, xs, hw), ys, hw)
    decreases |xs|
  {
    if xs == [] {
      assert xs + ys == ys;
    } else {
      var all := xs + ys;
      assert all[0] == xs[0] && all[1..] == xs[1..] + ys;
      PlayAppend(Move(w, xs[0], hw), xs[1..], ys, hw);
    }
  }

  /** Done devices are the moved ones, last first, and the calls are the moved devices' in order. */
  lemma {:induction false} PlayRecords(w: World, ds: seq<Device>, hw: Hardware)
    ensures var v := Play(w, ds, hw);
            && |v.done| == |w.done| + |ds| && |v.log| == |w.log| + |ds|
            && v.done[|ds|..] == w.done && v.log[..|w.log|] == w.log
            && (forall i :: 0 <= i < |ds| ==> v.done[|ds| - 1 - i] == ds[i])
            && (forall i :: 0 <= i < |ds| ==> v.log[|w.log| + i].name == ds[i].name)
    decreases |ds|
  {
    if ds != [] {
      var m := Move(w, ds[0], hw);
      PlayRecords(m, ds[1..], hw);
      var v := Play(w, ds, hw);
      assert v.done[|ds| - 1..] == m.done;
      assert v.done[|ds| - 1] == m.done[0] == ds[0];
      assert v.done[|ds|..] == v.done[|ds| - 1..][1..] == m.done[1..] == w.done;
      assert v.log[..|w.log|] == v.log[..|m.log|][..|w.log|] == w.log;
      forall i | 0 <= i < |ds| ensures v.done[|ds| - 1 - i] == ds[i] && v.log[|w.log| + i].name == ds[i].name {
        if i > 0 {
          assert ds[i] == ds[1..][i - 1];
          assert v.done[|ds[1..]| - 1 - (i - 1)] == ds[1..][i - 1];
          assert v.log[|m.log| + (i - 1)].name == ds[1..][i - 1].name;
        } else {
          assert v.log[..|m.log|][|w.log|] == m.log[|w.log|];
        }
      }
    }
  }

  // ---------------------------------------------------------------------------------------------------
  // Cycles of needs
  // ---------------------------------------------------------------------------------------------------

  /** Names a set of devices; until it is named, the fact below is not unfolded. */
  ghost predicate NameSet(c: set<Device>, k: int) {
    true
  }

  /** Queued devices each of which needs another of them. */
  ghost predicate Stuck(w: World, c: set<Device>) {
    forall k {:trigger NameSet(c, k)} :: NameSet(c, k) ==> forall d :: d in c ==> d in w.todo && NeedsOneOf(d, c)
  }

  ghost predicate NeedsOneOf(d: Device, c: set<Device>) {
    exists e :: e in c && e.name in d.needs
  }

  lemma QueuedIsNotDone(w: World, e: Device)
    requires Distinct(w) && e in w.todo
    ensures !Has(w.done, e.name)
  {
  }

  lemma StuckSurvivesMove(w: World, d: Device, hw: Hardware, c: set<Device>)
    requires Distinct(w) && d in w.todo && NeedsDone(w, d) && Stuck(w, c)
    ensures d !in c && Stuck(Move(w, d, hw), c)
  {
    assert NameSet(c, 0);
    if d in c {
      var e :| e in c && e.name in d.needs;
      QueuedIsNotDone(w, e);
      assert false;
    }
    RemoveKeeps(w.todo, d);
  }

  /** No legal move takes a device out of such a set. */
  lemma {:induction false} StuckStays(w: World, ds: seq<Device>, hw: Hardware, c: set<Device>)
    requires Distinct(w) && Legal(w, ds, hw) && Stuck(w, c)
    ensures forall i :: 0 <= i < |ds| ==> ds[i] !in c
    decreases |ds|
  {
    if ds != [] {
      StuckSurvivesMove(w, ds[0], hw, c);
      MoveKeepsDistinct(w, ds[0], hw);
      StuckStays(Move(w, ds[0], hw), ds[1..], hw, c);
      forall i | 0 < i < |ds| ensures ds[i] !in c {
        assert ds[i] == ds[1..][i - 1];
      }
    }
  }

  /** A path of queued devices, each of which needs the next. */
  ghost predicate Chain(w: World, path: seq<Device>) {
    && |path| >= 1 && NoRepeats(path)
    && (forall i :: 0 <= i < |path| ==> path[i] in w.todo)
    && (forall i :: 0 <= i < |path| - 1 ==> path[i + 1].name in path[i].needs)
  }

  lemma ChainBendsBack(w: World, path: seq<Device>, i: nat)
    requires Chain(w, path) && i < |path| && path[i].name in path[|path| - 1].needs
    ensures Stuck(w, set d | d in path[i..])
  {
    var c := set d | d in path[i..];
    forall d | d in c ensures d in w.todo && NeedsOneOf(d, c) {
      var j :| i <= j < |path| && path[j] == d;
      var e := if j == |path| - 1 then path[i] else path[j + 1];
      assert e in path[i..] && e.name in d.needs;
    }
  }

  // ---------------------------------------------------------------------------------------------------
  // The recursion is a sequence of legal moves
  // ---------------------------------------------------------------------------------------------------

  lemma FoundIsThere(list: seq<Device>, name: string)
    requires Find(list, name).Some?
    ensures Has(list, name)
  {
    var d := Find(list, name).value;
    var i :| 0 <= i < |list| && list[i] == d;
  }

  lemma FindIsUnique(list: seq<Device>, d: Device)
    requires NoRepeats(list) && d in list
    ensures Find(list, d.name) == Some(d)
  {
  }

  /** `path` ends in the device being initialised; the devices above it have calls in progress. When the call
      succeeds none of those has been moved, so each is still there to be removed when its turn comes. */
  lemma {:induction false} InitMoves(w: World, path: seq<Device>, nest: nat, hw: Hardware)
    returns (ds: seq<Device>, failed: Option<Device>)
    requires Distinct(w) && Chain(w, path)
    ensures var d := path[|path| - 1]; var r := Init(w, d, nest, hw);
            && Explains(w, r, ds, failed, hw)
            && (r.ok ==> && |ds| >= 1 && ds[|ds| - 1] == d
                         && forall i :: 0 <= i < |path| - 1 ==> path[i] !in ds)
    decreases nest, 1, 0
  {
    var d := path[|path| - 1];
    if nest == 0 {
      return [], None;
    }
    var n := Needs(w, d.needs, nest, hw);
    ds, failed := NeedsMoves(w, d.needs, path, nest, hw);
    assert NameMoves(ds, 0);
    if n.ok {
      var v := Play(w, ds, hw);
      LegalKeeps(w, ds, hw);
      assert d in v.todo;
      if Tolerated(CallOf(v, d, hw)) {
        assert Legal(v, [d], hw) by { assert Legal(Move(v, d, hw), [], hw); }
        assert Play(v, [d], hw) == Move(v, d, hw);
        PlayAppend(w, ds, [d], hw);
        ds := ds + [d];
      } else {
        failed := Some(d);
      }
    }
  }

  lemma {:induction false} NeedsMoves(w: World, needs: seq<string>, path: seq<Device>, nest: nat, hw: Hardware)
    returns (ds: seq<Device>, failed: Option<Device>)
    requires nest >= 1 && Distinct(w) && Chain(w, path)
    requires forall i :: 0 <= i < |needs| ==> needs[i] in path[|path| - 1].needs
    ensures var r := Needs(w, needs, nest, hw);
            && Explains(w, r, ds, failed, hw)
            && (r.ok ==> && (forall i :: 0 <= i < |needs| ==> Has(r.world.done, needs[i]))
                         && (forall i :: 0 <= i < |path| ==> path[i] !in ds))
    decreases nest, 0, |needs|, 2
  {
    if needs == [] {
      return [], None;
    }
    forall i | 0 <= i < |needs[1..]| ensures needs[1..][i] in path[|path| - 1].needs {
      assert needs[1..][i] == needs[i + 1];
    }
    if Find(w.done, needs[0]).Some? {
      ds, failed := NeedsMoves(w, needs[1..], path, nest, hw);
      ExplainsSuccess(w, Needs(w, needs, nest, hw), ds, failed, hw);
      FoundIsThere(w.done, needs[0]);
      LegalKeepsDone(w, ds, hw, needs[0]);
      return;
    }
    if Find(w.todo, needs[0]).None? {
      return [], None;
    }
    ds, failed := QueuedNeedMoves(w, needs, path, nest, hw);
  }

  /** The case of a need that is still queued. */
  lemma {:induction false} QueuedNeedMoves(w: World, needs: seq<string>, path: seq<Device>, nest: nat, hw: Hardware)
    returns (ds: seq<Device>, failed: Option<Device>)
    requires nest >= 1 && Distinct(w) && Chain(w, path)
    requires needs != [] && Find(w.done, needs[0]).None? && Find(w.todo, needs[0]).Some?
    requires needs[0] in path[|path| - 1].needs
    requires forall i :: 0 <= i < |needs[1..]| ==> needs[1..][i] in path[|path| - 1].needs
    ensures var r := Needs(w, needs, nest, hw);
            && Explains(w, r, ds, failed, hw)
            && (r.ok ==> && (forall i :: 0 <= i < |needs| ==> Has(r.world.done, needs[i]))
                         && (forall i :: 0 <= i < |path| ==> path[i] !in ds))
    decreases nest, 0, |needs|, 1
  {
    var dev := Find(w.todo, needs[0]).value;
    if i :| 0 <= i < |path| && path[i].name == dev.name {
      FindIsUnique(w.todo, path[i]);
      ds, failed := LoopMoves(w, needs, path, i, nest, hw);
    } else {
      ds, failed := NewNeedMoves(w, needs, path, dev, nest, hw);
    }
  }

  /** The need is a device with a call in progress: it does not come up. */
  lemma {:induction false} LoopMoves(w: World, needs: seq<string>, path: seq<Device>, i: nat, nest: nat, hw: Hardware)
    returns (ds: seq<Device>, failed: Option<Device>)
    requires nest >= 1 && Distinct(w) && Chain(w, path) && i < |path|
    requires needs != [] && Find(w.done, needs[0]).None? && Find(w.todo, needs[0]) == Some(path[i])
    requires needs[0] in path[|path| - 1].needs
    ensures var r := Needs(w, needs, nest, hw); Explains(w, r, ds, failed, hw) && !r.ok
    decreases nest, 0, |needs|, 0
  {
    ds, failed := InitMoves(w, [path[i]], nest - 1, hw);
    if Init(w, path[i], nest - 1, hw).ok {
      ExplainsSuccess(w, Init(w, path[i], nest - 1, hw), ds, failed, hw);
      LoopsDoNotMove(w, path, i, ds, hw);
    }
  }

  lemma ExplainsSuccess(w: World, r: Outcome, ds: seq<Device>, failed: Option<Device>, hw: Hardware)
    requires Explains(w, r, ds, failed, hw)
    ensures Legal(w, ds, hw) && (r.ok ==> r.world == Play(w, ds, hw))
  {
    assert NameMoves(ds, 0);
  }

  lemma {:induction false} NewNeedMoves(w: World, needs: seq<string>, path: seq<Device>, dev: Device, nest: nat,
                                        hw: Hardware)
    returns (ds: seq<Device>, failed: Option<Device>)
    requires nest >= 1 && Distinct(w) && Chain(w, path)
    requires needs != [] && Find(w.done, needs[0]).None? && Find(w.todo, needs[0]) == Some(dev)
    requires needs[0] in path[|path| - 1].needs && forall i :: 0 <= i < |path| ==> path[i].name != dev.name
    requires forall i :: 0 <= i < |needs[1..]| ==> needs[1..][i] in path[|path| - 1].needs
    ensures var r := Needs(w, needs, nest, hw);
            && Explains(w, r, ds, failed, hw)
            && (r.ok ==> && (forall i :: 0 <= i < |needs| ==> Has(r.world.done, needs[i]))
                         && (forall i :: 0 <= i < |path| ==> path[i] !in ds))
    decreases nest, 0, |needs|, 0
  {
    var r := Init(w, dev, nest - 1, hw);
    LongerChain(w, path, dev);
    ds, failed := InitMoves(w, path + [dev], nest - 1, hw);
    if r.ok {
      ExplainsSuccess(w, r, ds, failed, hw);
      PathRemains(w, path, dev, ds, hw);
      var first := ds;
      var more;
      more, failed := NeedsMoves(r.world, needs[1..], path, nest, hw);
      ds := ds + more;
      RestFollows(w, needs, path, nest, hw, r, first, more, failed);
    }
  }

  lemma LongerChain(w: World, path: seq<Device>, dev: Device)
    requires Chain(w, path) && dev in w.todo && dev.name in path[|path| - 1].needs
    requires forall i :: 0 <= i < |path| ==> path[i].name != dev.name
    ensures Chain(w, path + [dev]) && (path + [dev])[|path + [dev]| - 1] == dev
  {
  }

  /** The first need has come up with the moves `ds`, and the others have taken the moves `more`. */
  lemma RestFollows(w: World, needs: seq<string>, path: seq<Device>, nest: nat, hw: Hardware, r: Outcome,
                    ds: seq<Device>, more: seq<Device>, failed: Option<Device>)
    requires needs != [] && Legal(w, ds, hw) && r.world == Play(w, ds, hw) && Distinct(r.world)
    requires nest >= 1 && r.ok && Needs(w, needs, nest, hw) == Needs(r.world, needs[1..], nest, hw)
    requires Has(r.world.done, needs[0]) && forall i :: 0 <= i < |path| ==> path[i] !in ds
    requires var n := Needs(r.world, needs[1..], nest, hw);
             && Explains(r.world, n, more, failed, hw)
             && (n.ok ==> && (forall i :: 0 <= i < |needs[1..]| ==> Has(n.world.done, needs[1..][i]))
                          && (forall i :: 0 <= i < |path| ==> path[i] !in more))
    ensures var n := Needs(w, needs, nest, hw);
            && Explains(w, n, ds + more, failed, hw)
            && (n.ok ==> && (forall i :: 0 <= i < |needs| ==> Has(n.world.done, needs[i]))
                         && (forall i :: 0 <= i < |path| ==> path[i] !in ds + more))
  {
    var n := Needs(w, needs, nest, hw);
    JoinMoves(w, ds, r.world, n, more, failed, hw);
    ExplainsSuccess(r.world, n, more, failed, hw);
    LegalKeeps(r.world, more, hw);
    if n.ok {
      forall i | 0 <= i < |needs| ensures Has(n.world.done, needs[i]) {
        if i > 0 {
          assert needs[i] == needs[1..][i - 1];
        }
      }
    }
  }

  lemma LoopsDoNotMove(w: World, path: seq<Device>, i: nat, ds: seq<Device>, hw: Hardware)
    requires Distinct(w) && Chain(w, path) && i < |path| && path[i].name in path[|path| - 1].needs
    requires Legal(w, ds, hw)
    ensures forall j :: 0 <= j < |ds| ==> ds[j] != path[i]
  {
    ChainBendsBack(w, path, i);
    StuckStays(w, ds, hw, set d | d in path[i..]);
    assert path[i..][0] == path[i];
  }

  lemma PathRemains(w: World, path: seq<Device>, dev: Device, ds: seq<Device>, hw: Hardware)
    requires Distinct(w) && Chain(w, path) && Legal(w, ds, hw)
    requires forall i :: 0 <= i < |path + [dev]| - 1 ==> (path + [dev])[i] !in ds
    requires dev in ds
    ensures Distinct(Play(w, ds, hw)) && Chain(Play(w, ds, hw), path) && Has(Play(w, ds, hw).done, dev.name)
    ensures forall i :: 0 <= i < |path| ==> path[i] !in ds
  {
    LegalKeeps(w, ds, hw);
    forall i | 0 <= i < |path| ensures path[i] !in ds {
      assert (path + [dev])[i] == path[i];
    }
  }

  lemma JoinMoves(w: World, ds: seq<Device>, v: World, r: Outcome, more: seq<Device>, failed: Option<Device>,
                  hw: Hardware)
    requires Legal(w, ds, hw) && v == Play(w, ds, hw) && Explains(v, r, more, failed, hw)
    ensures Explains(w, r, ds + more, failed, hw)
  {
    assert NameMoves(more, 0);
    PlayAppend(w, ds, more, hw);
  }
}
