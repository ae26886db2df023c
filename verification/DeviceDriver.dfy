/** The start-up as the original runs it, on two lists that it updates as it goes. */
module DeviceDriver {
  import opened Wrappers
  import opened DeviceModel
  import opened DeviceProofs

  lemma {:induction false} RemoveSplits(list: seq<Device>, i: nat, d: Device)
    requires i <= |list| && forall j :: 0 <= j < i ==> list[j] != d
    ensures i == |list| ==> DeviceModel.Remove(list, d) == list
    ensures i < |list| && list[i] == d ==> DeviceModel.Remove(list, d) == list[..i] + list[i + 1..]
    decreases i
  {
    if i > 0 {
      var rest := list[1..];
      RemoveSplits(rest, i - 1, d);
      assert list == [list[0]] + rest;
      if i < |list| && list[i] == d {
        assert rest[i - 1] == d;
        assert [list[0]] + (rest[..i - 1] + rest[i..]) == list[..i] + list[i + 1..];
      }
    }
  }

  class DeviceList {
    var items: seq<Device>

    constructor (items: seq<Device>)
      ensures this.items == items
    {
      this.items := items;
    }

    method Push(d: Device)
      modifies this
      ensures items == [d] + old(items)
    {
      items := [d] + items;
    }

    method Find(name: string) returns (r: Option<Device>)
      ensures r == DeviceModel.Find(items, name)
    {
      var i := 0;
      while i < |items|
        invariant 0 <= i <= |items|
        invariant DeviceModel.Find(items, name) == DeviceModel.Find(items[i..], name)
      {
        if items[i].name == name {
          return Some(items[i]);
        }
        i := i + 1;
      }
      return None;
    }

    method Remove(d: Device) returns (found: bool)
      modifies this
      ensures found <==> d in old(items)
      ensures items == DeviceModel.Remove(old(items), d)
    {
      var i := 0;
      while i < |items|
        invariant 0 <= i <= |items| && items == old(items)
        invariant forall j :: 0 <= j < i ==> items[j] != d
      {
        if items[i] == d {
          RemoveSplits(items, i, d);
          items := items[..i] + items[i + 1..];
          return true;
        }
        i := i + 1;
      }
      RemoveSplits(items, i, d);
      return false;
    }
  }

  /** The calls of init functions so far. */
  class CallLog {
    var log: seq<Call>

    constructor ()
      ensures log == []
    {
      log := [];
    }

    method Call(d: Device, hw: Hardware) returns (ok: bool)
      modifies this
      ensures ok == hw(old(log), d) && log == old(log) + [DeviceModel.Call(d.name, ok, d.canFail)]
    {
      ok := hw(log, d);
      log := log + [DeviceModel.Call(d.name, ok, d.canFail)];
    }
  }

  ghost function State(todo: DeviceList, done: DeviceList, calls: CallLog): World
    reads todo, done, calls
  {
    World(todo.items, done.items, calls.log)
  }

  /** While the needs of a queued device come up, the device itself stays queued. */
  lemma StaysQueued(w: World, d: Device, nest: nat, hw: Hardware)
    requires nest >= 1 && Distinct(w) && d in w.todo
    ensures var n := Needs(w, d.needs, nest, hw);
            n.ok ==> d in n.world.todo && Distinct(n.world)
  {
    assert Chain(w, [d]);
    var ds, failed := NeedsMoves(w, d.needs, [d], nest, hw);
    assert NameMoves(ds, 0);
    LegalKeeps(w, ds, hw);
    if Needs(w, d.needs, nest, hw).ok {
      assert [d][0] !in ds;
    }
  }

  lemma InitKeepsDistinct(w: World, d: Device, nest: nat, hw: Hardware)
    requires Distinct(w) && d in w.todo
    ensures Distinct(Init(w, d, nest, hw).world)
  {
    assert Chain(w, [d]);
    var ds, failed := InitMoves(w, [d], nest, hw);
    assert NameMoves(ds, 0);
    LegalKeeps(w, ds, hw);
  }

  method InitDevice(d: Device, todo: DeviceList, done: DeviceList, calls: CallLog, nest: nat, hw: Hardware)
    returns (ok: bool)
    requires todo != done && Distinct(State(todo, done, calls)) && d in todo.items
    modifies todo, done, calls
    ensures Outcome(ok, State(todo, done, calls)) == Init(old(State(todo, done, calls)), d, nest, hw)
    decreases nest, 1
  {
    if nest == 0 {
      return false;
    }
    ghost var start := State(todo, done, calls);
    var i := 0;
    while i < |d.needs|
      invariant 0 <= i <= |d.needs| && Distinct(State(todo, done, calls))
      invariant Needs(start, d.needs, nest, hw) == Needs(State(todo, done, calls), d.needs[i..], nest, hw)
    {
      assert d.needs[i..][0] == d.needs[i] && d.needs[i..][1..] == d.needs[i + 1..];
      var up := InitNeed(d.needs[i], todo, done, calls, nest, hw, d.needs[i..]);
      if !up {
        return false;
      }
      i := i + 1;
    }
    StaysQueued(start, d, nest, hw);
    var up := calls.Call(d, hw);
    if !up && !d.canFail {
      return false;
    }
    var removed := todo.Remove(d);
    assert removed;
    done.Push(d);
    return true;
  }

  /** One turn of the loop over the needs. */
  method InitNeed(needed: string, todo: DeviceList, done: DeviceList, calls: CallLog, nest: nat, hw: Hardware,
                  ghost needs: seq<string>) returns (ok: bool)
    requires nest >= 1 && todo != done && Distinct(State(todo, done, calls))
    requires needs != [] && needed == needs[0]
    modifies todo, done, calls
    ensures Needs(old(State(todo, done, calls)), needs, nest, hw) ==
            if ok then Needs(State(todo, done, calls), needs[1..], nest, hw)
            else Outcome(false, State(todo, done, calls))
    ensures Distinct(State(todo, done, calls))
    decreases nest, 0
  {
    var dev := done.Find(needed);
    if dev.None? {
      dev := todo.Find(needed);
      if dev.None? {
        return false;
      }
      InitKeepsDistinct(State(todo, done, calls), dev.value, nest - 1, hw);
      ok := InitDevice(dev.value, todo, done, calls, nest - 1, hw);
      return;
    }
    return true;
  }

  method InitDevices(todo: DeviceList, done: DeviceList, calls: CallLog, loops: nat, hw: Hardware) returns (ok: bool)
    requires todo != done && Distinct(State(todo, done, calls))
    modifies todo, done, calls
    ensures Outcome(ok, State(todo, done, calls)) == InitAll(old(State(todo, done, calls)), loops, 0, hw)
  {
    ghost var start := State(todo, done, calls);
    var loopDetect := 0;
    while todo.items != []
      invariant 0 <= loopDetect <= loops && Distinct(State(todo, done, calls))
      invariant InitAll(start, loops, 0, hw) == InitAll(State(todo, done, calls), loops, loopDetect, hw)
      decreases loops - loopDetect
    {
      var d := todo.items[0];
      InitKeepsDistinct(State(todo, done, calls), d, loops, hw);
      var up := InitDevice(d, todo, done, calls, loops, hw);
      if !up {
        return false;
      }
      loopDetect := loopDetect + 1;
      if loopDetect > loops {
        return false;
      }
    }
    return true;
  }
}
