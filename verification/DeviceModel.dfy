/**
 Device start-up as functions: a depth-first walk over the needs of the queued devices, which moves each device
 from `todo` to the front of `done` once all it needs is there. The nest limit is the only guard against loops.
 */
module DeviceModel {
  import opened Wrappers

  datatype Device = Device(name: string, needs: seq<string>, canFail: bool)

  /** One call of a device's init function and what came of it. */
  datatype Call = Call(name: string, ok: bool, canFail: bool)

  datatype World = World(todo: seq<Device>, done: seq<Device>, log: seq<Call>)

  datatype Outcome = Outcome(ok: bool, world: World)

  /** What an init function answers, which may depend on all calls before it. */
  type Hardware = (seq<Call>, Device) -> bool

  function Find(list: seq<Device>, name: string): (r: Option<Device>)
    ensures r.None? <==> forall i :: 0 <= i < |list| ==> list[i].name != name
    ensures r.Some? ==> r.value in list && r.value.name == name
  {
    if list == [] then None
    else if list[0].name == name then Some(list[0])
    else Find(list[1..], name)
  }

  /** The list without the first occurrence of `d`. */
  function Remove(list: seq<Device>, d: Device): seq<Device> {
    if list == [] then [] else if list[0] == d then list[1..] else [list[0]] + Remove(list[1..], d)
  }

  function Init(w: World, d: Device, nest: nat, hw: Hardware): Outcome
    decreases nest, 1, 0
  {
    if nest == 0 then Outcome(false, w)
    else
      var n := Needs(w, d.needs, nest, hw);
      if !n.ok then n
      else
        var ok := hw(n.world.log, d);
        var called := n.world.(log := n.world.log + [Call(d.name, ok, d.canFail)]);
        if !ok && !d.canFail then Outcome(false, called)
        else Outcome(true, called.(todo := Remove(called.todo, d), done := [d] + called.done))
  }

  function Needs(w: World, needs: seq<string>, nest: nat, hw: Hardware): Outcome
    requires nest >= 1
    decreases nest, 0, |needs|
  {
    if needs == [] then Outcome(true, w)
    else if Find(w.done, needs[0]).Some? then Needs(w, needs[1..], nest, hw)
    else match Find(w.todo, needs[0])
      case None => Outcome(false, w)
      case Some(dev) =>
        var r := Init(w, dev, nest - 1, hw);
        if !r.ok then r else Needs(r.world, needs[1..], nest, hw)
  }

  /** The outer loop, `turns` of which have been taken. */
  function InitAll(w: World, loops: nat, turns: nat, hw: Hardware): Outcome
    requires turns <= loops
    decreases loops - turns
  {
    if w.todo == [] then Outcome(true, w)
    else
      var r := Init(w, w.todo[0], loops, hw);
      if !r.ok then r
      else if turns + 1 > loops then Outcome(false, r.world)
      else InitAll(r.world, loops, turns + 1, hw)
  }

  // ---------------------------------------------------------------------------------------------------
  // Names
  // ---------------------------------------------------------------------------------------------------

  ghost predicate NoRepeats(list: seq<Device>) {
    forall i, j :: 0 <= i < j < |list| ==> list[i].name != list[j].name
  }

  ghost predicate Has(list: seq<Device>, name: string) {
    exists i :: 0 <= i < |list| && list[i].name == name
  }

  /** Every device name occurs once. */
  ghost predicate Distinct(w: World) {
    && NoRepeats(w.todo) && NoRepeats(w.done)
    && forall i, j :: 0 <= i < |w.todo| && 0 <= j < |w.done| ==> w.todo[i].name != w.done[j].name
  }

  /** Each device stands before everything it needs. */
  ghost predicate Ordered(done: seq<Device>) {
    forall i, n :: 0 <= i < |done| && n in done[i].needs ==> Has(done[i + 1..], n)
  }

  lemma {:induction false} RemoveKeeps(list: seq<Device>, d: Device)
    requires NoRepeats(list)
    ensures NoRepeats(Remove(list, d))
    ensures forall x :: x in Remove(list, d) <==> x in list && x != d
    ensures |Remove(list, d)| == if d in list then |list| - 1 else |list|
    decreases |list|
  {
    if list == [] {
    } else if list[0] == d {
      assert list == [d] + list[1..];
    } else {
      var rest := list[1..];
      RemoveKeeps(rest, d);
      assert list == [list[0]] + rest;
      forall x | x in rest ensures x.name != list[0].name {
      }
    }
  }
}
