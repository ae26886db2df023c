/**
 The matcher as the original runs it: callbacks that update the nesting level and an array of levels in place.
 For every run of the parser, arrays included, the level is never negative and the assertion on keys holds.
 */
module JsonMatcher {
  import opened JsonModel
  import opened JsonNesting
  import opened JsonMatch

  /** The kind of container an open wait stands for. */
  ghost predicate Fits(wait: Wait, kind: LevelType) {
    match wait
    case Root => false
    case KeyOrEnd => kind.ObjectLevel?
    case MemberValue => kind.ObjectLevel?
    case ItemOrEnd => kind.ArrayLevel?
  }

  /** The handler has one level for each open container, of its kind. */
  ghost predicate Follows(m: Match, waits: seq<Wait>) {
    if waits == [Root] then m.nest == 0
    else
      && m.nest == |waits|
      && forall i :: 0 <= i < |waits| && i + 1 < |m.levels| ==> Fits(waits[i], m.levels[i + 1].kind)
  }

  lemma FollowsTurn(w: Watch, m: Match, waits: seq<Wait>, ev: Event)
    requires Follows(m, waits) && Take(waits, ev).Open?
    requires waits == [Root] || forall i :: 0 <= i < |waits| ==> !waits[i].Root?
    ensures var after := Take(waits, ev).waits;
            Follows(On(w, m, ev), after) && forall i :: 0 <= i < |after| ==> !after[i].Root?
  {
    var after := Take(waits, ev).waits;
    assert forall i :: 0 <= i < |after| ==> !after[i].Root?;
    assert [Root][0] == Root;
  }

  /** The levels follow the open containers, among which the root does not count. */
  ghost predicate InLine(m: Match, waits: seq<Wait>) {
    Follows(m, waits) && (waits == [Root] || forall k :: 0 <= k < |waits| ==> !waits[k].Root?)
  }

  lemma KeyInObject(m: Match, waits: seq<Wait>, ev: Event)
    requires InLine(m, waits) && Take(waits, ev).Open? && ev.Text? && ev.key && m.nest < |m.levels|
    ensures m.levels[m.nest].kind.ObjectLevel?
  {
    assert waits != [Root];
    assert Fits(waits[m.nest - 1], m.levels[m.nest - 1 + 1].kind);
  }

  /** The next event of a trace that nests. */
  lemma NextInLine(w: Watch, m: Match, trace: seq<Event>, i: nat)
    requires i < |trace| && Nest(trace).Open? && Nest(trace[..i]).Open? && InLine(m, Nest(trace[..i]).waits)
    ensures m.nest >= 0
    ensures trace[i].Text? && trace[i].key && m.nest < |m.levels| ==> m.levels[m.nest].kind.ObjectLevel?
    ensures Nest(trace[..i + 1]).Open? && InLine(On(w, m, trace[i]), Nest(trace[..i + 1]).waits)
    ensures OnAll(w, m, trace[i..]) == OnAll(w, On(w, m, trace[i]), trace[i + 1..])
  {
    NestPrefix(trace, i + 1);
    TurnInLine(w, m, trace[..i], trace[i], trace[..i + 1]);
    assert trace[i..] == [trace[i]] + trace[i + 1..];
    FirstOfAll(w, m, trace[i], trace[i + 1..]);
  }

  lemma TurnInLine(w: Watch, m: Match, before: seq<Event>, ev: Event, after: seq<Event>)
    requires after == before + [ev] && Nest(after).Open? && Nest(before).Open? && InLine(m, Nest(before).waits)
    ensures m.nest >= 0
    ensures ev.Text? && ev.key && m.nest < |m.levels| ==> m.levels[m.nest].kind.ObjectLevel?
    ensures InLine(On(w, m, ev), Nest(after).waits)
  {
    NestNext(before, ev);
    var waits := Nest(before).waits;
    FollowsTurn(w, m, waits, ev);
    if ev.Text? && ev.key && m.nest < |m.levels| {
      KeyInObject(m, waits, ev);
    }
  }

  lemma FirstOfAll(w: Watch, m: Match, ev: Event, rest: seq<Event>)
    ensures OnAll(w, m, [ev] + rest) == OnAll(w, On(w, m, ev), rest)
  {
    assert ([ev] + rest)[1..] == rest;
  }

  class Matcher {
    const text: string
    const items: seq<seq<string>>
    const levels: array<Level>
    var nest: int
    var calls: seq<Call>

    constructor (text: string, items: seq<seq<string>>, nlevels: nat)
      ensures fresh(levels) && State() == Fresh(nlevels) && Watching() == Watch(items, text)
    {
      this.text := text;
      this.items := items;
      nest := 0;
      calls := [];
      levels := new Level[nlevels](_ => Level(NullSlice, NoLevel));
    }

    ghost function Watching(): Watch {
      Watch(items, text)
    }

    ghost function State(): Match
      reads this, levels
    {
      Match(nest, levels[..], calls)
    }

    method Check(found: Found, what: What)
      requires 0 <= nest < levels.Length
      modifies this`calls
      ensures calls == old(calls) + CallsFrom(Watching(), State(), found, what, 0)
    {
      ghost var m := State();
      var j := 0;
      while j < |items|
        invariant 0 <= j <= |items|
        invariant calls + CallsFrom(Watching(), m, found, what, j) == m.calls + CallsFrom(Watching(), m, found, what, 0)
      {
        var keys := items[j];
        var i := 1;
        while i <= nest
          invariant 1 <= i
          invariant Scan(Watching(), m, keys, 1) == Scan(Watching(), m, keys, i)
          invariant calls + CallsFrom(Watching(), m, found, what, j) ==
                    m.calls + CallsFrom(Watching(), m, found, what, 0)
        {
          if i - 1 >= |keys| || !Matches(text, levels[i].key, keys[i - 1]) {
            break;
          }
          if i == |keys| {
            break;
          }
          i := i + 1;
        }
        var hit := i <= nest && i == |keys| && Matches(text, levels[i].key, keys[i - 1]);
        assert hit == Scan(Watching(), m, keys, 1);
        if hit {
          calls := calls + [Call(j, found, what)];
        }
        j := j + 1;
      }
      assert CallsFrom(Watching(), m, found, what, j) == [];
      CallsIgnoreCalls(Watching(), m, State(), found, what, 0);
    }

    lemma CallsIgnoreCalls(w: Watch, m: Match, n: Match, found: Found, what: What, j: nat)
      requires m.nest == n.nest < |m.levels| && m.levels == n.levels
      ensures CallsFrom(w, m, found, what, j) == CallsFrom(w, n, found, what, j)
      decreases |w.items| - j
    {
      if j < |w.items| {
        ScanIgnoresCalls(w, m, n, w.items[j], 1);
        CallsIgnoreCalls(w, m, n, found, what, j + 1);
      }
    }

    lemma ScanIgnoresCalls(w: Watch, m: Match, n: Match, keys: seq<string>, i: nat)
      requires 1 <= i && m.nest == n.nest < |m.levels| && m.levels == n.levels
      ensures Scan(w, m, keys, i) == Scan(w, n, keys, i)
      decreases m.nest + 1 - i
    {
      if i < m.nest {
        ScanIgnoresCalls(w, m, n, keys, i + 1);
      }
    }

    method OnLeaf(found: Found, what: What)
      requires nest >= 0
      modifies this`calls, levels
      ensures State() == Leaf(Watching(), old(State()), found, what)
    {
      if nest >= levels.Length {
        return;
      }
      Check(found, what);
      CallsIgnoreCalls(Watching(), State(), old(State()), found, what, 0);
      levels[nest] := levels[nest].(key := NullSlice);
    }

    method OnContainer(push: bool, kind: LevelType)
      requires nest >= 0
      modifies this`nest, levels
      ensures State() == if push then Push(old(State()), kind) else old(State()).(nest := old(nest) - 1)
    {
      nest := nest + (if push then 1 else -1);
      if nest >= levels.Length {
        return;
      }
      if push {
        levels[nest] := Level(NullSlice, kind);
      }
    }

    /** The requires on the level is what the original asserts. */
    method OnKey(s: int, e: int)
      requires nest >= 0
      requires nest < levels.Length ==> levels[nest].kind.ObjectLevel?
      modifies levels
      ensures State() == On(Watching(), old(State()), Text(s, e, true))
    {
      if nest >= levels.Length {
        return;
      }
      levels[nest] := levels[nest].(key := Slice(s, e));
    }

    /** Takes the callbacks of a run, complete or cut short. */
    method Receive(trace: seq<Event>)
      requires State() == Fresh(levels.Length) && Nest(trace).Open?
      modifies this, levels
      ensures State() == OnAll(Watching(), old(State()), trace)
    {
      ghost var start := State();
      assert trace[..|trace|] == trace;
      for i := 0 to |trace|
        invariant OnAll(Watching(), start, trace) == OnAll(Watching(), State(), trace[i..])
        invariant Nest(trace[..i]).Open? && InLine(State(), Nest(trace[..i]).waits)
      {
        NextInLine(Watching(), State(), trace, i);
        Turn(trace[i]);
      }
    }

    method Turn(ev: Event)
      requires nest >= 0
      requires ev.Text? && ev.key && nest < levels.Length ==> levels[nest].kind.ObjectLevel?
      modifies this, levels
      ensures State() == On(Watching(), old(State()), ev)
    {
      match ev {
        case ObjectBegin => OnContainer(true, ObjectLevel);
        case ObjectEnd => OnContainer(false, ObjectLevel);
        case ArrayBegin => OnContainer(true, ArrayLevel);
        case ArrayEnd => OnContainer(false, ArrayLevel);
        case Number(s, e) => OnLeaf(FoundSlice(s, e), ANumber);
        case Primitive(l) => OnLeaf(FoundLiteral(l), APrimitive);
        case Text(s, e, key) =>
          if key {
            OnKey(s, e);
          } else {
            OnLeaf(FoundSlice(s, e), AString);
          }
      }
    }
  }

  lemma {:induction false} NestPrefix(trace: seq<Event>, i: nat)
    requires Nest(trace).Open? && i <= |trace|
    ensures Nest(trace[..i]).Open?
    decreases |trace| - i
  {
    if i < |trace| {
      NestPrefix(trace, i + 1);
      assert trace[..i + 1][..i] == trace[..i];
    } else {
      assert trace[..i] == trace;
    }
  }
}
