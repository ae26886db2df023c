/**
 What the levels of the matcher hold at every moment of every run, arrays included: the key of each open object
 on the way from the root, and no key for an open array.
 */
module JsonKeyPath {
  import opened JsonModel
  import opened JsonNesting
  import opened JsonMatch
  import opened JsonMatcher
  import opened JsonPrint
  import opened JsonRoundTrip

  function Step(path: seq<Slice>, ev: Event): seq<Slice> {
    match ev
    case ObjectBegin => path + [NullSlice]
    case ArrayBegin => path + [NullSlice]
    case ObjectEnd => if path == [] then [] else path[..|path| - 1]
    case ArrayEnd => if path == [] then [] else path[..|path| - 1]
    case Text(s, e, true) => if path == [] then [] else path[..|path| - 1] + [Slice(s, e)]
    case _ => path
  }

  /** The last key seen in each container that is open after these events, from the root inwards. */
  function Path(trace: seq<Event>): seq<Slice> {
    if trace == [] then [] else Step(Path(trace[..|trace| - 1]), trace[|trace| - 1])
  }

  /** Arrays have no key; an object has one when a value is due in it or open in it. */
  ghost predicate Keyed(waits: seq<Wait>, path: seq<Slice>) {
    if waits == [Root] then path == []
    else
      && |path| == |waits|
      && (forall i :: 0 <= i < |waits| ==> !waits[i].Root?)
      && (forall i :: 0 <= i < |waits| && waits[i].ItemOrEnd? ==> path[i].NullSlice?)
      && (forall i :: 0 <= i < |waits| && !waits[i].ItemOrEnd? && (i < |waits| - 1 || waits[i].MemberValue?) ==>
            path[i].Slice?)
  }

  lemma KeyedStep(waits: seq<Wait>, path: seq<Slice>, ev: Event)
    requires Keyed(waits, path) && Take(waits, ev).Open?
    ensures Keyed(Take(waits, ev).waits, Step(path, ev))
  {
    assert [Root][0] == Root;
  }

  /** The levels from the first on hold the first `n` keys of the path. */
  ghost predicate Hold(m: Match, path: seq<Slice>, n: int)
    requires n <= |path|
  {
    forall i :: 0 <= i < n && i + 1 < |m.levels| ==> m.levels[i + 1].key == path[i]
  }

  /** All levels below the innermost hold the path, and that one does too when a value is due. */
  ghost predicate OnPath(m: Match, waits: seq<Wait>, path: seq<Slice>) {
    m.nest == |path| && Hold(m, path, |path| - 1) && (TakesValue(waits) ==> Hold(m, path, |path|))
  }

  lemma OnPathStep(w: Watch, m: Match, waits: seq<Wait>, path: seq<Slice>, ev: Event)
    requires Keyed(waits, path) && OnPath(m, waits, path) && Take(waits, ev).Open?
    ensures OnPath(On(w, m, ev), Take(waits, ev).waits, Step(path, ev))
  {
  }

  lemma {:induction false} PathIsHeld(w: Watch, maxNest: nat, trace: seq<Event>)
    requires Nest(trace).Open?
    ensures Keyed(Nest(trace).waits, Path(trace))
    ensures OnPath(OnAll(w, Fresh(maxNest), trace), Nest(trace).waits, Path(trace))
    decreases |trace|
  {
    if trace != [] {
      var front, ev := trace[..|trace| - 1], trace[|trace| - 1];
      assert trace == front + [ev];
      PathIsHeld(w, maxNest, front);
      OnAppend(w, Fresh(maxNest), front, [ev]);
      assert [ev][1..] == [];
      var m := OnAll(w, Fresh(maxNest), front);
      assert OnAll(w, m, [ev]) == OnAll(w, On(w, m, ev), []);
      KeyedStep(Nest(front).waits, Path(front), ev);
      OnPathStep(w, m, Nest(front).waits, Path(front), ev);
    }
  }

  /** A value begins with this event. */
  predicate BeginsValue(ev: Event) {
    !ev.ObjectEnd? && !ev.ArrayEnd? && (ev.Text? ==> !ev.key)
  }

  lemma TakesNext(before: seq<Event>, ev: Event, after: seq<Event>)
    requires after == before + [ev] && Nest(after).Open?
    ensures Nest(before).Open? && (BeginsValue(ev) ==> TakesValue(Nest(before).waits))
  {
    NestNext(before, ev);
  }

  lemma PrefixTakesNext(trace: seq<Event>, k: nat)
    requires Nest(trace).Open? && k <= |trace|
    ensures Nest(trace[..k]).Open?
    ensures k < |trace| && BeginsValue(trace[k]) ==> TakesValue(Nest(trace[..k]).waits)
  {
    NestPrefix(trace, k);
    if k < |trace| {
      NestPrefix(trace, k + 1);
      TakesNext(trace[..k], trace[k], trace[..k + 1]);
    }
  }

  lemma PrefixHoldsPath(w: Watch, maxNest: nat, trace: seq<Event>, k: nat)
    requires Nest(trace).Open? && k <= |trace|
    ensures var m, path := OnAll(w, Fresh(maxNest), trace[..k]), Path(trace[..k]);
            && m.nest == |path| && Hold(m, path, |path| - 1)
            && (k < |trace| && BeginsValue(trace[k]) ==> Hold(m, path, |path|))
  {
    PrefixTakesNext(trace, k);
    PathIsHeld(w, maxNest, trace[..k]);
  }

  /** Main result: after every part of every run, whatever the text and the handler, the levels within the limit
      hold the path to the innermost container, and to the value itself when one comes next. */
  lemma EveryRunHoldsPath(src: Source, h: Handler, at: nat, w: Watch, maxNest: nat, k: nat)
    requires k <= |ParseValue(src, h, State(at, [], Okay, NO_CHAR)).st.trace|
    ensures var trace := ParseValue(src, h, State(at, [], Okay, NO_CHAR)).st.trace;
            var m, path := OnAll(w, Fresh(maxNest), trace[..k]), Path(trace[..k]);
            && m.nest == |path| && Hold(m, path, |path| - 1)
            && (k < |trace| && BeginsValue(trace[k]) ==> Hold(m, path, |path|))
  {
    RunsNest(src, h, at, Okay, NO_CHAR);
    PrefixHoldsPath(w, maxNest, ParseValue(src, h, State(at, [], Okay, NO_CHAR)).st.trace, k);
  }

  // ---------------------------------------------------------------------------------------------------
  // Null keys
  // ---------------------------------------------------------------------------------------------------

  /** The inner loop of `check` compares a name of one character with a null key, which counts as that long. */
  predicate ReadsNull(w: Watch, m: Match, keys: seq<string>, i: nat)
    requires 1 <= i && m.nest < |m.levels|
    decreases m.nest + 1 - i
  {
    && i <= m.nest && i <= |keys|
    && if m.levels[i].key.NullSlice? then |keys[i - 1]| == 1
       else Matches(w.text, m.levels[i].key, keys[i - 1]) && i < |keys| && ReadsNull(w, m, keys, i + 1)
  }

  /** The `i`th name has one character and meets a null key, and the names before it match. */
  ghost predicate MeetsNull(w: Watch, path: seq<Slice>, keys: seq<string>, from: nat, i: nat) {
    && from <= i < |path| && i < |keys| && path[i].NullSlice? && |keys[i]| == 1
    && forall j :: from <= j < i ==> Matches(w.text, path[j], keys[j])
  }

  lemma {:induction false} NullReadIs(w: Watch, m: Match, path: seq<Slice>, keys: seq<string>, from: nat)
    requires from <= |path| == m.nest < |m.levels| && Hold(m, path, |path|)
    ensures ReadsNull(w, m, keys, from + 1) <==> exists k :: MeetsNull(w, path, keys, from, k)
    decreases |path| - from
  {
    if from < |path| && from < |keys| {
      assert m.levels[from + 1].key == path[from];
      if path[from].NullSlice? {
        if |keys[from]| == 1 {
          assert MeetsNull(w, path, keys, from, from);
        }
      } else {
        var next := from + 1;
        NullReadIs(w, m, path, keys, next);
        if k :| MeetsNull(w, path, keys, next, k) && Matches(w.text, path[from], keys[from]) {
          assert MeetsNull(w, path, keys, from, k);
        }
        if k :| MeetsNull(w, path, keys, from, k) {
          assert MeetsNull(w, path, keys, next, k);
        }
      }
    }
  }

  predicate IsLeaf(ev: Event) {
    ev.Number? || ev.Primitive? || (ev.Text? && !ev.key)
  }

  /** The `i`th container that is open is an array, the `i`th name has one character, and the names before it match
      the keys of the objects around. */
  ghost predicate MeetsArray(w: Watch, waits: seq<Wait>, path: seq<Slice>, keys: seq<string>, i: nat) {
    && i < |waits| && i < |path| && i < |keys| && waits[i].ItemOrEnd? && |keys[i]| == 1
    && forall j :: 0 <= j < i ==> Matches(w.text, path[j], keys[j])
  }

  ghost predicate ArrayMet(w: Watch, waits: seq<Wait>, path: seq<Slice>, keys: seq<string>) {
    exists i: nat :: MeetsArray(w, waits, path, keys, i)
  }

  /** Main result: when a leaf within the limit is checked in a run, whatever the text and the handler, a null key
      is read exactly if an open array meets a name of one character behind names that match. */
  lemma NullReadExactly(src: Source, h: Handler, at: nat, w: Watch, maxNest: nat, k: nat, keys: seq<string>)
    requires var trace := ParseValue(src, h, State(at, [], Okay, NO_CHAR)).st.trace;
             k < |trace| && IsLeaf(trace[k]) && 0 <= OnAll(w, Fresh(maxNest), trace[..k]).nest < maxNest
    ensures var before := ParseValue(src, h, State(at, [], Okay, NO_CHAR)).st.trace[..k];
            var m := OnAll(w, Fresh(maxNest), before);
            && Nest(before).Open? && |m.levels| == maxNest
            && (ReadsNull(w, m, keys, 1) <==> ArrayMet(w, Nest(before).waits, Path(before), keys))
  {
    var trace := ParseValue(src, h, State(at, [], Okay, NO_CHAR)).st.trace;
    RunsNest(src, h, at, Okay, NO_CHAR);
    PrefixTakesNext(trace, k);
    LeafReadsNull(w, maxNest, trace[..k], keys);
  }

  lemma LeafReadsNull(w: Watch, maxNest: nat, before: seq<Event>, keys: seq<string>)
    requires Nest(before).Open? && TakesValue(Nest(before).waits)
    requires OnAll(w, Fresh(maxNest), before).nest < maxNest
    ensures var m := OnAll(w, Fresh(maxNest), before);
            && |m.levels| == maxNest
            && (ReadsNull(w, m, keys, 1) <==> ArrayMet(w, Nest(before).waits, Path(before), keys))
  {
    var m := OnAll(w, Fresh(maxNest), before);
    LevelsKeepLength(w, Fresh(maxNest), before);
    PathIsHeld(w, maxNest, before);
    PathReadsNull(w, m, Nest(before).waits, Path(before), keys);
  }

  lemma PathReadsNull(w: Watch, m: Match, waits: seq<Wait>, path: seq<Slice>, keys: seq<string>)
    requires Keyed(waits, path) && TakesValue(waits) && OnPath(m, waits, path) && m.nest < |m.levels|
    ensures ReadsNull(w, m, keys, 1) <==> ArrayMet(w, waits, path, keys)
  {
    NullReadIs(w, m, path, keys, 0);
    if i: nat :| MeetsNull(w, path, keys, 0, i) {
      NullIsArray(waits, path, i);
      assert MeetsArray(w, waits, path, keys, i);
    }
    if i: nat :| MeetsArray(w, waits, path, keys, i) {
      NullIsArray(waits, path, i);
      assert MeetsNull(w, path, keys, 0, i);
    }
  }

  lemma NullIsArray(waits: seq<Wait>, path: seq<Slice>, i: nat)
    requires Keyed(waits, path) && TakesValue(waits)
    ensures i < |path| && path[i].NullSlice? <==> i < |waits| && i < |path| && waits[i].ItemOrEnd?
  {
  }

  lemma {:induction false} LevelsKeepLength(w: Watch, m: Match, trace: seq<Event>)
    ensures |OnAll(w, m, trace).levels| == |m.levels|
    decreases |trace|
  {
    if trace != [] {
      LevelsKeepLength(w, On(w, m, trace[0]), trace[1..]);
    }
  }

  /** No item has a name of one character where the levels within the limit could meet it. */
  predicate LongNames(items: seq<seq<string>>, maxNest: nat) {
    forall j, i :: 0 <= j < |items| && 0 <= i < |items[j]| && i + 1 < maxNest ==> |items[j][i]| != 1
  }

  /** Then no run ever reads a null key. */
  lemma LongNamesAreSafe(src: Source, h: Handler, at: nat, w: Watch, maxNest: nat, k: nat, j: nat)
    requires LongNames(w.items, maxNest) && j < |w.items|
    requires var trace := ParseValue(src, h, State(at, [], Okay, NO_CHAR)).st.trace;
             k < |trace| && IsLeaf(trace[k]) && 0 <= OnAll(w, Fresh(maxNest), trace[..k]).nest < maxNest
    ensures var m := OnAll(w, Fresh(maxNest), ParseValue(src, h, State(at, [], Okay, NO_CHAR)).st.trace[..k]);
            |m.levels| == maxNest && !ReadsNull(w, m, w.items[j], 1)
  {
    var before := ParseValue(src, h, State(at, [], Okay, NO_CHAR)).st.trace[..k];
    NullReadExactly(src, h, at, w, maxNest, k, w.items[j]);
    PathIsHeld(w, maxNest, before);
  }

  /** A run that does read one: the text `[7]`, and any item whose first name has one character. */
  lemma ArrayReadsNull(w: Watch, maxNest: nat, keys: seq<string>)
    requires maxNest >= 2 && keys != [] && |keys[0]| == 1
    ensures var trace := ParseValue(Source("[7]", 2), t => true, State(0, [], Okay, NO_CHAR)).st.trace;
            && trace == [ArrayBegin, Number(1, 1), ArrayEnd]
            && OnAll(w, Fresh(maxNest), trace[..1]).nest == 1
            && |OnAll(w, Fresh(maxNest), trace[..1]).levels| == maxNest
            && ReadsNull(w, OnAll(w, Fresh(maxNest), trace[..1]), keys, 1)
  {
    SevenInArray();
    var trace := [ArrayBegin, Number(1, 1), ArrayEnd];
    assert trace[..1] == [ArrayBegin] && trace[..1][1..] == [];
    var m := On(w, Fresh(maxNest), ArrayBegin);
    assert OnAll(w, Fresh(maxNest), trace[..1]) == OnAll(w, m, []) == m;
  }

  lemma SevenInArray()
    ensures ParseValue(Source("[7]", 2), t => true, State(0, [], Okay, NO_CHAR)).st.trace ==
            [ArrayBegin, Number(1, 1), ArrayEnd]
  {
    var i := Item("", Num("7"), "");
    assert Print(i.value) == "7" && PrintItem(i) == "7";
    assert ItemsEvents(LastItem(i), 1) == [Number(1, 1)];
    var seven := Arr(LastItem(i));
    assert PrintItems(LastItem(i)) == "7";
    assert Print(seven) == "[7]";
    assert Events(seven, 0) == [ArrayBegin, Number(1, 1), ArrayEnd];
    assert "" + Print(seven) == "[7]" && "[7]" + "" == "[7]";
    PrintedDocumentParses(seven, "", "", 2, Okay, NO_CHAR);
  }
}
