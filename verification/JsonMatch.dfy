/**
 The handler that looks for key paths: it keeps the key of every open object in `levels` and tells each item
 about the leaves under its path. An open array has no key; that a null key never matches is exact but for names
 of one character, see JsonKeyPath.
 */
module JsonMatch {
  import opened JsonModel
  import opened JsonPrint
  import opened JsonRoundTrip

  datatype Slice = NullSlice | Slice(s: int, e: int)

  datatype LevelType = ObjectLevel | ArrayLevel | NoLevel

  datatype Level = Level(key: Slice, kind: LevelType)

  datatype What = AString | ANumber | APrimitive

  /** What an item is told: a slice of the text, or one of the literals. */
  datatype Found = FoundSlice(s: int, e: int) | FoundLiteral(literal: Literal)

  datatype Call = Call(item: nat, found: Found, what: What)

  /** The handler: `levels` has `max_nest` entries and never changes its length. */
  datatype Match = Match(nest: int, levels: seq<Level>, calls: seq<Call>)

  /** The items in list order, by their keys, and the text that slices point into. */
  datatype Watch = Watch(items: seq<seq<string>>, text: string)

  predicate Matches(text: string, key: Slice, name: string) {
    key.Slice? && |name| == 1 + key.e - key.s && 0 <= key.s <= key.e + 1 <= |text| && text[key.s..key.e + 1] == name
  }

  /** The inner loop of `check`, from level `i` on. */
  predicate Scan(w: Watch, m: Match, keys: seq<string>, i: nat)
    requires 1 <= i && m.nest < |m.levels|
    decreases m.nest + 1 - i
  {
    && i <= m.nest && i <= |keys| && Matches(w.text, m.levels[i].key, keys[i - 1])
    && (i == |keys| || Scan(w, m, keys, i + 1))
  }

  /** The outer loop of `check`, from item `j` on. */
  function CallsFrom(w: Watch, m: Match, found: Found, what: What, j: nat): seq<Call>
    requires m.nest < |m.levels|
    decreases |w.items| - j
  {
    if j >= |w.items| then []
    else (if Scan(w, m, w.items[j], 1) then [Call(j, found, what)] else []) + CallsFrom(w, m, found, what, j + 1)
  }

  function Leaf(w: Watch, m: Match, found: Found, what: What): Match {
    if m.nest >= |m.levels| || m.nest < 0 then m
    else m.(calls := m.calls + CallsFrom(w, m, found, what, 0),
            levels := m.levels[m.nest := m.levels[m.nest].(key := NullSlice)])
  }

  function Push(m: Match, kind: LevelType): Match {
    var n := m.nest + 1;
    if 0 <= n < |m.levels| then m.(nest := n, levels := m.levels[n := Level(NullSlice, kind)]) else m.(nest := n)
  }

  function On(w: Watch, m: Match, ev: Event): Match {
    match ev
    case ObjectBegin => Push(m, ObjectLevel)
    case ArrayBegin => Push(m, ArrayLevel)
    case ObjectEnd => m.(nest := m.nest - 1)
    case ArrayEnd => m.(nest := m.nest - 1)
    case Number(s, e) => Leaf(w, m, FoundSlice(s, e), ANumber)
    case Text(s, e, true) =>
      if 0 <= m.nest < |m.levels| then m.(levels := m.levels[m.nest := m.levels[m.nest].(key := Slice(s, e))]) else m
    case Text(s, e, false) => Leaf(w, m, FoundSlice(s, e), AString)
    case Primitive(l) => Leaf(w, m, FoundLiteral(l), APrimitive)
  }

  function OnAll(w: Watch, m: Match, trace: seq<Event>): Match
    decreases |trace|
  {
    if trace == [] then m else OnAll(w, On(w, m, trace[0]), trace[1..])
  }

  lemma {:induction false} OnAppend(w: Watch, m: Match, xs: seq<Event>, ys: seq<Event>)
    ensures OnAll(w, m, xs + ys) == OnAll(w, OnAll(w, m, xs), ys)
    decreases |xs|
  {
    if xs == [] {
      assert xs + ys == ys;
    } else {
      assert (xs + ys)[0] == xs[0] && (xs + ys)[1..] == xs[1..] + ys;
      OnAppend(w, On(w, m, xs[0]), xs[1..], ys);
    }
  }

  // ---------------------------------------------------------------------------------------------------
  // Documents
  // ---------------------------------------------------------------------------------------------------

  /** One step of the way from the root: to the value of a key, or into an array. */
  datatype Step = Key(name: string) | InArray

  /** A leaf of a document: the way from the root to it, and what a handler is told of it. */
  datatype LeafAt = LeafAt(path: seq<Step>, found: Found, what: What)

  function Leaves(v: Json, at: nat, path: seq<Step>): seq<LeafAt> {
    match v
    case Obj(ms) => MembersLeaves(ms, at + 1, path)
    case Arr(items) => ItemsLeaves(items, at + 1, path + [InArray])
    case Str(raw) => [LeafAt(path, FoundSlice(at + 1, at + |raw|), AString)]
    case Num(_) => [LeafAt(path, FoundSlice(at, at + |Print(v)| - 1), ANumber)]
    case Lit(l) => [LeafAt(path, FoundLiteral(l), APrimitive)]
  }

  function MembersLeaves(ms: Members, at: nat, path: seq<Step>): seq<LeafAt> {
    match ms
    case NoMember(_) => []
    case LastMember(m) => Leaves(m.value, ValueAt(m, at), path + [Key(m.key)])
    case MoreMembers(m, rest) =>
      Leaves(m.value, ValueAt(m, at), path + [Key(m.key)]) + MembersLeaves(rest, at + |PrintMember(m)| + 1, path)
  }

  function ItemsLeaves(items: Items, at: nat, path: seq<Step>): seq<LeafAt> {
    match items
    case NoItem(_) => []
    case LastItem(i) => Leaves(i.value, at + |i.pre|, path)
    case MoreItems(i, rest) => Leaves(i.value, at + |i.pre|, path) + ItemsLeaves(rest, at + |PrintItem(i)| + 1, path)
  }

  function AsPath(keys: seq<string>): (path: seq<Step>)
    ensures |path| == |keys| && forall i :: 0 <= i < |keys| ==> path[i] == Key(keys[i])
  {
    seq(|keys|, i requires 0 <= i < |keys| => Key(keys[i]))
  }

  /** An item wants the leaves under its key path, the empty path excepted. */
  predicate Wants(keys: seq<string>, path: seq<Step>) {
    keys != [] && AsPath(keys) <= path
  }

  /** What is to be called for one leaf: every item that wants it, in list order, unless it lies too deep. */
  function LeafCalls(items: seq<seq<string>>, maxNest: nat, leaf: LeafAt, j: nat): seq<Call>
    decreases |items| - j
  {
    if j >= |items| || |leaf.path| >= maxNest then []
    else (if Wants(items[j], leaf.path) then [Call(j, leaf.found, leaf.what)] else [])
         + LeafCalls(items, maxNest, leaf, j + 1)
  }

  function Expected(items: seq<seq<string>>, maxNest: nat, leaves: seq<LeafAt>): seq<Call> {
    if leaves == [] then []
    else LeafCalls(items, maxNest, leaves[0], 0) + Expected(items, maxNest, leaves[1..])
  }

  lemma {:induction false} ExpectedAppend(items: seq<seq<string>>, maxNest: nat, xs: seq<LeafAt>, ys: seq<LeafAt>)
    ensures Expected(items, maxNest, xs + ys) == Expected(items, maxNest, xs) + Expected(items, maxNest, ys)
    decreases |xs|
  {
    if xs == [] {
      assert xs + ys == ys;
    } else {
      assert (xs + ys)[0] == xs[0] && (xs + ys)[1..] == xs[1..] + ys;
      ExpectedAppend(items, maxNest, xs[1..], ys);
    }
  }

  /** `levels[1..]` hold the path, as far as there are levels. */
  ghost predicate Holds(w: Watch, m: Match, path: seq<Step>) {
    forall i :: 0 <= i < |path| && i + 1 < |m.levels| ==> KeyIs(w.text, m.levels[i + 1].key, path[i])
  }

  /** The key of that name, or none for an array. */
  ghost predicate KeyIs(text: string, key: Slice, step: Step) {
    match step
    case Key(name) => Matches(text, key, name)
    case InArray => key.NullSlice?
  }

  lemma KeyMatchesOnlyItself(text: string, key: Slice, step: Step, other: string)
    requires KeyIs(text, key, step)
    ensures Matches(text, key, other) <==> step == Key(other)
  {
  }

  lemma {:induction false} ScanIsPrefix(w: Watch, m: Match, path: seq<Step>, keys: seq<string>, i: nat)
    requires 1 <= i && m.nest == |path| < |m.levels| && Holds(w, m, path)
    requires i <= |keys| + 1 && i <= |path| + 1 && AsPath(keys)[..i - 1] == path[..i - 1]
    ensures Scan(w, m, keys, i) <==> i <= |keys| && AsPath(keys) <= path
    decreases m.nest + 1 - i
  {
    if i <= m.nest && i <= |keys| {
      var wanted := AsPath(keys);
      assert KeyIs(w.text, m.levels[i - 1 + 1].key, path[i - 1]);
      KeyMatchesOnlyItself(w.text, m.levels[i].key, path[i - 1], keys[i - 1]);
      if wanted[i - 1] == path[i - 1] {
        assert wanted[..i] == wanted[..i - 1] + [wanted[i - 1]] && path[..i] == path[..i - 1] + [path[i - 1]];
        if i < |keys| {
          ScanIsPrefix(w, m, path, keys, i + 1);
        } else {
          assert wanted == wanted[..i] && path[..i] <= path;
        }
      }
    }
  }

  lemma {:induction false} CallsAreExpected(w: Watch, m: Match, leaf: LeafAt, j: nat)
    requires m.nest == |leaf.path| < |m.levels| && Holds(w, m, leaf.path)
    ensures CallsFrom(w, m, leaf.found, leaf.what, j) == LeafCalls(w.items, |m.levels|, leaf, j)
    decreases |w.items| - j
  {
    if j < |w.items| {
      ScanIsPrefix(w, m, leaf.path, w.items[j], 1);
      CallsAreExpected(w, m, leaf, j + 1);
    }
  }

  /** How a part of a document leaves the handler: at the same depth, with the keys above still in place, and
      having made the calls for its leaves. */
  ghost predicate Served(w: Watch, m: Match, after: Match, outer: seq<Step>, leaves: seq<LeafAt>) {
    && after.nest == m.nest && |after.levels| == |m.levels| && Holds(w, after, outer)
    && after.calls == m.calls + Expected(w.items, |m.levels|, leaves)
  }

  /** What of the path is sure to be in place after the value: a leaf clears its own key. */
  function Outer(path: seq<Step>): seq<Step> {
    if path == [] || path[|path| - 1].InArray? then path else path[..|path| - 1]
  }

  lemma LeafServed(w: Watch, m: Match, path: seq<Step>, found: Found, what: What)
    requires m.nest == |path| && Holds(w, m, path)
    ensures Served(w, m, Leaf(w, m, found, what), Outer(path), [LeafAt(path, found, what)])
  {
    var leaf := LeafAt(path, found, what);
    assert [leaf][1..] == [];
    if |path| < |m.levels| {
      CallsAreExpected(w, m, leaf, 0);
    }
  }

  /** A container: its events come between a beginning and an end that change nothing but the level. */
  lemma ContainerEvents(w: Watch, m: Match, begin: Event, inner: seq<Event>, end: Event)
    ensures OnAll(w, m, [begin] + inner + [end]) == On(w, OnAll(w, On(w, m, begin), inner), end)
  {
    var all := [begin] + inner + [end];
    assert all[0] == begin && all[1..] == inner + [end];
    OnAppend(w, On(w, m, begin), inner, [end]);
    OneEvent(w, OnAll(w, On(w, m, begin), inner), end);
  }

  lemma HoldsLess(w: Watch, m: Match, n: Match, path: seq<Step>, more: seq<Step>)
    requires path <= more && Holds(w, m, more) && n.levels == m.levels
    ensures Holds(w, n, path)
  {
  }

  lemma ContainerServed(w: Watch, m: Match, path: seq<Step>, begin: Event, inner: seq<Event>, end: Event,
                        outer: seq<Step>, leaves: seq<LeafAt>)
    requires m.nest == |path| && Holds(w, m, path)
    requires (begin == ObjectBegin && end == ObjectEnd) || (begin == ArrayBegin && end == ArrayEnd)
    requires path <= outer && Served(w, On(w, m, begin), OnAll(w, On(w, m, begin), inner), outer, leaves)
    ensures Served(w, m, OnAll(w, m, [begin] + inner + [end]), Outer(path), leaves)
  {
    ContainerEvents(w, m, begin, inner, end);
    var last := OnAll(w, On(w, m, begin), inner);
    HoldsLess(w, last, On(w, last, end), Outer(path), outer);
  }

  lemma {:induction false} ValueServed(w: Watch, src: Source, v: Json, at: nat, m: Match, path: seq<Step>)
    requires src.text == w.text && src.e < |src.text| && WellFormed(v) && Here(src, at, Print(v))
    requires m.nest == |path| && Holds(w, m, path)
    ensures Served(w, m, OnAll(w, m, Events(v, at)), Outer(path), Leaves(v, at, path))
    decreases v, 2
  {
    if v.Obj? {
      HereSplitThree(src, at, "{", PrintMembers(v.members), "}");
      var begun := On(w, m, ObjectBegin);
      assert Holds(w, begun, path);
      MembersServed(w, src, v.members, at + 1, begun, path);
      ContainerServed(w, m, path, ObjectBegin, MembersEvents(v.members, at + 1), ObjectEnd, path, Leaves(v, at, path));
    } else if v.Arr? {
      HereSplitThree(src, at, "[", PrintItems(v.items), "]");
      var begun, inside := On(w, m, ArrayBegin), path + [InArray];
      assert Holds(w, begun, inside);
      ItemsServed(w, src, v.items, at + 1, begun, inside);
      ContainerServed(w, m, path, ArrayBegin, ItemsEvents(v.items, at + 1), ArrayEnd, inside, Leaves(v, at, path));
    } else {
      LeafEvent(w, v, at, m, path);
    }
  }

  lemma OneEvent(w: Watch, m: Match, ev: Event)
    ensures OnAll(w, m, [ev]) == On(w, m, ev)
  {
    assert [ev][1..] == [];
  }

  /** What an item is told of a leaf. */
  function Telling(v: Json, at: nat): (Found, What)
    requires !v.Obj? && !v.Arr?
  {
    match v
    case Str(raw) => (FoundSlice(at + 1, at + |raw|), AString)
    case Num(_) => (FoundSlice(at, at + |Print(v)| - 1), ANumber)
    case Lit(l) => (FoundLiteral(l), APrimitive)
  }

  lemma LeafTelling(w: Watch, v: Json, at: nat, m: Match, path: seq<Step>)
    requires !v.Obj? && !v.Arr?
    ensures |Events(v, at)| == 1
    ensures On(w, m, Events(v, at)[0]) == Leaf(w, m, Telling(v, at).0, Telling(v, at).1)
    ensures Leaves(v, at, path) == [LeafAt(path, Telling(v, at).0, Telling(v, at).1)]
  {
  }

  lemma LeafEvent(w: Watch, v: Json, at: nat, m: Match, path: seq<Step>)
    requires !v.Obj? && !v.Arr? && m.nest == |path| && Holds(w, m, path)
    ensures Served(w, m, OnAll(w, m, Events(v, at)), Outer(path), Leaves(v, at, path))
  {
    var ev := Events(v, at)[0];
    LeafTelling(w, v, at, m, path);
    assert Events(v, at) == [ev];
    OneEvent(w, m, ev);
    LeafServed(w, m, path, Telling(v, at).0, Telling(v, at).1);
  }

  lemma {:induction false} MembersServed(w: Watch, src: Source, ms: Members, at: nat, m: Match, path: seq<Step>)
    requires src.text == w.text && src.e < |src.text|
    requires WellFormedMembers(ms) && Here(src, at, PrintMembers(ms))
    requires m.nest == |path| + 1 && Holds(w, m, path)
    ensures Served(w, m, OnAll(w, m, MembersEvents(ms, at)), path, MembersLeaves(ms, at, path))
    decreases ms, 1
  {
    match ms {
      case NoMember(_) =>
      case LastMember(e) => MemberServed(w, src, e, at, m, path);
      case MoreMembers(e, rest) =>
        HereSplitThree(src, at, PrintMember(e), ",", PrintMembers(rest));
        MemberServed(w, src, e, at, m, path);
        var mid := OnAll(w, m, MemberEvents(e, at));
        var next := at + |PrintMember(e)| + 1;
        MembersServed(w, src, rest, next, mid, path);
        ServedTwice(w, m, MemberEvents(e, at), MembersEvents(rest, next), path,
                    Leaves(e.value, ValueAt(e, at), path + [Key(e.key)]), MembersLeaves(rest, next, path));
    }
  }

  lemma ItemPlaced(src: Source, i: Item, at: nat)
    requires Here(src, at, PrintItem(i))
    ensures Here(src, at + |i.pre|, Print(i.value))
  {
    HereSplitThree(src, at, i.pre, Print(i.value), i.post);
  }

  lemma {:induction false} ItemsServed(w: Watch, src: Source, items: Items, at: nat, m: Match, path: seq<Step>)
    requires src.text == w.text && src.e < |src.text|
    requires WellFormedItems(items) && Here(src, at, PrintItems(items))
    requires m.nest == |path| > 0 && path[|path| - 1].InArray? && Holds(w, m, path)
    ensures Served(w, m, OnAll(w, m, ItemsEvents(items, at)), path, ItemsLeaves(items, at, path))
    decreases items, 1
  {
    match items {
      case NoItem(_) =>
      case LastItem(i) =>
        ItemPlaced(src, i, at);
        ValueServed(w, src, i.value, at + |i.pre|, m, path);
      case MoreItems(i, rest) => MoreItemsServed(w, src, i, rest, at, m, path);
    }
  }

  lemma {:induction false} MoreItemsServed(w: Watch, src: Source, i: Item, rest: Items, at: nat, m: Match,
                                           path: seq<Step>)
    requires src.text == w.text && src.e < |src.text| && WellFormedItem(i) && WellFormedItems(rest)
    requires Here(src, at, PrintItem(i) + ("," + PrintItems(rest)))
    requires m.nest == |path| > 0 && path[|path| - 1].InArray? && Holds(w, m, path)
    ensures var items := MoreItems(i, rest);
            Served(w, m, OnAll(w, m, ItemsEvents(items, at)), path, ItemsLeaves(items, at, path))
    decreases MoreItems(i, rest), 0
  {
    var first, next := Events(i.value, at + |i.pre|), at + |PrintItem(i)| + 1;
    HereSplitThree(src, at, PrintItem(i), ",", PrintItems(rest));
    ItemPlaced(src, i, at);
    ValueServed(w, src, i.value, at + |i.pre|, m, path);
    ItemsServed(w, src, rest, next, OnAll(w, m, first), path);
    MoreItemsAre(i, rest, at, path);
    ServedTwice(w, m, first, ItemsEvents(rest, next), path,
                Leaves(i.value, at + |i.pre|, path), ItemsLeaves(rest, next, path));
  }

  lemma MoreItemsAre(i: Item, rest: Items, at: nat, path: seq<Step>)
    ensures var items, a, next := MoreItems(i, rest), at + |i.pre|, at + |PrintItem(i)| + 1;
            && ItemsEvents(items, at) == Events(i.value, a) + ItemsEvents(rest, next)
            && ItemsLeaves(items, at, path) == Leaves(i.value, a, path) + ItemsLeaves(rest, next, path)
  {
  }

  lemma ServedTwice(w: Watch, m: Match, xs: seq<Event>, ys: seq<Event>, outer: seq<Step>,
                    a: seq<LeafAt>, b: seq<LeafAt>)
    requires Served(w, m, OnAll(w, m, xs), outer, a)
    requires Served(w, OnAll(w, m, xs), OnAll(w, OnAll(w, m, xs), ys), outer, b)
    ensures Served(w, m, OnAll(w, m, xs + ys), outer, a + b)
  {
    OnAppend(w, m, xs, ys);
    ExpectedAppend(w.items, |m.levels|, a, b);
  }

  /** The key event puts the key into its level. */
  lemma KeyHeld(w: Watch, src: Source, e: Member, at: nat, m: Match, path: seq<Step>)
    requires src.text == w.text && src.e < |src.text| && Here(src, KeyAt(e, at), e.key + "\"")
    requires m.nest == |path| + 1 && Holds(w, m, path)
    ensures var k := On(w, m, KeyEvent(e, at));
            k.nest == m.nest && |k.levels| == |m.levels| && k.calls == m.calls && Holds(w, k, path + [Key(e.key)])
  {
    var s := KeyAt(e, at);
    assert w.text[s..s + |e.key|] == e.key by {
      forall i | 0 <= i < |e.key| ensures w.text[s + i] == e.key[i] {
        HereAt(src, s, e.key + "\"", i);
      }
    }
    var k := On(w, m, KeyEvent(e, at));
    var longer := path + [Key(e.key)];
    forall i | 0 <= i < |longer| && i + 1 < |k.levels| ensures KeyIs(w.text, k.levels[i + 1].key, longer[i]) {
      if i < |path| {
        assert KeyIs(w.text, m.levels[i + 1].key, path[i]);
      }
    }
  }

  lemma {:induction false} MemberServed(w: Watch, src: Source, e: Member, at: nat, m: Match, path: seq<Step>)
    requires src.text == w.text && src.e < |src.text|
    requires WellFormedMember(e) && Here(src, at, PrintMember(e))
    requires m.nest == |path| + 1 && Holds(w, m, path)
    ensures Served(w, m, OnAll(w, m, MemberEvents(e, at)), path, Leaves(e.value, ValueAt(e, at), path + [Key(e.key)]))
    decreases e, 1
  {
    MemberPieces(src, e, Print(e.value), at);
    KeyHeld(w, src, e, at, m, path);
    var k := On(w, m, KeyEvent(e, at));
    ValueServed(w, src, e.value, ValueAt(e, at), k, path + [Key(e.key)]);
    assert Outer(path + [Key(e.key)]) == path;
    assert MemberEvents(e, at)[0] == KeyEvent(e, at) && MemberEvents(e, at)[1..] == Events(e.value, ValueAt(e, at));
  }

  function Fresh(maxNest: nat): Match {
    Match(0, seq(maxNest, _ => Level(NullSlice, NoLevel)), [])
  }

  /** Main result: over a printed document, the items are called exactly for the leaves they want, once each and
      in document order. A leaf in an array is wanted by the items whose keys lead at most to the array. */
  lemma DocumentServed(v: Json, gap: string, after: string, e: int, items: seq<seq<string>>, maxNest: nat)
    requires WellFormed(v) && (v.Obj? || v.Arr?) && Spaces(gap)
    requires |gap + Print(v)| <= e + 1 <= |gap + Print(v) + after|
    ensures var src := Source(gap + Print(v) + after, e);
            var r := ParseValue(src, ALWAYS, State(0, [], Okay, NO_CHAR));
            && r.ok
            && OnAll(Watch(items, src.text), Fresh(maxNest), r.st.trace).calls ==
               Expected(items, maxNest, Leaves(v, |gap|, []))
  {
    var src := Source(gap + Print(v) + after, e);
    PrintedDocumentParses(v, gap, after, e, Okay, NO_CHAR);
    assert Here(src, 0, gap + Print(v));
    HereSplit(src, 0, gap, Print(v));
    ValueServed(Watch(items, src.text), src, v, |gap|, Fresh(maxNest), []);
  }

  // ---------------------------------------------------------------------------------------------------
  // One item at a time
  // ---------------------------------------------------------------------------------------------------

  /** What one item is told in a list of calls. */
  function ToldTo(calls: seq<Call>, j: nat): seq<(Found, What)> {
    if calls == [] then []
    else (if calls[0].item == j then [(calls[0].found, calls[0].what)] else []) + ToldTo(calls[1..], j)
  }

  /** The leaves under a key path, in document order. */
  function Under(keys: seq<string>, maxNest: nat, leaves: seq<LeafAt>): seq<(Found, What)> {
    if leaves == [] then []
    else (if Wants(keys, leaves[0].path) && |leaves[0].path| < maxNest then [(leaves[0].found, leaves[0].what)] else [])
         + Under(keys, maxNest, leaves[1..])
  }

  lemma ToldFirst(call: Call, calls: seq<Call>, j: nat)
    ensures ToldTo([call] + calls, j) ==
            (if call.item == j then [(call.found, call.what)] else []) + ToldTo(calls, j)
  {
    assert ([call] + calls)[1..] == calls;
  }

  lemma {:induction false} ToldAppend(xs: seq<Call>, ys: seq<Call>, j: nat)
    ensures ToldTo(xs + ys, j) == ToldTo(xs, j) + ToldTo(ys, j)
    decreases |xs|
  {
    if xs == [] {
      assert xs + ys == ys;
    } else {
      var rest := xs[1..];
      ToldAppend(rest, ys, j);
      ToldFirst(xs[0], rest, j);
      ToldFirst(xs[0], rest + ys, j);
      assert xs == [xs[0]] + rest && xs + ys == [xs[0]] + (rest + ys);
    }
  }

  lemma {:induction false} ToldOfLeaf(items: seq<seq<string>>, maxNest: nat, leaf: LeafAt, from: nat, j: nat)
    requires j < |items|
    ensures ToldTo(LeafCalls(items, maxNest, leaf, from), j) ==
            if from <= j && |leaf.path| < maxNest && Wants(items[j], leaf.path) then [(leaf.found, leaf.what)] else []
    decreases |items| - from
  {
    if from < |items| && |leaf.path| < maxNest {
      ToldOfLeaf(items, maxNest, leaf, from + 1, j);
      var here := if Wants(items[from], leaf.path) then [Call(from, leaf.found, leaf.what)] else [];
      ToldAppend(here, LeafCalls(items, maxNest, leaf, from + 1), j);
      if here != [] {
        assert here[1..] == [];
      }
    }
  }

  /** Each item is told of just the leaves under its keys, once each, in document order. */
  lemma {:induction false} EachItemIsTold(items: seq<seq<string>>, maxNest: nat, leaves: seq<LeafAt>, j: nat)
    requires j < |items|
    ensures ToldTo(Expected(items, maxNest, leaves), j) == Under(items[j], maxNest, leaves)
    decreases |leaves|
  {
    if leaves != [] {
      EachItemIsTold(items, maxNest, leaves[1..], j);
      ToldOfLeaf(items, maxNest, leaves[0], 0, j);
      ToldAppend(LeafCalls(items, maxNest, leaves[0], 0), Expected(items, maxNest, leaves[1..]), j);
    }
  }
}
