/**
 Whatever the text and whatever the handler answers, the callbacks of a run are the beginning of a well-nested
 trace: brackets match, members alternate keys and values, and there is one value at the root.
 */
module JsonNesting {
  import opened JsonModel

  /** What an open container, or the root, waits for. */
  datatype Wait = Root | KeyOrEnd | MemberValue | ItemOrEnd

  datatype Nesting = Broken | Open(waits: seq<Wait>)

  function Top(waits: seq<Wait>): Wait
    requires waits != []
  {
    waits[|waits| - 1]
  }

  predicate TakesValue(waits: seq<Wait>) {
    waits != [] && !Top(waits).KeyOrEnd?
  }

  /** What is left to wait for once the innermost wait has had its value. */
  function Served(waits: seq<Wait>): seq<Wait>
    requires TakesValue(waits)
  {
    var rest := waits[..|waits| - 1];
    match Top(waits)
    case Root => rest
    case MemberValue => rest + [KeyOrEnd]
    case ItemOrEnd => waits
    case KeyOrEnd => waits
  }

  function Take(waits: seq<Wait>, ev: Event): Nesting {
    if waits == [] then Broken
    else
      match ev
      case ObjectBegin => if TakesValue(waits) then Open(Served(waits) + [KeyOrEnd]) else Broken
      case ArrayBegin => if TakesValue(waits) then Open(Served(waits) + [ItemOrEnd]) else Broken
      case ObjectEnd => if Top(waits).KeyOrEnd? then Open(waits[..|waits| - 1]) else Broken
      case ArrayEnd => if Top(waits).ItemOrEnd? then Open(waits[..|waits| - 1]) else Broken
      case Text(_, _, true) => if Top(waits).KeyOrEnd? then Open(waits[..|waits| - 1] + [MemberValue]) else Broken
      case Text(_, _, false) => if TakesValue(waits) then Open(Served(waits)) else Broken
      case Number(_, _) => if TakesValue(waits) then Open(Served(waits)) else Broken
      case Primitive(_) => if TakesValue(waits) then Open(Served(waits)) else Broken
  }

  /** Reads a trace from its first event on. */
  function Nest(trace: seq<Event>): Nesting {
    if trace == [] then Open([Root])
    else
      match Nest(trace[..|trace| - 1])
      case Broken => Broken
      case Open(waits) => Take(waits, trace[|trace| - 1])
  }

  predicate WellNested(trace: seq<Event>) {
    Nest(trace) == Open([])
  }

  ghost predicate Begins(trace: seq<Event>) {
    exists rest :: WellNested(trace + rest)
  }

  lemma NestNext(trace: seq<Event>, ev: Event)
    ensures Nest(trace + [ev]) == match Nest(trace) case Broken => Broken case Open(waits) => Take(waits, ev)
  {
  }

  /** Names the trace whose nesting is wanted; until it is named, the fact below is not unfolded. */
  ghost predicate Name(trace: seq<Event>, k: int) {
    true
  }

  /** `trace` waits for just these. */
  ghost predicate Waits(trace: seq<Event>, waits: seq<Wait>) {
    forall k {:trigger Name(trace, k)} :: Name(trace, k) ==> Nest(trace) == Open(waits)
  }

  /** A part of a run never breaks the trace, and leaves `after` to wait for when it succeeds. */
  ghost predicate Leaves(r: Result, after: seq<Wait>) {
    (exists waits :: Waits(r.st.trace, waits)) && (r.ok ==> Waits(r.st.trace, after))
  }

  lemma EmitNests(h: Handler, st: State, ev: Event, waits: seq<Wait>, after: seq<Wait>)
    requires Waits(st.trace, waits) && Take(waits, ev) == Open(after)
    ensures Leaves(Emit(h, st, ev), after) && Waits(st.trace + [ev], after)
  {
    assert Name(st.trace, 0);
    NestNext(st.trace, ev);
    assert Waits(st.trace + [ev], after);
  }

  /** A trace that is not broken can be completed: close what is open, innermost first. */
  lemma {:induction false} WaitsBegins(trace: seq<Event>, waits: seq<Wait>)
    requires Waits(trace, waits)
    ensures Begins(trace)
    decreases |waits|, if waits != [] && Top(waits).MemberValue? then 1 else 0
  {
    if waits == [] {
      assert Name(trace, 0);
      assert trace + [] == trace;
    } else {
      var ev := match Top(waits)
        case Root => Number(0, 0)
        case KeyOrEnd => ObjectEnd
        case MemberValue => Number(0, 0)
        case ItemOrEnd => ArrayEnd;
      var st := State(0, trace, Okay, NO_CHAR);
      EmitNests(t => true, st, ev, waits, Take(waits, ev).waits);
      WaitsBegins(trace + [ev], Take(waits, ev).waits);
      Shift(trace, ev);
    }
  }

  lemma Shift(trace: seq<Event>, ev: Event)
    requires Begins(trace + [ev])
    ensures Begins(trace)
  {
    var rest :| WellNested(trace + [ev] + rest);
    assert trace + ([ev] + rest) == trace + [ev] + rest;
  }

  lemma CloseNests(src: Source, h: Handler, st: State, bracket: char, err: Error, ev: Event,
                   waits: seq<Wait>, after: seq<Wait>)
    requires Waits(st.trace, waits) && Take(waits, ev) == Open(after)
    ensures Leaves(Close(src, h, st, bracket, err, ev), after)
  {
    EmitNests(h, st.(at := Skip(src, st.at, bracket).at), ev, waits, after);
  }

  lemma StartNests(src: Source, h: Handler, st: State, waits: seq<Wait>, keyed: seq<Wait>)
    requires Waits(st.trace, waits)
    requires forall s, e :: Take(waits, Text(s, e, true)) == Open(keyed)
    ensures match StartMember(src, h, st)
            case Stop(r) => Leaves(r, waits)
            case ValueNext(v) => Waits(v.trace, keyed)
  {
    var m := st.(at := Skip(src, st.at, NUL).at);
    StringNests(src, h, m, true, waits, keyed);
  }

  lemma StringNests(src: Source, h: Handler, st: State, key: bool, waits: seq<Wait>, after: seq<Wait>)
    requires Waits(st.trace, waits)
    requires forall s, e :: Take(waits, Text(s, e, key)) == Open(after)
    ensures Leaves(ParseString(src, h, st, key), after)
  {
    var q := ClosingQuote(src, st.at + 1, false);
    if q.QuoteAt? {
      EmitNests(h, st.(at := q.i + 1), Text(st.at + 1, q.i - 1, key), waits, after);
    }
  }

  lemma NumberNests(src: Source, h: Handler, st: State, waits: seq<Wait>)
    requires Waits(st.trace, waits) && TakesValue(waits)
    ensures Leaves(ParseNumber(src, h, st), Served(waits))
  {
    var end := if st.at <= src.e then NumberEnd(src, st.at) else st.at;
    EmitNests(h, st.(at := end), Number(st.at, if end > st.at then end - 1 else NO_CHAR), waits, Served(waits));
  }

  lemma PrimitiveNests(src: Source, h: Handler, st: State, waits: seq<Wait>)
    requires Waits(st.trace, waits) && TakesValue(waits)
    ensures Leaves(ParsePrimitive(src, h, st), Served(waits))
  {
    LiteralNests(src, h, st, False, waits);
    LiteralNests(src, h, st, True, waits);
    LiteralNests(src, h, st, Null, waits);
  }

  lemma LiteralNests(src: Source, h: Handler, st: State, l: Literal, waits: seq<Wait>)
    requires Waits(st.trace, waits) && TakesValue(waits)
    ensures Leaves(ParseLiteral(src, h, st, l), Served(waits))
  {
    EmitNests(h, st, Primitive(l), waits, Served(waits));
  }

  lemma {:induction false} ValueNests(src: Source, h: Handler, st: State, waits: seq<Wait>)
    requires Waits(st.trace, waits) && TakesValue(waits)
    ensures Leaves(ParseValue(src, h, st), Served(waits))
    decreases Left(src, st.at), 3
  {
    var v := st.(at := Skip(src, st.at, NUL).at);
    var c := At(src, v.at);
    if Numeric(c) {
      NumberNests(src, h, v, waits);
    } else if c == '{' {
      ObjectNests(src, h, v, waits);
    } else if c == '[' {
      ArrayNests(src, h, v, waits);
    } else if c == '"' {
      StringNests(src, h, v, false, waits, Served(waits));
    } else {
      PrimitiveNests(src, h, v, waits);
    }
  }

  lemma {:induction false} ObjectNests(src: Source, h: Handler, st: State, waits: seq<Wait>)
    requires Waits(st.trace, waits) && TakesValue(waits)
    ensures Leaves(ParseObject(src, h, st), Served(waits))
    decreases Left(src, st.at), 2
  {
    var inner := Served(waits) + [KeyOrEnd];
    var o := Emit(h, st.(at := st.at + 1), ObjectBegin);
    EmitNests(h, st.(at := st.at + 1), ObjectBegin, waits, inner);
    if o.ok {
      RestObjectNests(src, h, o.st, Served(waits), inner);
    }
  }

  lemma {:induction false} RestObjectNests(src: Source, h: Handler, st: State, outer: seq<Wait>, inner: seq<Wait>)
    requires Waits(st.trace, inner) && inner == outer + [KeyOrEnd]
    ensures Leaves(RestObject(src, h, st), outer)
    decreases Left(src, st.at), if st.at <= src.e then 5 else 1
  {
    assert inner[..|inner| - 1] == outer;
    if st.at <= src.e {
      MembersNest(src, h, st, inner);
    }
    var b := if st.at <= src.e then ParseMembers(src, h, st) else Result(true, st);
    if b.ok {
      CloseNests(src, h, b.st, '}', CloseBraceExpected, ObjectEnd, inner, outer);
    }
  }

  lemma {:induction false} MembersNest(src: Source, h: Handler, st: State, waits: seq<Wait>)
    requires st.at <= src.e && Waits(st.trace, waits) && waits != [] && Top(waits).KeyOrEnd?
    ensures Leaves(ParseMembers(src, h, st), waits)
    decreases Left(src, st.at), 4
  {
    var keyed := waits[..|waits| - 1] + [MemberValue];
    assert Served(keyed) == waits;
    StartNests(src, h, st, waits, keyed);
    var start := StartMember(src, h, st);
    if start.ValueNext? {
      ValueNests(src, h, start.st, keyed);
      var v := ParseValue(src, h, start.st);
      var comma := Skip(src, v.st.at, ',');
      if v.ok && comma.found && comma.at <= src.e {
        MembersNest(src, h, v.st.(at := comma.at), waits);
      }
    }
  }

  lemma {:induction false} ArrayNests(src: Source, h: Handler, st: State, waits: seq<Wait>)
    requires Waits(st.trace, waits) && TakesValue(waits)
    ensures Leaves(ParseArray(src, h, st), Served(waits))
    decreases Left(src, st.at), 2
  {
    var inner := Served(waits) + [ItemOrEnd];
    var o := Emit(h, st.(at := st.at + 1), ArrayBegin);
    EmitNests(h, st.(at := st.at + 1), ArrayBegin, waits, inner);
    if o.ok {
      RestArrayNests(src, h, o.st, Served(waits), inner);
    }
  }

  lemma {:induction false} RestArrayNests(src: Source, h: Handler, st: State, outer: seq<Wait>, inner: seq<Wait>)
    requires Waits(st.trace, inner) && inner == outer + [ItemOrEnd]
    ensures Leaves(RestArray(src, h, st), outer)
    decreases Left(src, st.at), if st.at <= src.e then 5 else 1
  {
    assert inner[..|inner| - 1] == outer;
    if st.at <= src.e {
      ItemsNest(src, h, st, inner);
    }
    var b := if st.at <= src.e then ParseItems(src, h, st) else Result(true, st);
    if b.ok {
      CloseNests(src, h, b.st, ']', CloseBracketExpected, ArrayEnd, inner, outer);
    }
  }

  lemma {:induction false} ItemsNest(src: Source, h: Handler, st: State, waits: seq<Wait>)
    requires st.at <= src.e && Waits(st.trace, waits) && waits != [] && Top(waits).ItemOrEnd?
    ensures Leaves(ParseItems(src, h, st), waits)
    decreases Left(src, st.at), 4
  {
    var start := StartItem(src, st);
    if start.ValueNext? {
      ValueNests(src, h, start.st, waits);
      var v := ParseValue(src, h, start.st);
      var comma := Skip(src, v.st.at, ',');
      if v.ok && comma.found && comma.at <= src.e {
        ItemsNest(src, h, v.st.(at := comma.at), waits);
      }
    }
  }

  /** Main result on traces: every run's callbacks begin a well-nested trace, also when the handler or a syntax
      error cuts the run short, and they are all of one when `parse` returns true. */
  lemma RunsNest(src: Source, h: Handler, at: nat, err: Error, errAt: int)
    ensures var r := ParseValue(src, h, State(at, [], err, errAt));
            Nest(r.st.trace).Open? && Begins(r.st.trace) && (r.ok ==> WellNested(r.st.trace))
  {
    var st := State(at, [], err, errAt);
    ValueNests(src, h, st, [Root]);
    var trace := ParseValue(src, h, st).st.trace;
    assert Name(trace, 0);
    var waits :| Waits(trace, waits);
    WaitsBegins(trace, waits);
  }
}
