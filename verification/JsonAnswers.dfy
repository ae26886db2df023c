/**
 What the answers of the handler do to a run, on any text: a callback that is not answered with OKAY is the last one,
 and the run fails there with `UserError`; it never fails with that error otherwise.
 */
module JsonAnswers {
  import opened JsonModel
  import opened JsonPrint

  /** Every callback of the trace was answered with OKAY. */
  ghost predicate Approved(h: Handler, trace: seq<Event>) {
    forall n :: 1 <= n <= |trace| ==> h(trace[..n])
  }

  /** Names the trace whose answers are wanted; until it is named, the fact below is not unfolded. */
  ghost predicate Name(trace: seq<Event>, k: int) {
    true
  }

  ghost predicate AllOkay(h: Handler, trace: seq<Event>) {
    forall k {:trigger Name(trace, k)} :: Name(trace, k) ==> Approved(h, trace)
  }

  /** The last callback, and no other, was not answered with OKAY, and the run stopped at the cursor for it. */
  ghost predicate Refused(h: Handler, st: State) {
    && st.trace != [] && AllOkay(h, st.trace[..|st.trace| - 1]) && !h(st.trace)
    && st.err == UserError && st.errAt == st.at
  }

  /** What comes of a part of a run: `r` with the handler `h`, and `all` with one that always answers OKAY. */
  ghost predicate Heard(h: Handler, r: Result, all: Result) {
    && (if r.ok then Fine(h, r.st) else Refused(h, r.st) || (AllOkay(h, r.st.trace) && r.st.err != UserError))
    && (r.st.err == UserError || r == all)
  }

  ghost predicate Fine(h: Handler, st: State) {
    AllOkay(h, st.trace) && st.err == Okay
  }

  lemma EmitHeard(h: Handler, st: State, ev: Event)
    requires Fine(h, st)
    ensures Heard(h, Emit(h, st, ev), Emit(ALWAYS, st, ev))
  {
    var trace := st.trace + [ev];
    assert Name(st.trace, 0);
    forall n | 1 <= n <= |st.trace| ensures trace[..n] == st.trace[..n] {
    }
    assert trace[..|trace| - 1] == st.trace && trace[..|trace|] == trace;
    if h(trace) {
      forall n | 1 <= n <= |trace| ensures h(trace[..n]) {
        assert n <= |st.trace| ==> h(st.trace[..n]);
      }
    }
  }

  lemma CloseHeard(src: Source, h: Handler, st: State, bracket: char, err: Error, ev: Event)
    requires Fine(h, st) && err != UserError
    ensures Heard(h, Close(src, h, st, bracket, err, ev), Close(src, ALWAYS, st, bracket, err, ev))
  {
    EmitHeard(h, st.(at := Skip(src, st.at, bracket).at), ev);
  }

  lemma StringHeard(src: Source, h: Handler, st: State, key: bool)
    requires Fine(h, st)
    ensures Heard(h, ParseString(src, h, st, key), ParseString(src, ALWAYS, st, key))
  {
    var q := ClosingQuote(src, st.at + 1, false);
    if q.QuoteAt? {
      EmitHeard(h, st.(at := q.i + 1), Text(st.at + 1, q.i - 1, key));
    }
  }

  lemma NumberHeard(src: Source, h: Handler, st: State)
    requires Fine(h, st)
    ensures Heard(h, ParseNumber(src, h, st), ParseNumber(src, ALWAYS, st))
  {
    var end := if st.at <= src.e then NumberEnd(src, st.at) else st.at;
    EmitHeard(h, st.(at := end), Number(st.at, if end > st.at then end - 1 else NO_CHAR));
  }

  lemma PrimitiveHeard(src: Source, h: Handler, st: State)
    requires Fine(h, st)
    ensures Heard(h, ParsePrimitive(src, h, st), ParsePrimitive(src, ALWAYS, st))
  {
    EmitHeard(h, st, Primitive(False));
    EmitHeard(h, st, Primitive(True));
    EmitHeard(h, st, Primitive(Null));
  }

  lemma StartHeard(src: Source, h: Handler, st: State)
    requires Fine(h, st)
    ensures match StartMember(src, h, st)
            case Stop(r) => Heard(h, r, r) && (r.st.err == UserError || StartMember(src, ALWAYS, st) == Stop(r))
            case ValueNext(v) => Fine(h, v) && StartMember(src, ALWAYS, st) == ValueNext(v)
  {
    StringHeard(src, h, st.(at := Skip(src, st.at, NUL).at), true);
  }

  lemma {:induction false} ValueHeard(src: Source, h: Handler, st: State)
    requires Fine(h, st)
    ensures Heard(h, ParseValue(src, h, st), ParseValue(src, ALWAYS, st))
    decreases Left(src, st.at), 3
  {
    var v := st.(at := Skip(src, st.at, NUL).at);
    var c := At(src, v.at);
    if Numeric(c) {
      NumberHeard(src, h, v);
    } else if c == '{' {
      ObjectHeard(src, h, v);
    } else if c == '[' {
      ArrayHeard(src, h, v);
    } else if c == '"' {
      StringHeard(src, h, v, false);
    } else {
      PrimitiveHeard(src, h, v);
    }
  }

  lemma {:induction false} ObjectHeard(src: Source, h: Handler, st: State)
    requires Fine(h, st)
    ensures Heard(h, ParseObject(src, h, st), ParseObject(src, ALWAYS, st))
    decreases Left(src, st.at), 2
  {
    var o := Emit(h, st.(at := st.at + 1), ObjectBegin);
    EmitHeard(h, st.(at := st.at + 1), ObjectBegin);
    if o.ok {
      RestObjectHeard(src, h, o.st);
    }
  }

  lemma {:induction false} RestObjectHeard(src: Source, h: Handler, st: State)
    requires Fine(h, st)
    ensures Heard(h, RestObject(src, h, st), RestObject(src, ALWAYS, st))
    decreases Left(src, st.at), if st.at <= src.e then 5 else 1
  {
    if st.at <= src.e {
      MembersHeard(src, h, st);
    }
    var b := if st.at <= src.e then ParseMembers(src, h, st) else Result(true, st);
    if b.ok {
      CloseHeard(src, h, b.st, '}', CloseBraceExpected, ObjectEnd);
    }
  }

  lemma {:induction false} MembersHeard(src: Source, h: Handler, st: State)
    requires st.at <= src.e && Fine(h, st)
    ensures Heard(h, ParseMembers(src, h, st), ParseMembers(src, ALWAYS, st))
    decreases Left(src, st.at), 4
  {
    StartHeard(src, h, st);
    var start := StartMember(src, h, st);
    if start.ValueNext? {
      ValueHeard(src, h, start.st);
      var v := ParseValue(src, h, start.st);
      var comma := Skip(src, v.st.at, ',');
      if v.ok && comma.found && comma.at <= src.e {
        MembersHeard(src, h, v.st.(at := comma.at));
      }
    }
  }

  lemma {:induction false} ArrayHeard(src: Source, h: Handler, st: State)
    requires Fine(h, st)
    ensures Heard(h, ParseArray(src, h, st), ParseArray(src, ALWAYS, st))
    decreases Left(src, st.at), 2
  {
    var o := Emit(h, st.(at := st.at + 1), ArrayBegin);
    EmitHeard(h, st.(at := st.at + 1), ArrayBegin);
    if o.ok {
      RestArrayHeard(src, h, o.st);
    }
  }

  lemma {:induction false} RestArrayHeard(src: Source, h: Handler, st: State)
    requires Fine(h, st)
    ensures Heard(h, RestArray(src, h, st), RestArray(src, ALWAYS, st))
    decreases Left(src, st.at), if st.at <= src.e then 5 else 1
  {
    if st.at <= src.e {
      ItemsHeard(src, h, st);
    }
    var b := if st.at <= src.e then ParseItems(src, h, st) else Result(true, st);
    if b.ok {
      CloseHeard(src, h, b.st, ']', CloseBracketExpected, ArrayEnd);
    }
  }

  lemma {:induction false} ItemsHeard(src: Source, h: Handler, st: State)
    requires st.at <= src.e && Fine(h, st)
    ensures Heard(h, ParseItems(src, h, st), ParseItems(src, ALWAYS, st))
    decreases Left(src, st.at), 4
  {
    var start := StartItem(src, st);
    if start.ValueNext? {
      ValueHeard(src, h, start.st);
      var v := ParseValue(src, h, start.st);
      var comma := Skip(src, v.st.at, ',');
      if v.ok && comma.found && comma.at <= src.e {
        ItemsHeard(src, h, v.st.(at := comma.at));
      }
    }
  }

  /** Main result: in every run of a new parser, all callbacks but the last were answered with OKAY. The run ends in
      `UserError`, at the cursor, if and only if the last one was not; else it is the run of the handler that always
      answers OKAY. It is true only if all were answered so. */
  lemma EveryAnswerIsHeard(src: Source, h: Handler, at: nat, errAt: int)
    ensures var r := ParseValue(src, h, State(at, [], Okay, errAt)); var trace := r.st.trace;
            && (trace != [] ==> Approved(h, trace[..|trace| - 1]))
            && (r.ok ==> Approved(h, trace))
            && (r.st.err == UserError <==> !Approved(h, trace))
            && (r.st.err == UserError ==> !r.ok && r.st.errAt == r.st.at)
            && (r.st.err != UserError ==> r == ParseValue(src, ALWAYS, State(at, [], Okay, errAt)))
  {
    var st := State(at, [], Okay, errAt);
    ValueHeard(src, h, st);
    var r := ParseValue(src, h, st);
    var trace := r.st.trace;
    assert Name(trace, 0);
    if trace != [] {
      var front := trace[..|trace| - 1];
      assert Name(front, 0);
      forall n | 1 <= n <= |front| ensures front[..n] == trace[..n] {
      }
      assert trace[..|trace|] == trace;
      if Approved(h, trace) {
        assert h(trace[..|trace|]);
      }
    }
  }
}
