/**
 What an error says: whatever the text and the handler, the code and the cursor of a run that fails tell what the
 parser was waiting for there, in the terms of JsonNesting, and what it found instead.
 */
module JsonErrors {
  import opened JsonModel
  import opened JsonNesting
  import JsonPrint

  /** White space, if any, and before it an opening brace or a comma. */
  ghost predicate AtMember(src: Source, at: nat) {
    exists b: nat :: b < at && (At(src, b) == '{' || At(src, b) == ',') && forall i :: b < i < at ==> Skips(At(src, i))
  }

  /** Past the section, or at a character that is neither white space nor `c`. */
  predicate Lacks(src: Source, at: nat, c: char) {
    at > src.e || (!Skips(At(src, at)) && At(src, at) != c)
  }

  /** The error of a state that waits for `waits`. */
  ghost predicate Fault(src: Source, st: State, waits: seq<Wait>) {
    && waits != [] && (st.err != Okay ==> st.errAt == st.at)
    && match st.err
       case KeyExpected => Top(waits) == KeyOrEnd && AtMember(src, st.at) && At(src, st.at) !in ['"', '}']
       case ColonExpected => Top(waits) == MemberValue && Lacks(src, st.at, ':')
       case CloseBraceExpected => Top(waits) == KeyOrEnd && Lacks(src, st.at, '}') && Lacks(src, st.at, ',')
       case CloseBracketExpected => Top(waits) == ItemOrEnd && Lacks(src, st.at, ']') && Lacks(src, st.at, ',')
       case UnterminatedString => At(src, st.at) == '"' && ClosingQuote(src, st.at + 1, false).NoQuote?
       case Okay => TakesValue(waits) && NoValueAt(src, st.at)
       case UserError => false
  }

  predicate NoValueAt(src: Source, at: nat) {
    && !Numeric(At(src, at)) && At(src, at) !in ['{', '[', '"']
    && !LiteralAt(src, at, False) && !LiteralAt(src, at, True) && !LiteralAt(src, at, Null)
  }

  /** A part of a run goes well, or the handler is to blame, or the error is such a fault. */
  ghost predicate Explained(src: Source, r: Result) {
    if r.ok then r.st.err == Okay
    else r.st.err == UserError || exists waits :: Waits(r.st.trace, waits) && Fault(src, r.st, waits)
  }

  lemma {:induction false} SkipsOver(src: Source, at: nat, c: char)
    ensures var r := Skip(src, at, c);
            if r.found then At(src, r.at - 1) == c else Lacks(src, r.at, c)
    ensures c == NUL ==> forall i :: at <= i < Skip(src, at, c).at ==> Skips(At(src, i))
    decreases Left(src, at)
  {
    if at <= src.e && c != At(src, at) && Skips(At(src, at)) {
      SkipsOver(src, at + 1, c);
    }
  }

  lemma StringExplained(src: Source, h: Handler, st: State, key: bool, waits: seq<Wait>)
    requires Waits(st.trace, waits) && waits != [] && st.err == Okay && At(src, st.at) == '"'
    ensures Explained(src, ParseString(src, h, st, key))
  {
  }

  lemma PrimitiveExplained(src: Source, h: Handler, st: State, waits: seq<Wait>)
    requires Waits(st.trace, waits) && TakesValue(waits) && st.err == Okay
    requires !Numeric(At(src, st.at)) && At(src, st.at) !in ['{', '[', '"']
    ensures Explained(src, ParsePrimitive(src, h, st))
  {
  }

  /** Where a closing bracket can be missing. */
  predicate AtClose(src: Source, at: nat) {
    at > src.e || (!Skips(At(src, at)) && At(src, at) != ',')
  }

  lemma BraceExplained(src: Source, h: Handler, st: State, waits: seq<Wait>)
    requires Waits(st.trace, waits) && waits != [] && Top(waits) == KeyOrEnd && st.err == Okay && AtClose(src, st.at)
    ensures Explained(src, Close(src, h, st, '}', CloseBraceExpected, ObjectEnd))
  {
    SkipsOver(src, st.at, '}');
  }

  lemma BracketExplained(src: Source, h: Handler, st: State, waits: seq<Wait>)
    requires Waits(st.trace, waits) && waits != [] && Top(waits) == ItemOrEnd && st.err == Okay && AtClose(src, st.at)
    ensures Explained(src, Close(src, h, st, ']', CloseBracketExpected, ArrayEnd))
  {
    SkipsOver(src, st.at, ']');
  }

  lemma StartExplained(src: Source, h: Handler, st: State, waits: seq<Wait>, keyed: seq<Wait>)
    requires Waits(st.trace, waits) && waits != [] && Top(waits) == KeyOrEnd && st.err == Okay
    requires keyed == waits[..|waits| - 1] + [MemberValue]
    requires st.at > 0 && (At(src, st.at - 1) == '{' || At(src, st.at - 1) == ',')
    ensures match StartMember(src, h, st)
            case Stop(r) => Explained(src, r) && (r.ok ==> At(src, r.st.at) == '}')
            case ValueNext(v) => v.err == Okay && Waits(v.trace, keyed) && TakesValue(keyed)
  {
    var m := st.(at := Skip(src, st.at, NUL).at);
    SkipsOver(src, st.at, NUL);
    if At(src, m.at) == '"' {
      StringExplained(src, h, m, true, waits);
      StringNests(src, h, m, true, waits, keyed);
      var k := ParseString(src, h, m, true);
      SkipsOver(src, k.st.at, ':');
    } else {
      assert AtMember(src, m.at);
    }
  }

  lemma {:induction false} ValueExplained(src: Source, h: Handler, st: State, waits: seq<Wait>)
    requires Waits(st.trace, waits) && TakesValue(waits) && st.err == Okay
    ensures Explained(src, ParseValue(src, h, st))
    decreases Left(src, st.at), 3
  {
    var v := st.(at := Skip(src, st.at, NUL).at);
    var c := At(src, v.at);
    if Numeric(c) {
    } else if c == '{' {
      ObjectExplained(src, h, v, waits);
    } else if c == '[' {
      ArrayExplained(src, h, v, waits);
    } else if c == '"' {
      StringExplained(src, h, v, false, waits);
    } else {
      PrimitiveExplained(src, h, v, waits);
    }
  }

  lemma {:induction false} ObjectExplained(src: Source, h: Handler, st: State, waits: seq<Wait>)
    requires Waits(st.trace, waits) && TakesValue(waits) && st.err == Okay && At(src, st.at) == '{'
    ensures Explained(src, ParseObject(src, h, st))
    decreases Left(src, st.at), 2
  {
    var inner := Served(waits) + [KeyOrEnd];
    var o := Emit(h, st.(at := st.at + 1), ObjectBegin);
    EmitNests(h, st.(at := st.at + 1), ObjectBegin, waits, inner);
    if o.ok {
      RestObjectExplained(src, h, o.st, inner);
    }
  }

  lemma {:induction false} RestObjectExplained(src: Source, h: Handler, st: State, waits: seq<Wait>)
    requires Waits(st.trace, waits) && waits != [] && Top(waits) == KeyOrEnd && st.err == Okay
    requires st.at > 0 && (At(src, st.at - 1) == '{' || At(src, st.at - 1) == ',')
    ensures Explained(src, RestObject(src, h, st))
    decreases Left(src, st.at), if st.at <= src.e then 5 else 1
  {
    if st.at <= src.e {
      MembersExplained(src, h, st, waits);
      MembersNest(src, h, st, waits);
    }
    var b := if st.at <= src.e then ParseMembers(src, h, st) else Result(true, st);
    if b.ok {
      BraceExplained(src, h, b.st, waits);
    }
  }

  lemma {:induction false} MembersExplained(src: Source, h: Handler, st: State, waits: seq<Wait>)
    requires st.at <= src.e && Waits(st.trace, waits) && waits != [] && Top(waits) == KeyOrEnd && st.err == Okay
    requires st.at > 0 && (At(src, st.at - 1) == '{' || At(src, st.at - 1) == ',')
    ensures var r := ParseMembers(src, h, st); Explained(src, r) && (r.ok ==> AtClose(src, r.st.at))
    decreases Left(src, st.at), 4
  {
    var keyed := waits[..|waits| - 1] + [MemberValue];
    StartExplained(src, h, st, waits, keyed);
    var start := StartMember(src, h, st);
    if start.ValueNext? {
      ValueExplained(src, h, start.st, keyed);
      ValueNests(src, h, start.st, keyed);
      assert Served(keyed) == waits;
      var v := ParseValue(src, h, start.st);
      var comma := Skip(src, v.st.at, ',');
      SkipsOver(src, v.st.at, ',');
      if v.ok && comma.found && comma.at <= src.e {
        MembersExplained(src, h, v.st.(at := comma.at), waits);
      }
    }
  }

  lemma {:induction false} ArrayExplained(src: Source, h: Handler, st: State, waits: seq<Wait>)
    requires Waits(st.trace, waits) && TakesValue(waits) && st.err == Okay
    ensures Explained(src, ParseArray(src, h, st))
    decreases Left(src, st.at), 2
  {
    var inner := Served(waits) + [ItemOrEnd];
    var o := Emit(h, st.(at := st.at + 1), ArrayBegin);
    EmitNests(h, st.(at := st.at + 1), ArrayBegin, waits, inner);
    if o.ok {
      RestArrayExplained(src, h, o.st, inner);
    }
  }

  lemma {:induction false} RestArrayExplained(src: Source, h: Handler, st: State, waits: seq<Wait>)
    requires Waits(st.trace, waits) && waits != [] && Top(waits) == ItemOrEnd && st.err == Okay
    ensures Explained(src, RestArray(src, h, st))
    decreases Left(src, st.at), if st.at <= src.e then 5 else 1
  {
    if st.at <= src.e {
      ItemsExplained(src, h, st, waits);
      ItemsNest(src, h, st, waits);
    }
    var b := if st.at <= src.e then ParseItems(src, h, st) else Result(true, st);
    if b.ok {
      BracketExplained(src, h, b.st, waits);
    }
  }

  lemma {:induction false} ItemsExplained(src: Source, h: Handler, st: State, waits: seq<Wait>)
    requires st.at <= src.e && Waits(st.trace, waits) && waits != [] && Top(waits) == ItemOrEnd && st.err == Okay
    ensures var r := ParseItems(src, h, st); Explained(src, r) && (r.ok ==> AtClose(src, r.st.at))
    decreases Left(src, st.at), 4
  {
    var start := StartItem(src, st);
    if start.ValueNext? {
      ValueExplained(src, h, start.st, waits);
      ValueNests(src, h, start.st, waits);
      var v := ParseValue(src, h, start.st);
      var comma := Skip(src, v.st.at, ',');
      SkipsOver(src, v.st.at, ',');
      if v.ok && comma.found && comma.at <= src.e {
        ItemsExplained(src, h, v.st.(at := comma.at), waits);
      }
    }
  }

  /** Main result: when a run of a new parser returns false and the handler is not to blame, the error, and the text
      and the callbacks up to the cursor, say what was missing there. */
  lemma ErrorsAreExact(src: Source, h: Handler, at: nat, errAt: int)
    ensures var r := ParseValue(src, h, State(at, [], Okay, errAt));
            !r.ok && r.st.err != UserError ==>
              Nest(r.st.trace).Open? && Fault(src, r.st, Nest(r.st.trace).waits)
    ensures var r := ParseValue(src, h, State(at, [], Okay, errAt));
            r.st.err == UnterminatedString ==>
              forall raw :: JsonPrint.Quotable(raw) ==> !JsonPrint.Here(src, r.st.at + 1, raw + "\"")
  {
    var st := State(at, [], Okay, errAt);
    ValueExplained(src, h, st, [Root]);
    var r := ParseValue(src, h, st);
    assert Name(r.st.trace, 0);
    if r.st.err == UnterminatedString {
      NothingCloses(src, r.st.at + 1);
    }
  }

  /** Where the search for the closing quote fails, no text between quotes stands. */
  lemma NothingCloses(src: Source, at: nat)
    requires ClosingQuote(src, at, false).NoQuote?
    ensures forall raw :: JsonPrint.Quotable(raw) ==> !JsonPrint.Here(src, at, raw + "\"")
  {
    forall raw | JsonPrint.Quotable(raw) ensures !JsonPrint.Here(src, at, raw + "\"") {
      if JsonPrint.Here(src, at, raw + "\"") {
        JsonPrint.FindsQuote(src, at, raw, 0, false);
      }
    }
  }
}
