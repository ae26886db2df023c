/**
 Where a run ends: which characters at the end of a section and after it keep every run from going on past the
 section, exactly. A C string that ends at its NUL is one such case.
 */
module JsonBounds {
  import opened JsonModel

  ghost predicate Followed(src: Source) {
    src.e >= -1 && src.e + 1 < |src.text|
  }

  /** No token goes on past the section. */
  ghost predicate Walled(src: Source) {
    Followed(src) && Wall(src.text, src.e + 1)
  }

  /** The section is followed by a character at which every run stops. */
  ghost predicate Guarded(src: Source) {
    Followed(src) && Stops(src.text[src.e + 1])
  }

  /** Every slice handed to the handler lies in the section, and none is the null slice. */
  ghost predicate SlicesInside(trace: seq<Event>, e: int) {
    forall i :: 0 <= i < |trace| ==> SliceInside(trace[i], e)
  }

  ghost predicate SliceInside(ev: Event, e: int) {
    match ev
    case Number(s, l) => 0 <= s <= l <= e
    case Text(s, l, _) => 0 < s <= l + 1 <= e
    case _ => true
  }

  ghost predicate Inside(src: Source, st: State) {
    st.at <= src.e + 1 && SlicesInside(st.trace, src.e)
  }

  // ---------------------------------------------------------------------------------------------------
  // What every part of a run keeps
  // ---------------------------------------------------------------------------------------------------

  /** The cursor is inside, and so are the slices when the next character stops every run. */
  ghost predicate Kept(src: Source, st: State) {
    st.at <= src.e + 1 && (Guarded(src) ==> SlicesInside(st.trace, src.e))
  }

  lemma NumberStays(src: Source, i: nat)
    requires Walled(src) && i <= src.e && Numeric(At(src, i))
    ensures i < NumberEnd(src, i) <= src.e + 1
    decreases src.e + 1 - i
  {
    if i < src.e {
      if Numeric(At(src, i + 1)) {
        NumberStays(src, i + 1);
      }
    } else {
      assert !Numeric(At(src, i + 1));
    }
  }

  lemma LiteralStays(src: Source, at: nat, l: Literal)
    requires Walled(src) && at <= src.e + 1 && LiteralAt(src, at, l)
    ensures at + |Spelling(l)| <= src.e + 1
  {
    var s := Spelling(l);
    if at + |s| > src.e + 1 {
      var k := src.e + 1 - at;
      assert At(src, at + k) == s[k];
      if k > 0 {
        assert At(src, at + (k - 1)) == s[k - 1];
      }
      SpellingJoins(l, k);
    }
  }

  lemma SpellingJoins(l: Literal, k: nat)
    requires k < |Spelling(l)|
    ensures k == 0 ==> Opens(Spelling(l)[0])
    ensures k > 0 ==> Neighbours(Spelling(l)[k - 1], Spelling(l)[k])
  {
    if k == 0 {} else if k == 1 {} else if k == 2 {} else if k == 3 {} else if k == 4 {}
  }

  lemma PrimitiveStays(src: Source, h: Handler, st: State)
    requires Walled(src) && Kept(src, st)
    ensures Kept(src, ParsePrimitive(src, h, st).st)
  {
    forall l: Literal | LiteralAt(src, st.at, l) ensures st.at + |Spelling(l)| <= src.e + 1 {
      LiteralStays(src, st.at, l);
    }
  }

  lemma NumberInside(src: Source, h: Handler, st: State)
    requires Walled(src) && Kept(src, st) && Numeric(At(src, st.at))
    ensures Kept(src, ParseNumber(src, h, st).st)
  {
    if st.at <= src.e {
      NumberStays(src, st.at);
    }
  }

  lemma {:induction false} ValueStays(src: Source, h: Handler, st: State)
    requires Walled(src) && Kept(src, st)
    ensures Kept(src, ParseValue(src, h, st).st)
    decreases Left(src, st.at), 3
  {
    var v := st.(at := Skip(src, st.at, NUL).at);
    var c := At(src, v.at);
    if Numeric(c) {
      NumberInside(src, h, v);
    } else if c == '{' {
      ObjectStays(src, h, v);
    } else if c == '[' {
      ArrayStays(src, h, v);
    } else if c != '"' {
      PrimitiveStays(src, h, v);
    }
  }

  lemma EmitStays(src: Source, h: Handler, st: State, ev: Event)
    requires Kept(src, st) && SliceInside(ev, src.e)
    ensures Kept(src, Emit(h, st, ev).st)
  {
  }

  lemma CloseStays(src: Source, h: Handler, st: State, bracket: char, err: Error, ev: Event)
    requires Kept(src, st) && SliceInside(ev, src.e)
    ensures Kept(src, Close(src, h, st, bracket, err, ev).st)
  {
  }

  lemma {:induction false} ObjectStays(src: Source, h: Handler, st: State)
    requires Walled(src) && Kept(src, st) && At(src, st.at) == '{'
    ensures Kept(src, ParseObject(src, h, st).st)
    decreases Left(src, st.at), 2
  {
    var o := Emit(h, st.(at := st.at + 1), ObjectBegin);
    EmitStays(src, h, st.(at := st.at + 1), ObjectBegin);
    if o.ok {
      RestObjectStays(src, h, o.st);
    }
  }

  lemma {:induction false} RestObjectStays(src: Source, h: Handler, st: State)
    requires Walled(src) && Kept(src, st)
    ensures Kept(src, RestObject(src, h, st).st)
    decreases Left(src, st.at), if st.at <= src.e then 5 else 1
  {
    if st.at <= src.e {
      MembersStay(src, h, st);
    }
    var b := if st.at <= src.e then ParseMembers(src, h, st) else Result(true, st);
    CloseStays(src, h, b.st, '}', CloseBraceExpected, ObjectEnd);
  }

  lemma {:induction false} MembersStay(src: Source, h: Handler, st: State)
    requires Walled(src) && Kept(src, st) && st.at <= src.e
    ensures Kept(src, ParseMembers(src, h, st).st)
    decreases Left(src, st.at), 4
  {
    var start := StartMember(src, h, st);
    if start.ValueNext? {
      ValueStays(src, h, start.st);
      var v := ParseValue(src, h, start.st);
      var comma := Skip(src, v.st.at, ',');
      if v.ok && comma.found && comma.at <= src.e {
        MembersStay(src, h, v.st.(at := comma.at));
      }
    }
  }

  lemma {:induction false} ArrayStays(src: Source, h: Handler, st: State)
    requires Walled(src) && Kept(src, st) && At(src, st.at) == '['
    ensures Kept(src, ParseArray(src, h, st).st)
    decreases Left(src, st.at), 2
  {
    var o := Emit(h, st.(at := st.at + 1), ArrayBegin);
    EmitStays(src, h, st.(at := st.at + 1), ArrayBegin);
    if o.ok {
      RestArrayStays(src, h, o.st);
    }
  }

  lemma {:induction false} RestArrayStays(src: Source, h: Handler, st: State)
    requires Walled(src) && Kept(src, st)
    ensures Kept(src, RestArray(src, h, st).st)
    decreases Left(src, st.at), if st.at <= src.e then 5 else 1
  {
    if st.at <= src.e {
      ItemsStay(src, h, st);
    }
    var b := if st.at <= src.e then ParseItems(src, h, st) else Result(true, st);
    CloseStays(src, h, b.st, ']', CloseBracketExpected, ArrayEnd);
  }

  lemma {:induction false} ItemsStay(src: Source, h: Handler, st: State)
    requires Walled(src) && Kept(src, st) && st.at <= src.e
    ensures Kept(src, ParseItems(src, h, st).st)
    decreases Left(src, st.at), 4
  {
    var start := StartItem(src, st);
    if start.ValueNext? {
      ValueStays(src, h, start.st);
      var v := ParseValue(src, h, start.st);
      var comma := Skip(src, v.st.at, ',');
      if v.ok && comma.found && comma.at <= src.e {
        ItemsStay(src, h, v.st.(at := comma.at));
      }
    }
  }

  // ---------------------------------------------------------------------------------------------------
  // The next character
  // ---------------------------------------------------------------------------------------------------

  /** With a character after the section at which every run stops, a run ends at most one past the section
      and hands out slices of the section only. */
  lemma RunsStayInside(src: Source, h: Handler, at: nat, err: Error, errAt: int)
    requires Guarded(src) && at <= src.e + 1
    ensures Inside(src, ParseValue(src, h, State(at, [], err, errAt)).st)
  {
    ValueStays(src, h, State(at, [], err, errAt));
  }

  /** No run leaves a section that is followed by `c`. */
  ghost predicate KeepsInside(c: char) {
    forall src: Source, h: Handler, at: nat, err: Error, errAt: int ::
      Followed(src) && src.text[src.e + 1] == c && at <= src.e + 1 ==>
        Inside(src, ParseValue(src, h, State(at, [], err, errAt)).st)
  }

  /** A bracket is read wherever it stands. */
  lemma BracketRead(src: Source, h: Handler, st: State)
    requires (At(src, st.at) == '{' || At(src, st.at) == '[') && st.at > src.e && h == (t => true)
    ensures ParseValue(src, h, st).st.at == st.at + 1
  {
    assert Skip(src, st.at, NUL).at == st.at;
    var begin := if At(src, st.at) == '{' then ObjectBegin else ArrayBegin;
    var o := Emit(h, st.(at := st.at + 1), begin).st;
    assert RestObject(src, h, o).st.at == o.at && RestArray(src, h, o).st.at == o.at;
  }

  /** A section and what follows it, of which a run reads on past the section. */
  lemma LeavesSection(c: char) returns (src: Source)
    requires !Stops(c)
    ensures Followed(src) && src.text[src.e + 1] == c
    ensures !Inside(src, ParseValue(src, t => true, State(0, [], Okay, NO_CHAR)).st)
  {
    var h: Handler := t => true;
    var st := State(0, [], Okay, NO_CHAR);
    if Numeric(c) {
      src := Source(['7', c, ' '], 0);
      assert NumberEnd(src, 2) == 2 && NumberEnd(src, 1) == 2 && NumberEnd(src, 0) == 2;
    } else if c == '{' || c == '[' {
      src := Source([c, ' '], -1);
      BracketRead(src, h, st);
    } else {
      var l, k := CutLiteral(c);
      src := Source(Spelling(l) + " ", k as int - 1);
      LiteralHere(src, 0, l);
      LiteralRead(src, h, st, l);
    }
  }

  /** A literal, and a place in it where `c` stands. */
  lemma CutLiteral(c: char) returns (l: Literal, k: nat)
    requires InLiteral(c) && c != 'e'
    ensures k < |Spelling(l)| && Spelling(l)[k] == c
  {
    if c == 'f' { l, k := False, 0; }
    else if c == 'a' { l, k := False, 1; }
    else if c == 'l' { l, k := False, 2; }
    else if c == 's' { l, k := False, 3; }
    else if c == 't' { l, k := True, 0; }
    else if c == 'r' { l, k := True, 1; }
    else if c == 'u' { l, k := True, 2; }
    else { l, k := Null, 0; }
  }

  lemma LiteralHere(src: Source, at: nat, l: Literal)
    requires at <= |src.text| && src.text[at..] == Spelling(l) + " "
    ensures LiteralAt(src, at, l)
  {
    var s := Spelling(l);
    forall i | 0 <= i <= |s| ensures At(src, at + i) == (s + " ")[i] {
      assert src.text[at..][i] == src.text[at + i];
    }
  }

  lemma LiteralRead(src: Source, h: Handler, st: State, l: Literal)
    requires LiteralAt(src, st.at, l) && h == (t => true)
    ensures ParseValue(src, h, st).st.at == st.at + |Spelling(l)|
  {
    FirstLetter(src, st.at, l);
    assert Skip(src, st.at, NUL).at == st.at;
    LiteralTaken(src, h, st, l);
  }

  lemma LiteralTaken(src: Source, h: Handler, st: State, l: Literal)
    requires LiteralAt(src, st.at, l) && h == (t => true)
    ensures ParsePrimitive(src, h, st).st.at == st.at + |Spelling(l)|
  {
    forall other: Literal | LiteralAt(src, st.at, other) ensures other == l {
      FirstLetter(src, st.at, other);
      FirstLetter(src, st.at, l);
    }
  }

  lemma FirstLetter(src: Source, at: nat, l: Literal)
    requires LiteralAt(src, at, l)
    ensures At(src, at) == Spelling(l)[0]
  {
    assert At(src, at + 0) == Spelling(l)[0];
  }

  /** Main result: which characters after a section keep every run inside it, exactly. */
  lemma StaysInsideExactly(c: char)
    ensures KeepsInside(c) <==> Stops(c)
  {
    if Stops(c) {
      forall src: Source, h: Handler, at: nat, err: Error, errAt: int |
        Followed(src) && src.text[src.e + 1] == c && at <= src.e + 1
        ensures Inside(src, ParseValue(src, h, State(at, [], err, errAt)).st)
      {
        RunsStayInside(src, h, at, err, errAt);
      }
    } else {
      var src := LeavesSection(c);
      assert !KeepsInside(c);
    }
  }

  // ---------------------------------------------------------------------------------------------------
  // The last character and the next
  // ---------------------------------------------------------------------------------------------------

  /** No run ends further than one past a section that ends in `b` and is followed by `c`. */
  ghost predicate Confines(b: char, c: char) {
    forall src: Source, h: Handler, at: nat, err: Error, errAt: int ::
      Followed(src) && src.e >= 0 && src.text[src.e] == b && src.text[src.e + 1] == c && at <= src.e + 1 ==>
        ParseValue(src, h, State(at, [], err, errAt)).st.at <= src.e + 1
  }

  lemma NumberRead(b: char, c: char, h: Handler)
    requires Numeric(b) && Numeric(c) && h == (t => true)
    ensures ParseValue(Source(['7', b, c, ' '], 1), h, State(0, [], Okay, NO_CHAR)).st.at == 3
  {
    var src := Source(['7', b, c, ' '], 1);
    assert NumberEnd(src, 3) == 3 && NumberEnd(src, 2) == 3 && NumberEnd(src, 1) == 3 && NumberEnd(src, 0) == 3;
    assert Skip(src, 0, NUL).at == 0;
  }

  /** A section that ends in `b` and is followed by `c`, and a run that goes on past it. */
  lemma GoesOn(b: char, c: char) returns (src: Source, at: nat)
    requires Opens(c) || Joins(b, c)
    ensures Followed(src) && src.e >= 0 && src.text[src.e] == b && src.text[src.e + 1] == c && at <= src.e + 1
    ensures ParseValue(src, t => true, State(at, [], Okay, NO_CHAR)).st.at > src.e + 1
  {
    var h: Handler := t => true;
    if c == '{' || c == '[' {
      src, at := Source([b, c, ' '], 0), 1;
      BracketRead(src, h, State(1, [], Okay, NO_CHAR));
    } else if Numeric(b) && Numeric(c) {
      src, at := Source(['7', b, c, ' '], 1), 0;
      NumberRead(b, c, h);
    } else if Opens(c) {
      var l := if c == 'f' then False else if c == 't' then True else Null;
      src, at := Source([b] + Spelling(l) + " ", 0), 1;
      LiteralHere(src, 1, l);
      LiteralRead(src, h, State(1, [], Okay, NO_CHAR), l);
    } else {
      var l, k := CutBetween(b, c);
      src, at := Source(Spelling(l) + " ", k), 0;
      LiteralHere(src, 0, l);
      LiteralRead(src, h, State(0, [], Okay, NO_CHAR), l);
    }
  }

  /** A literal in which `c` stands behind the `b` at `k`. */
  lemma CutBetween(b: char, c: char) returns (l: Literal, k: nat)
    requires Neighbours(b, c)
    ensures k + 1 < |Spelling(l)| && Spelling(l)[k] == b && Spelling(l)[k + 1] == c
  {
    if b == 'f' { l, k := False, 0; }
    else if b == 'a' { l, k := False, 1; }
    else if b == 'l' && c == 's' { l, k := False, 2; }
    else if b == 's' { l, k := False, 3; }
    else if b == 't' { l, k := True, 0; }
    else if b == 'r' { l, k := True, 1; }
    else if b == 'u' && c == 'e' { l, k := True, 2; }
    else if b == 'n' { l, k := Null, 0; }
    else if b == 'u' { l, k := Null, 1; }
    else { l, k := Null, 2; }
  }

  /** Main result: exactly when the last character of a section and the next keep the cursor of every run inside. */
  lemma ConfinesExactly(b: char, c: char)
    ensures Confines(b, c) <==> !Opens(c) && !Joins(b, c)
  {
    if Opens(c) || Joins(b, c) {
      var src, at := GoesOn(b, c);
      assert !Confines(b, c);
    } else {
      forall src: Source, h: Handler, at: nat, err: Error, errAt: int |
        Followed(src) && src.e >= 0 && src.text[src.e] == b && src.text[src.e + 1] == c && at <= src.e + 1
        ensures ParseValue(src, h, State(at, [], err, errAt)).st.at <= src.e + 1
      {
        ValueStays(src, h, State(at, [], err, errAt));
      }
    }
  }

  /** The text of a C string up to its NUL: runs stay inside exactly if it does not end in a numeric character. */
  lemma CStringsConfine(b: char)
    ensures Confines(b, NUL) <==> !Numeric(b)
  {
    ConfinesExactly(b, NUL);
  }

  /** Two such runs on the NUL that ends a C string: on an empty section the handler is given a number with a
      null end, and a number at the end of the section is read past its end. */
  lemma NulIsNumeric(h: Handler)
    requires forall trace :: h(trace)
    ensures var start := State(0, [], Okay, NO_CHAR);
            && ParseValue(Source([NUL, ' '], -1), h, start).st.trace == [Number(0, NO_CHAR)]
            && ParseValue(Source(['7', NUL, ' '], 0), h, start).st.at == 2
  {
    var src := Source(['7', NUL, ' '], 0);
    assert NumberEnd(src, 2) == 2;
    assert NumberEnd(src, 1) == 2;
    assert NumberEnd(src, 0) == 2;
  }
}
