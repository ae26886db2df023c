/**
 Which texts the parser takes. When a run on a text returns true, the text it has read is that of a document, and its
 callbacks are that document's: the converse of the round trip, and with it an exact account of what is accepted.
 */
module JsonAccepts {
  import opened JsonModel
  import opened JsonPrint
  import opened JsonRoundTrip
  import JsonAnswers

  /** No NUL in the section. */
  ghost predicate Clean(src: Source) {
    forall i: nat :: i <= src.e ==> At(src, i) != NUL
  }

  /** The text from `a` up to `b`. */
  function Slice(src: Source, a: nat, b: nat): (s: string)
    requires a <= b
    ensures |s| == b - a
  {
    seq(b - a, i requires i >= 0 => At(src, a + i))
  }

  lemma SliceHere(src: Source, a: nat, b: nat)
    requires a <= b <= src.e + 1
    ensures Here(src, a, Slice(src, a, b))
  {
  }

  lemma HereJoin(src: Source, at: nat, a: string, b: string)
    requires Here(src, at, a) && Here(src, at + |a|, b)
    ensures Here(src, at, a + b)
  {
    forall i | Pick(at, a + b, i) && 0 <= i < |a + b| ensures At(src, at + i) == (a + b)[i] {
      if i < |a| {
        HereAt(src, at, a, i);
      } else {
        HereAt(src, at + |a|, b, i - |a|);
      }
    }
  }

  lemma CommaJoins(src: Source, at: nat, a: string, b: string)
    requires Here(src, at, a) && At(src, at + |a|) == ',' && at + |a| <= src.e && Here(src, at + |a| + 1, b)
    ensures Here(src, at, a + ("," + b))
  {
    assert Here(src, at + |a|, ",");
    HereJoin(src, at + |a|, ",", b);
    HereJoin(src, at, a, "," + b);
  }

  // ---------------------------------------------------------------------------------------------------
  // What the single steps have read
  // ---------------------------------------------------------------------------------------------------

  /** What `Skip` steps over is white space, and where it does not find `c` it is held up by something else. */
  lemma {:induction false} SkipRead(src: Source, at: nat, c: char) returns (gap: string)
    requires Clean(src) && at <= src.e + 1 && !Space(c)
    ensures Spaces(gap) && Here(src, at, gap)
    ensures var r := Skip(src, at, c);
            if r.found then at + |gap| <= src.e && At(src, at + |gap|) == c && r.at == at + |gap| + 1
            else r.at == at + |gap| && (r.at <= src.e ==> At(src, r.at) != c && !Skips(At(src, r.at)))
    decreases Left(src, at)
  {
    gap := "";
    if at <= src.e && At(src, at) != c && Skips(At(src, at)) {
      var rest := SkipRead(src, at + 1, c);
      var first := At(src, at);
      assert Here(src, at, [first]);
      HereJoin(src, at, [first], rest);
      gap := [first] + rest;
    }
  }

  lemma {:induction false} QuoteRead(src: Source, at: nat, i: nat, escape: bool)
    requires at <= i && ClosingQuote(src, i, escape).QuoteAt?
    ensures var j := ClosingQuote(src, i, escape).i;
            i <= j <= src.e && At(src, j) == '"' && QuotableFrom(Slice(src, at, j), i - at, escape)
    decreases Left(src, i)
  {
    if At(src, i) == '"' && !escape {
    } else {
      QuoteRead(src, at, i + 1, if escape then false else At(src, i) == '\\');
    }
  }

  lemma StringRead(src: Source, st: State, key: bool) returns (raw: string)
    requires ParseString(src, ALWAYS, st, key).ok
    ensures Quotable(raw) && Here(src, st.at + 1, raw + "\"")
    ensures ParseString(src, ALWAYS, st, key) == Good(st, st.at + |raw| + 2, [Text(st.at + 1, st.at + |raw|, key)])
  {
    var j := ClosingQuote(src, st.at + 1, false).i;
    QuoteRead(src, st.at + 1, st.at + 1, false);
    raw := Slice(src, st.at + 1, j);
    SliceHere(src, st.at + 1, j);
    assert Here(src, j, "\"");
    HereJoin(src, st.at + 1, raw, "\"");
    EmitParsed(st, j + 1, Text(st.at + 1, j - 1, key));
  }

  lemma {:induction false} DigitsRead(src: Source, at: nat, i: nat)
    requires at <= i && NumberEnd(src, i) <= src.e
    ensures forall k :: i - at <= k < NumberEnd(src, i) - at ==> Numeric(Slice(src, at, NumberEnd(src, i))[k])
    decreases Left(src, i)
  {
    if Numeric(At(src, i)) {
      DigitsRead(src, at, i + 1);
    }
  }

  // ---------------------------------------------------------------------------------------------------
  // What whole runs have read
  // ---------------------------------------------------------------------------------------------------

  /** The value `v` stands at the cursor, and `r` is what comes of it. */
  ghost predicate Read(src: Source, st: State, v: Json, r: Result) {
    forall k {:trigger Name(st, k)} :: Name(st, k) ==>
      && WellFormed(v) && Here(src, st.at, Print(v))
      && r == Good(st, st.at + |Print(v)|, Events(v, st.at))
  }

  /** The same of the members of an object, up to what stops the loop. */
  ghost predicate ReadMembers(src: Source, st: State, ms: Members, r: Result) {
    forall k {:trigger Name(st, k)} :: Name(st, k) ==>
      && WellFormedMembers(ms) && Here(src, st.at, PrintMembers(ms))
      && r == Good(st, st.at + |PrintMembers(ms)|, MembersEvents(ms, st.at))
      && !Skips(At(src, r.st.at))
  }

  ghost predicate ReadItems(src: Source, st: State, items: Items, r: Result) {
    forall k {:trigger Name(st, k)} :: Name(st, k) ==>
      && WellFormedItems(items) && Here(src, st.at, PrintItems(items))
      && r == Good(st, st.at + |PrintItems(items)|, ItemsEvents(items, st.at))
      && !Skips(At(src, r.st.at))
  }

  lemma NumberRead(src: Source, st: State) returns (v: Json)
    requires Clean(src) && st.at <= src.e && Numeric(At(src, st.at))
    requires ParseNumber(src, ALWAYS, st).st.at <= src.e
    ensures Read(src, st, v, ParseNumber(src, ALWAYS, st))
  {
    var end := NumberEnd(src, st.at);
    DigitsRead(src, st.at, st.at);
    var digits := Slice(src, st.at, end);
    SliceHere(src, st.at, end);
    assert end > st.at;
    EmitParsed(st, end, Number(st.at, end - 1));
    v := Num(digits);
  }

  lemma LiteralRead(src: Source, st: State) returns (v: Json)
    requires ParsePrimitive(src, ALWAYS, st).ok && ParsePrimitive(src, ALWAYS, st).st.at <= src.e
    ensures Read(src, st, v, ParsePrimitive(src, ALWAYS, st))
  {
    var l := if LiteralAt(src, st.at, False) then False else if LiteralAt(src, st.at, True) then True else Null;
    LiteralReads(src, st, l);
    v := Lit(l);
  }

  lemma LiteralReads(src: Source, st: State, l: Literal)
    requires LiteralAt(src, st.at, l) && ParseLiteral(src, ALWAYS, st, l).st.at <= src.e
    ensures Read(src, st, Lit(l), ParseLiteral(src, ALWAYS, st, l))
  {
    EmitParsed(st, st.at, Primitive(l));
  }

  lemma StringValueRead(src: Source, st: State) returns (v: Json)
    requires At(src, st.at) == '"' && ParseString(src, ALWAYS, st, false).ok
    ensures Read(src, st, v, ParseString(src, ALWAYS, st, false))
  {
    var raw := StringRead(src, st, false);
    assert Here(src, st.at, "\"");
    HereJoin(src, st.at, "\"", raw + "\"");
    v := Str(raw);
  }

  /** The value parser where the white space ends. */
  function Begun(src: Source, h: Handler, v: State): Result {
    var c := At(src, v.at);
    if Numeric(c) then ParseNumber(src, h, v)
    else if c == '{' then ParseObject(src, h, v)
    else if c == '[' then ParseArray(src, h, v)
    else if c == '"' then ParseString(src, h, v, false)
    else ParsePrimitive(src, h, v)
  }

  /** Something that ends in a bracket. */
  predicate Bracketed(c: char) {
    c == '{' || c == '['
  }

  lemma {:induction false} ValueRead(src: Source, st: State) returns (gap: string, v: Json)
    requires Clean(src) && st.at <= src.e + 1
    requires var r := ParseValue(src, ALWAYS, st);
             r.ok && (r.st.at <= src.e || Bracketed(At(src, Skip(src, st.at, NUL).at)))
    ensures Spaces(gap) && Here(src, st.at, gap) && Skip(src, st.at, NUL).at == st.at + |gap|
    ensures Read(src, st.(at := st.at + |gap|), v, ParseValue(src, ALWAYS, st))
    decreases Left(src, st.at), 3
  {
    gap := SkipRead(src, st.at, NUL);
    v := BegunRead(src, st.(at := st.at + |gap|));
  }

  lemma {:induction false} BegunRead(src: Source, st: State) returns (v: Json)
    requires Clean(src) && st.at <= src.e + 1
    requires var r := Begun(src, ALWAYS, st); r.ok && (r.st.at <= src.e || Bracketed(At(src, st.at)))
    ensures Read(src, st, v, Begun(src, ALWAYS, st))
    decreases Left(src, st.at), 2
  {
    var c := At(src, st.at);
    if Numeric(c) {
      v := NumberRead(src, st);
    } else if c == '{' {
      v := ObjectRead(src, st);
    } else if c == '[' {
      v := ArrayRead(src, st);
    } else if c == '"' {
      v := StringValueRead(src, st);
    } else {
      v := LiteralRead(src, st);
    }
  }

  lemma ObjectJoins(src: Source, st: State, ms: Members, b: Result)
    requires st.at <= src.e && At(src, st.at) == '{' && b.st.at <= src.e && At(src, b.st.at) == '}'
    requires ReadMembers(src, st.(at := st.at + 1, trace := st.trace + [ObjectBegin]), ms, b)
    ensures Read(src, st, Obj(ms), Close(src, ALWAYS, b.st, '}', CloseBraceExpected, ObjectEnd))
  {
    var text, events := PrintMembers(ms), MembersEvents(ms, st.at + 1);
    assert Name(st.(at := st.at + 1, trace := st.trace + [ObjectBegin]), 0);
    CloseStep(src, st, ObjectBegin, events, b.st.at, '}', CloseBraceExpected, ObjectEnd);
    BracketsJoin(src, st.at, '{', text, '}');
    ObjectIs(ms, st.at, text, events);
  }

  lemma ObjectIs(ms: Members, at: nat, text: string, events: seq<Event>)
    requires text == PrintMembers(ms) && events == MembersEvents(ms, at + 1)
    ensures Print(Obj(ms)) == ['{'] + (text + ['}']) && Events(Obj(ms), at) == [ObjectBegin] + events + [ObjectEnd]
  {
  }

  lemma BracketsJoin(src: Source, at: nat, open: char, text: string, close: char)
    requires at + |text| + 1 <= src.e && At(src, at) == open && At(src, at + 1 + |text|) == close
    requires Here(src, at + 1, text)
    ensures Here(src, at, [open] + (text + [close]))
  {
    assert Here(src, at, [open]) && Here(src, at + 1 + |text|, [close]);
    HereJoin(src, at + 1, text, [close]);
    HereJoin(src, at, [open], text + [close]);
  }

  lemma ObjectUnfolds(src: Source, st: State) returns (o: State, b: Result)
    requires ParseObject(src, ALWAYS, st).ok
    ensures o == st.(at := st.at + 1, trace := st.trace + [ObjectBegin])
    ensures st.at + 1 == o.at <= src.e && b == ParseMembers(src, ALWAYS, o) && b.ok && b.st.at <= src.e
    ensures ParseObject(src, ALWAYS, st) == Close(src, ALWAYS, b.st, '}', CloseBraceExpected, ObjectEnd)
    ensures Skip(src, b.st.at, '}').found
  {
    EmitParsed(st, st.at + 1, ObjectBegin);
    o := st.(at := st.at + 1, trace := st.trace + [ObjectBegin]);
    b := ParseMembers(src, ALWAYS, o);
  }

  lemma {:induction false} ObjectRead(src: Source, st: State) returns (v: Json)
    requires Clean(src) && At(src, st.at) == '{' && ParseObject(src, ALWAYS, st).ok
    ensures Read(src, st, v, ParseObject(src, ALWAYS, st))
    decreases Left(src, st.at), 1
  {
    var o, b := ObjectUnfolds(src, st);
    var ms := MembersRead(src, o);
    assert Name(o, 0);
    ObjectJoins(src, st, ms, b);
    v := Obj(ms);
  }

  lemma ArrayJoins(src: Source, st: State, items: Items, b: Result)
    requires st.at <= src.e && At(src, st.at) == '[' && b.st.at <= src.e && At(src, b.st.at) == ']'
    requires ReadItems(src, st.(at := st.at + 1, trace := st.trace + [ArrayBegin]), items, b)
    ensures Read(src, st, Arr(items), Close(src, ALWAYS, b.st, ']', CloseBracketExpected, ArrayEnd))
  {
    var text, events := PrintItems(items), ItemsEvents(items, st.at + 1);
    assert Name(st.(at := st.at + 1, trace := st.trace + [ArrayBegin]), 0);
    CloseStep(src, st, ArrayBegin, events, b.st.at, ']', CloseBracketExpected, ArrayEnd);
    BracketsJoin(src, st.at, '[', text, ']');
    ArrayIs(items, st.at, text, events);
  }

  lemma ArrayIs(items: Items, at: nat, text: string, events: seq<Event>)
    requires text == PrintItems(items) && events == ItemsEvents(items, at + 1)
    ensures Print(Arr(items)) == ['['] + (text + [']']) && Events(Arr(items), at) == [ArrayBegin] + events + [ArrayEnd]
  {
  }

  lemma ArrayUnfolds(src: Source, st: State) returns (o: State, b: Result)
    requires ParseArray(src, ALWAYS, st).ok
    ensures o == st.(at := st.at + 1, trace := st.trace + [ArrayBegin])
    ensures st.at + 1 == o.at <= src.e && b == ParseItems(src, ALWAYS, o) && b.ok && b.st.at <= src.e
    ensures ParseArray(src, ALWAYS, st) == Close(src, ALWAYS, b.st, ']', CloseBracketExpected, ArrayEnd)
    ensures Skip(src, b.st.at, ']').found
  {
    EmitParsed(st, st.at + 1, ArrayBegin);
    o := st.(at := st.at + 1, trace := st.trace + [ArrayBegin]);
    b := ParseItems(src, ALWAYS, o);
  }

  lemma {:induction false} ArrayRead(src: Source, st: State) returns (v: Json)
    requires Clean(src) && At(src, st.at) == '[' && ParseArray(src, ALWAYS, st).ok
    ensures Read(src, st, v, ParseArray(src, ALWAYS, st))
    decreases Left(src, st.at), 1
  {
    var o, b := ArrayUnfolds(src, st);
    var items := ItemsRead(src, o);
    assert Name(o, 0);
    ArrayJoins(src, st, items, b);
    v := Arr(items);
  }

  // ---------------------------------------------------------------------------------------------------
  // Members
  // ---------------------------------------------------------------------------------------------------

  /** A turn of the loop that finds the closing brace at once. */
  lemma NoMemberRead(src: Source, st: State) returns (ms: Members)
    requires Clean(src) && st.at <= src.e && StartMember(src, ALWAYS, st).Stop?
    requires ParseMembers(src, ALWAYS, st).ok && ParseMembers(src, ALWAYS, st).st.at <= src.e
    ensures ReadMembers(src, st, ms, ParseMembers(src, ALWAYS, st))
  {
    var gap := SkipRead(src, st.at, NUL);
    ms := NoMember(gap);
    assert st.trace + [] == st.trace;
  }

  /** The text before the value of a member, and the state after the colon. */
  ghost predicate Keyed(src: Source, st: State, lead: string, key: string, mid: string, c: State) {
    forall k {:trigger Name(st, k)} :: Name(st, k) ==>
      var q := st.at + |lead|; var d := q + |key| + 2;
      && Spaces(lead) && Quotable(key) && Spaces(mid)
      && Here(src, st.at, lead) && Here(src, q, "\"") && Here(src, q + 1, key + "\"") && Here(src, d, mid)
      && Here(src, d + |mid|, ":")
      && c == st.(at := d + |mid| + 1, trace := st.trace + [Text(q + 1, q + |key|, true)])
  }

  lemma KeyUnfolds(src: Source, st: State, c: State) returns (q: State, k: State)
    requires st.at <= src.e && StartMember(src, ALWAYS, st) == ValueNext(c)
    ensures q == st.(at := Skip(src, st.at, NUL).at) && At(src, q.at) == '"'
    ensures ParseString(src, ALWAYS, q, true) == Result(true, k)
    ensures Skip(src, k.at, ':') == Skipped(true, c.at) && c == k.(at := c.at)
  {
    q := st.(at := Skip(src, st.at, NUL).at);
    k := ParseString(src, ALWAYS, q, true).st;
  }

  lemma KeyRead(src: Source, st: State, c: State) returns (lead: string, key: string, mid: string)
    requires Clean(src) && st.at <= src.e && StartMember(src, ALWAYS, st) == ValueNext(c)
    ensures Keyed(src, st, lead, key, mid, c)
  {
    var q, k := KeyUnfolds(src, st, c);
    lead := SkipRead(src, st.at, NUL);
    key := StringRead(src, q, true);
    mid := SkipRead(src, k.at, ':');
  }

  /** A whole turn of the loop: the states before and after the value, and where the comma is or is not. */
  lemma MemberUnfolds(src: Source, st: State) returns (c: State, z: State, comma: Skipped)
    requires st.at <= src.e && StartMember(src, ALWAYS, st).ValueNext?
    requires ParseMembers(src, ALWAYS, st).ok && ParseMembers(src, ALWAYS, st).st.at <= src.e
    ensures StartMember(src, ALWAYS, st) == ValueNext(c) && ParseValue(src, ALWAYS, c) == Result(true, z)
    ensures st.at < c.at <= z.at <= comma.at <= src.e && comma == Skip(src, z.at, ',')
    ensures var n := z.(at := comma.at);
            ParseMembers(src, ALWAYS, st) == if comma.found then ParseMembers(src, ALWAYS, n) else Result(true, n)
  {
    c := StartMember(src, ALWAYS, st).st;
    z := ParseValue(src, ALWAYS, c).st;
    comma := Skip(src, z.at, ',');
  }

  lemma {:induction false} MemberValueRead(src: Source, c: State, z: State) returns (pre: string, v: Json)
    requires Clean(src) && ParseValue(src, ALWAYS, c) == Result(true, z) && c.at <= z.at <= src.e
    ensures Spaces(pre) && Here(src, c.at, pre) && Read(src, c.(at := c.at + |pre|), v, Result(true, z))
    decreases Left(src, c.at), 4
  {
    pre, v := ValueRead(src, c);
  }

  /** A turn has read `m`, and the comma if there is one, and `n` is what comes of it. */
  ghost predicate AfterMember(src: Source, st: State, m: Member, n: State, comma: bool) {
    forall k {:trigger Name(st, k)} :: Name(st, k) ==>
      && WellFormedMember(m) && Here(src, st.at, PrintMember(m))
      && n == PastMember(m, st).(at := st.at + |PrintMember(m)| + if comma then 1 else 0)
      && if comma then n.at > 0 && At(src, n.at - 1) == ',' else !Skips(At(src, n.at))
  }

  lemma {:induction false} MemberRead(src: Source, st: State, c: State, z: State, comma: Skipped) returns (m: Member)
    requires Clean(src) && st.at <= src.e && StartMember(src, ALWAYS, st) == ValueNext(c)
    requires ParseValue(src, ALWAYS, c) == Result(true, z)
    requires st.at < c.at <= z.at <= comma.at <= src.e && comma == Skip(src, z.at, ',')
    ensures AfterMember(src, st, m, z.(at := comma.at), comma.found)
    decreases Left(src, st.at), 3
  {
    var lead, key, mid := KeyRead(src, st, c);
    var pre, v := MemberValueRead(src, c, z);
    var post := SkipRead(src, z.at, ',');
    m := Member(lead, key, mid, pre, v, post);
    PiecesFit(src, m, st, c, z, comma);
  }

  lemma PiecesFit(src: Source, m: Member, st: State, c: State, z: State, comma: Skipped)
    requires Keyed(src, st, m.lead, m.key, m.mid, c) && Spaces(m.pre) && Spaces(m.post)
    requires Here(src, c.at, m.pre) && Read(src, c.(at := c.at + |m.pre|), m.value, Result(true, z))
    requires Here(src, z.at, m.post) && comma.at == z.at + |m.post| + if comma.found then 1 else 0
    requires if comma.found then At(src, comma.at - 1) == ',' else !Skips(At(src, comma.at))
    ensures AfterMember(src, st, m, z.(at := comma.at), comma.found)
  {
    assert Name(st, 0) && Name(c.(at := c.at + |m.pre|), 0);
    assert Pieces(src, m, Print(m.value), st.at);
    MemberJoins(src, m, st.at);
    PastTheValue(m, st);
  }

  lemma MemberJoins(src: Source, m: Member, at: nat)
    requires Pieces(src, m, Print(m.value), at)
    ensures Here(src, at, PrintMember(m))
    ensures ValueAt(m, at) + |Print(m.value)| + |m.post| == at + |PrintMember(m)|
  {
    var v, key := Print(m.value), m.key + "\"";
    var a := ValueAt(m, at);
    var c := a - |m.pre|;
    HereJoin(src, a, v, m.post);
    HereJoin(src, c, m.pre, v + m.post);
    HereJoin(src, c - 1, ":", m.pre + (v + m.post));
    HereJoin(src, c - 1 - |m.mid|, m.mid, ":" + (m.pre + (v + m.post)));
    HereJoin(src, at + |m.lead| + 1, key, m.mid + (":" + (m.pre + (v + m.post))));
    HereJoin(src, at + |m.lead|, "\"", key + (m.mid + (":" + (m.pre + (v + m.post)))));
    HereJoin(src, at, m.lead, "\"" + (key + (m.mid + (":" + (m.pre + (v + m.post))))));
  }

  lemma {:induction false} MembersRead(src: Source, st: State) returns (ms: Members)
    requires Clean(src) && st.at <= src.e
    requires ParseMembers(src, ALWAYS, st).ok && ParseMembers(src, ALWAYS, st).st.at <= src.e
    ensures ReadMembers(src, st, ms, ParseMembers(src, ALWAYS, st))
    decreases Left(src, st.at), 4
  {
    if StartMember(src, ALWAYS, st).Stop? {
      ms := NoMemberRead(src, st);
    } else {
      var c, z, comma := MemberUnfolds(src, st);
      var m := MemberRead(src, st, c, z, comma);
      if comma.found {
        var n := z.(at := comma.at);
        var rest := MembersRead(src, n);
        ms := MoreMembers(m, rest);
        MoreMembersRead(src, st, m, n, rest, ParseMembers(src, ALWAYS, n));
      } else {
        LastMemberRead(src, st, m, z.(at := comma.at));
        ms := LastMember(m);
      }
    }
  }

  lemma LastMemberRead(src: Source, st: State, m: Member, n: State)
    requires AfterMember(src, st, m, n, false)
    ensures ReadMembers(src, st, LastMember(m), Result(true, n))
  {
  }

  lemma MoreMembersRead(src: Source, st: State, m: Member, n: State, rest: Members, r: Result)
    requires AfterMember(src, st, m, n, true) && n.at <= src.e && ReadMembers(src, n, rest, r)
    ensures ReadMembers(src, st, MoreMembers(m, rest), r)
  {
    assert Name(st, 0) && Name(n, 0);
    CommaJoins(src, st.at, PrintMember(m), PrintMembers(rest));
    JoinMembers(m, rest, st, r);
  }

  // ---------------------------------------------------------------------------------------------------
  // Items
  // ---------------------------------------------------------------------------------------------------

  lemma NoItemRead(src: Source, st: State) returns (items: Items)
    requires Clean(src) && st.at <= src.e && StartItem(src, st).Stop?
    requires ParseItems(src, ALWAYS, st).st.at <= src.e
    ensures ReadItems(src, st, items, ParseItems(src, ALWAYS, st))
  {
    var gap := SkipRead(src, st.at, NUL);
    items := NoItem(gap);
    assert st.trace + [] == st.trace;
  }

  /** A whole turn of the loop: the states before and after the value, and where the comma is or is not. */
  lemma ItemUnfolds(src: Source, st: State) returns (c: State, z: State, comma: Skipped)
    requires st.at <= src.e && StartItem(src, st).ValueNext?
    requires ParseItems(src, ALWAYS, st).ok && ParseItems(src, ALWAYS, st).st.at <= src.e
    ensures c == st.(at := Skip(src, st.at, NUL).at) && ParseValue(src, ALWAYS, c) == Result(true, z)
    ensures st.at <= c.at <= z.at <= comma.at <= src.e && comma == Skip(src, z.at, ',')
    ensures var n := z.(at := comma.at);
            ParseItems(src, ALWAYS, st) == if comma.found then ParseItems(src, ALWAYS, n) else Result(true, n)
  {
    c := StartItem(src, st).st;
    z := ParseValue(src, ALWAYS, c).st;
    comma := Skip(src, z.at, ',');
  }

  lemma {:induction false} ItemValueRead(src: Source, st: State, c: State, z: State) returns (pre: string, v: Json)
    requires Clean(src) && c == st.(at := Skip(src, st.at, NUL).at) && ParseValue(src, ALWAYS, c) == Result(true, z)
    requires st.at <= c.at <= z.at <= src.e
    ensures Spaces(pre) && Here(src, st.at, pre) && Read(src, st.(at := st.at + |pre|), v, Result(true, z))
    decreases Left(src, st.at), 3
  {
    pre := SkipRead(src, st.at, NUL);
    v := BegunRead(src, c);
  }

  /** A turn has read `i`, and the comma if there is one, and `n` is what comes of it. */
  ghost predicate AfterItem(src: Source, st: State, i: Item, n: State, comma: bool) {
    forall k {:trigger Name(st, k)} :: Name(st, k) ==>
      && WellFormedItem(i) && Here(src, st.at, PrintItem(i))
      && n == PastItem(i, st).(at := st.at + |PrintItem(i)| + if comma then 1 else 0)
      && if comma then n.at > 0 && At(src, n.at - 1) == ',' else !Skips(At(src, n.at))
  }

  lemma {:induction false} ItemRead(src: Source, st: State, c: State, z: State, comma: Skipped) returns (i: Item)
    requires Clean(src) && c == st.(at := Skip(src, st.at, NUL).at) && ParseValue(src, ALWAYS, c) == Result(true, z)
    requires st.at <= c.at <= z.at <= comma.at <= src.e && comma == Skip(src, z.at, ',')
    ensures AfterItem(src, st, i, z.(at := comma.at), comma.found)
    decreases Left(src, st.at), 4
  {
    var pre, v := ItemValueRead(src, st, c, z);
    var post := SkipRead(src, z.at, ',');
    i := Item(pre, v, post);
    ItemFits(src, i, st, z, comma);
  }

  lemma ItemFits(src: Source, i: Item, st: State, z: State, comma: Skipped)
    requires Spaces(i.pre) && Spaces(i.post) && Here(src, st.at, i.pre)
    requires Read(src, st.(at := st.at + |i.pre|), i.value, Result(true, z))
    requires Here(src, z.at, i.post) && comma.at == z.at + |i.post| + if comma.found then 1 else 0
    requires if comma.found then At(src, comma.at - 1) == ',' else !Skips(At(src, comma.at))
    ensures AfterItem(src, st, i, z.(at := comma.at), comma.found)
  {
    assert Name(st.(at := st.at + |i.pre|), 0);
    HereJoin(src, st.at + |i.pre|, Print(i.value), i.post);
    HereJoin(src, st.at, i.pre, Print(i.value) + i.post);
  }

  lemma {:induction false} ItemsRead(src: Source, st: State) returns (items: Items)
    requires Clean(src) && st.at <= src.e
    requires ParseItems(src, ALWAYS, st).ok && ParseItems(src, ALWAYS, st).st.at <= src.e
    ensures ReadItems(src, st, items, ParseItems(src, ALWAYS, st))
    decreases Left(src, st.at), 5
  {
    if StartItem(src, st).Stop? {
      items := NoItemRead(src, st);
    } else {
      var c, z, comma := ItemUnfolds(src, st);
      var i := ItemRead(src, st, c, z, comma);
      if comma.found {
        var n := z.(at := comma.at);
        var rest := ItemsRead(src, n);
        items := MoreItems(i, rest);
        MoreItemsRead(src, st, i, n, rest, ParseItems(src, ALWAYS, n));
      } else {
        LastItemRead(src, st, i, z.(at := comma.at));
        items := LastItem(i);
      }
    }
  }

  lemma LastItemRead(src: Source, st: State, i: Item, n: State)
    requires AfterItem(src, st, i, n, false)
    ensures ReadItems(src, st, LastItem(i), Result(true, n))
  {
  }

  lemma MoreItemsRead(src: Source, st: State, i: Item, n: State, rest: Items, r: Result)
    requires AfterItem(src, st, i, n, true) && n.at <= src.e && ReadItems(src, n, rest, r)
    ensures ReadItems(src, st, MoreItems(i, rest), r)
  {
    assert Name(st, 0) && Name(n, 0);
    CommaJoins(src, st.at, PrintItem(i), PrintItems(rest));
    JoinItems(i, rest, st, r);
  }

  // ---------------------------------------------------------------------------------------------------
  // Exactly which texts are taken
  // ---------------------------------------------------------------------------------------------------

  /** `s` stands at `at` in the section `text[..e + 1]`. */
  ghost predicate Stands(text: string, e: nat, at: nat, s: string) {
    at + |s| <= e + 1 <= |text| && text[at..at + |s|] == s
  }

  /** After white space, an object or an array begins. */
  ghost predicate ContainerAt(text: string, e: nat, at: nat) {
    exists gap :: Spaces(gap) && (Stands(text, e, at, gap + "{") || Stands(text, e, at, gap + "["))
  }

  /** A document with an object or an array at its root. */
  ghost predicate DocumentAt(text: string, e: nat, at: nat, gap: string, v: Json) {
    Spaces(gap) && WellFormed(v) && (v.Obj? || v.Arr?) && Stands(text, e, at, gap + Print(v))
  }

  lemma StandsHere(text: string, e: nat, at: nat, s: string)
    requires e < |text| && at <= e + 1
    ensures Stands(text, e, at, s) <==> Here(Source(text, e), at, s)
  {
    var src := Source(text, e);
    if Here(src, at, s) {
      forall i | 0 <= i < |s| ensures text[at..at + |s|][i] == s[i] {
        HereAt(src, at, s, i);
      }
    }
  }

  /** A document that stands there is parsed to its end, and gives its events. */
  lemma DocumentParses(text: string, e: nat, at: nat, gap: string, v: Json, err: Error, errAt: int)
    requires DocumentAt(text, e, at, gap, v)
    ensures ParseValue(Source(text, e), ALWAYS, State(at, [], err, errAt)) ==
            Result(true, State(at + |gap + Print(v)|, Events(v, at + |gap|), err, errAt))
  {
    var src, st := Source(text, e), State(at, [], err, errAt);
    StandsHere(text, e, at, gap + Print(v));
    DocumentHere(src, st, gap, v);
    var events := Events(v, at + |gap|);
    assert [] + events == events;
    assert Name(st, 0);
  }

  lemma DocumentHere(src: Source, st: State, gap: string, v: Json)
    requires Spaces(gap) && WellFormed(v) && (v.Obj? || v.Arr?) && Here(src, st.at, gap + Print(v))
    ensures ValueGives(src, st, Good(st, st.at + |gap + Print(v)|, Events(v, st.at + |gap|)))
  {
    HereSplit(src, st.at, gap, Print(v));
    ValueParsed(src, v, st.(at := st.at + |gap|));
    ValueAfterSpaces(src, gap, st, Good(st, st.at + |gap + Print(v)|, Events(v, st.at + |gap|)));
  }

  /** Main result: over a section without NUL that begins an object or an array, `parse` returns true if and only if a
      document stands there, and then it has read just that document and made just its callbacks. */
  lemma AcceptedExactly(text: string, e: nat, at: nat, err: Error, errAt: int)
    requires e < |text| && (forall i :: 0 <= i <= e ==> text[i] != NUL) && ContainerAt(text, e, at)
    ensures var r := ParseValue(Source(text, e), ALWAYS, State(at, [], err, errAt));
            && (r.ok <==> exists gap, v :: DocumentAt(text, e, at, gap, v))
            && (forall gap, v :: DocumentAt(text, e, at, gap, v) ==>
                 r == Result(true, State(at + |gap + Print(v)|, Events(v, at + |gap|), err, errAt)))
  {
    forall gap, v | DocumentAt(text, e, at, gap, v)
      ensures ParseValue(Source(text, e), ALWAYS, State(at, [], err, errAt)) ==
              Result(true, State(at + |gap + Print(v)|, Events(v, at + |gap|), err, errAt))
    {
      DocumentParses(text, e, at, gap, v, err, errAt);
    }
    if ParseValue(Source(text, e), ALWAYS, State(at, [], err, errAt)).ok {
      var gap, v := AcceptedIsDocument(text, e, at, err, errAt);
    }
  }

  lemma ContainerBegins(text: string, e: nat, at: nat)
    requires e < |text| && ContainerAt(text, e, at)
    ensures var src := Source(text, e); at <= e && Bracketed(At(src, Skip(src, at, NUL).at))
  {
    var gap :| Spaces(gap) && (Stands(text, e, at, gap + "{") || Stands(text, e, at, gap + "["));
    var open := if Stands(text, e, at, gap + "{") then "{" else "[";
    var src := Source(text, e);
    StandsHere(text, e, at, gap + open);
    HereSplit(src, at, gap, open);
    HereFirst(src, at + |gap|, open);
    SkipTo(src, at, gap, open[0], NUL);
  }

  lemma AcceptedIsDocument(text: string, e: nat, at: nat, err: Error, errAt: int) returns (gap: string, v: Json)
    requires e < |text| && (forall i :: 0 <= i <= e ==> text[i] != NUL) && ContainerAt(text, e, at)
    requires ParseValue(Source(text, e), ALWAYS, State(at, [], err, errAt)).ok
    ensures DocumentAt(text, e, at, gap, v)
  {
    var src, st := Source(text, e), State(at, [], err, errAt);
    ContainerBegins(text, e, at);
    gap, v := ContainerRead(src, st);
    StandsHere(text, e, at, gap + Print(v));
  }

  lemma ContainerRead(src: Source, st: State) returns (gap: string, v: Json)
    requires Clean(src) && st.at <= src.e && Bracketed(At(src, Skip(src, st.at, NUL).at))
    requires ParseValue(src, ALWAYS, st).ok
    ensures Spaces(gap) && WellFormed(v) && (v.Obj? || v.Arr?) && Here(src, st.at, gap + Print(v))
  {
    gap, v := ValueRead(src, st);
    assert Name(st.(at := st.at + |gap|), 0);
    HereFirst(src, st.at + |gap|, Print(v));
    BracketIsContainer(v);
    HereJoin(src, st.at, gap, Print(v));
  }

  lemma BracketIsContainer(v: Json)
    requires WellFormed(v) && Bracketed(Print(v)[0])
    ensures v.Obj? || v.Arr?
  {
  }

  /** The same for every handler: if it refuses no callback, a new parser returns true if and only if a document stands
      there; and whenever it returns true, it has read one and told the handler just its events. */
  lemma AcceptedWithHandler(text: string, e: nat, at: nat, h: Handler, errAt: int)
    requires e < |text| && (forall i :: 0 <= i <= e ==> text[i] != NUL) && ContainerAt(text, e, at)
    ensures var r := ParseValue(Source(text, e), h, State(at, [], Okay, errAt));
            && (r.st.err != UserError ==> (r.ok <==> exists gap, v :: DocumentAt(text, e, at, gap, v)))
            && (r.ok ==> exists gap, v :: DocumentAt(text, e, at, gap, v) && r.st.trace == Events(v, at + |gap|)
                                          && r.st.at == at + |gap + Print(v)|)
  {
    var src, st := Source(text, e), State(at, [], Okay, errAt);
    JsonAnswers.EveryAnswerIsHeard(src, h, at, errAt);
    AcceptedExactly(text, e, at, Okay, errAt);
    var r := ParseValue(src, h, st);
    if r.ok {
      assert r == ParseValue(src, ALWAYS, st);
      var gap, v := AcceptedIsDocument(text, e, at, Okay, errAt);
      assert DocumentAt(text, e, at, gap, v);
    }
  }
}
