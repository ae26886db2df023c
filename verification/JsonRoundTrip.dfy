/**
 Parsing the printed text of a document gives back exactly its events: what single steps of the parser do with
 the pieces of a text, and their composition along the tree.
 */
module JsonRoundTrip {
  import opened JsonModel
  import opened JsonPrint

  // ---------------------------------------------------------------------------------------------------
  // Single steps of the parser
  // ---------------------------------------------------------------------------------------------------

  /** Names the state whose parse is wanted; until it is named, the facts below are not unfolded. */
  ghost predicate Name(st: State, k: int) {
    true
  }

  ghost predicate ValueGives(src: Source, st: State, r: Result) {
    forall k {:trigger Name(st, k)} :: Name(st, k) ==> ParseValue(src, ALWAYS, st) == r
  }

  ghost predicate MembersGive(src: Source, st: State, r: Result) {
    st.at <= src.e && forall k {:trigger Name(st, k)} :: Name(st, k) ==> ParseMembers(src, ALWAYS, st) == r
  }

  ghost predicate ItemsGive(src: Source, st: State, r: Result) {
    st.at <= src.e && forall k {:trigger Name(st, k)} :: Name(st, k) ==> ParseItems(src, ALWAYS, st) == r
  }

  /** A turn of a loop starts at `st` and comes to a value at `v`. */
  ghost predicate MemberLeadsTo(src: Source, st: State, v: State) {
    st.at <= src.e && forall k {:trigger Name(st, k)} :: Name(st, k) ==> StartMember(src, ALWAYS, st) == ValueNext(v)
  }

  ghost predicate ItemLeadsTo(src: Source, st: State, v: State) {
    st.at <= src.e && forall k {:trigger Name(st, k)} :: Name(st, k) ==> StartItem(src, st) == ValueNext(v)
  }

  /** The value parser, at a character that is not white space. */
  lemma Dispatch(src: Source, st: State)
    requires !Skips(At(src, st.at))
    ensures ParseValue(src, ALWAYS, st) ==
            if Numeric(At(src, st.at)) then ParseNumber(src, ALWAYS, st)
            else if At(src, st.at) == '{' then ParseObject(src, ALWAYS, st)
            else if At(src, st.at) == '[' then ParseArray(src, ALWAYS, st)
            else if At(src, st.at) == '"' then ParseString(src, ALWAYS, st, false)
            else ParsePrimitive(src, ALWAYS, st)
  {
  }

  lemma Regroup<T>(a: seq<T>, b: seq<T>, c: seq<T>, d: seq<T>)
    ensures a + b + c + d == a + (b + c + d)
    ensures a + b + c == a + (b + c)
  {
  }

  lemma GoodTwice(st: State, a: nat, first: seq<Event>, b: nat, second: seq<Event>)
    ensures Good(st.(at := a, trace := st.trace + first), b, second) == Good(st, b, first + second)
  {
  }

  lemma CloseStep(src: Source, st: State, begin: Event, events: seq<Event>, close: nat, bracket: char, err: Error,
                  end: Event)
    requires close <= src.e && At(src, close) == bracket
    ensures Close(src, ALWAYS, st.(at := close, trace := st.trace + [begin] + events), bracket, err, end) ==
            Good(st, close + 1, [begin] + events + [end])
  {
  }

  ghost predicate RestObjectGives(src: Source, st: State, r: Result) {
    forall k {:trigger Name(st, k)} :: Name(st, k) ==> RestObject(src, ALWAYS, st) == r
  }

  lemma RestObjectTaken(src: Source, st: State, begin: Event, close: nat, events: seq<Event>)
    requires close <= src.e && At(src, close) == '}'
    requires var o := st.(at := st.at + 1, trace := st.trace + [begin]); MembersGive(src, o, Good(o, close, events))
    ensures var o := st.(at := st.at + 1, trace := st.trace + [begin]);
            RestObjectGives(src, o, Good(st, close + 1, [begin] + events + [ObjectEnd]))
  {
    assert Name(st.(at := st.at + 1, trace := st.trace + [begin]), 0);
    CloseStep(src, st, begin, events, close, '}', CloseBraceExpected, ObjectEnd);
  }

  lemma ObjectStep(src: Source, st: State, close: nat, events: seq<Event>)
    requires At(src, st.at) == '{' && close <= src.e && At(src, close) == '}'
    requires var o := st.(at := st.at + 1, trace := st.trace + [ObjectBegin]);
             MembersGive(src, o, Good(o, close, events))
    ensures ValueGives(src, st, Good(st, close + 1, [ObjectBegin] + events + [ObjectEnd]))
  {
    RestObjectTaken(src, st, ObjectBegin, close, events);
    assert Name(st.(at := st.at + 1, trace := st.trace + [ObjectBegin]), 0);
    EmitParsed(st, st.at + 1, ObjectBegin);
    Dispatch(src, st);
  }

  ghost predicate RestArrayGives(src: Source, st: State, r: Result) {
    forall k {:trigger Name(st, k)} :: Name(st, k) ==> RestArray(src, ALWAYS, st) == r
  }

  lemma RestArrayTaken(src: Source, st: State, begin: Event, close: nat, events: seq<Event>)
    requires close <= src.e && At(src, close) == ']'
    requires var o := st.(at := st.at + 1, trace := st.trace + [begin]); ItemsGive(src, o, Good(o, close, events))
    ensures var o := st.(at := st.at + 1, trace := st.trace + [begin]);
            RestArrayGives(src, o, Good(st, close + 1, [begin] + events + [ArrayEnd]))
  {
    assert Name(st.(at := st.at + 1, trace := st.trace + [begin]), 0);
    CloseStep(src, st, begin, events, close, ']', CloseBracketExpected, ArrayEnd);
  }

  lemma ArrayStep(src: Source, st: State, close: nat, events: seq<Event>)
    requires At(src, st.at) == '[' && close <= src.e && At(src, close) == ']'
    requires var o := st.(at := st.at + 1, trace := st.trace + [ArrayBegin]); ItemsGive(src, o, Good(o, close, events))
    ensures ValueGives(src, st, Good(st, close + 1, [ArrayBegin] + events + [ArrayEnd]))
  {
    RestArrayTaken(src, st, ArrayBegin, close, events);
    assert Name(st.(at := st.at + 1, trace := st.trace + [ArrayBegin]), 0);
    EmitParsed(st, st.at + 1, ArrayBegin);
    Dispatch(src, st);
  }

  /** One turn of the loop over the members, when its value parses: a comma leads to the next turn, anything
      else out of the loop. */
  lemma MemberStep(src: Source, st: State, v: State, z: nat, events: seq<Event>, comma: Skipped, r: Result)
    requires MemberLeadsTo(src, st, v) && ValueGives(src, v, Good(v, z, events)) && Skip(src, z, ',') == comma
    requires var n := v.(at := comma.at, trace := v.trace + events);
             if comma.found then MembersGive(src, n, r) else r == Result(true, n)
    ensures MembersGive(src, st, r)
  {
    assert Name(st, 0) && Name(v, 0) && Name(v.(at := comma.at, trace := v.trace + events), 0);
  }

  lemma ItemStep(src: Source, st: State, v: State, z: nat, events: seq<Event>, comma: Skipped, r: Result)
    requires ItemLeadsTo(src, st, v) && ValueGives(src, v, Good(v, z, events)) && Skip(src, z, ',') == comma
    requires var n := v.(at := comma.at, trace := v.trace + events);
             if comma.found then ItemsGive(src, n, r) else r == Result(true, n)
    ensures ItemsGive(src, st, r)
  {
    assert Name(st, 0) && Name(v, 0) && Name(v.(at := comma.at, trace := v.trace + events), 0);
  }

  /** White space before a value makes no difference. */
  lemma ValueAfterSpaces(src: Source, gap: string, st: State, r: Result)
    requires Spaces(gap) && Here(src, st.at, gap) && ValueGives(src, st.(at := st.at + |gap|), r)
    ensures ValueGives(src, st, r)
  {
    SkipSpaces(src, st.at, gap, NUL);
    var v := st.(at := st.at + |gap|);
    assert v.(at := Skip(src, v.at, NUL).at) == st.(at := Skip(src, st.at, NUL).at);
    assert Name(v, 0);
  }

  // ---------------------------------------------------------------------------------------------------
  // Parsing printed documents
  // ---------------------------------------------------------------------------------------------------

  ghost predicate Bounded(src: Source, v: Json, at: nat) {
    v.Num? || v.Lit? ==> Ends(At(src, at + |Print(v)|))
  }

  /** The parser makes of the value at `st.at` what its tree says. */
  ghost predicate Parsed(src: Source, v: Json, st: State) {
    ValueGives(src, st, Good(st, st.at + |Print(v)|, Events(v, st.at)))
  }

  lemma NumberParsed(src: Source, digits: string, st: State)
    requires Digits(digits) && Here(src, st.at, digits) && Ends(At(src, st.at + |digits|))
    ensures Parsed(src, Num(digits), st)
  {
    HereFirst(src, st.at, digits);
    FindsNumberEnd(src, st.at, digits);
    EmitParsed(st, st.at + |digits|, Number(st.at, st.at + |digits| - 1));
    Dispatch(src, st);
  }

  lemma LiteralParsed(src: Source, l: Literal, st: State)
    requires Here(src, st.at, Spelling(l)) && Ends(At(src, st.at + |Spelling(l)|))
    ensures Parsed(src, Lit(l), st)
  {
    HereFirst(src, st.at, Spelling(l));
    OnlyLiteral(src, st.at, l);
    Dispatch(src, st);
  }

  lemma StringValueParsed(src: Source, raw: string, st: State)
    requires Quotable(raw) && Here(src, st.at, "\"" + (raw + "\""))
    ensures Parsed(src, Str(raw), st)
  {
    HereSplit(src, st.at, "\"", raw + "\"");
    HereFirst(src, st.at, "\"");
    StringParsed(src, st, raw, false);
    Dispatch(src, st);
  }

  lemma {:induction false} ValueParsed(src: Source, v: Json, st: State)
    requires WellFormed(v) && Here(src, st.at, Print(v)) && Bounded(src, v, st.at)
    ensures Parsed(src, v, st)
    decreases v, 3
  {
    match v {
      case Obj(ms) => ObjectParsed(src, ms, st);
      case Arr(items) => ArrayParsed(src, items, st);
      case Str(raw) => StringValueParsed(src, raw, st);
      case Num(digits) => NumberParsed(src, digits, st);
      case Lit(l) => LiteralParsed(src, l, st);
    }
  }

  lemma {:induction false} ObjectParsed(src: Source, ms: Members, st: State)
    requires WellFormedMembers(ms) && Here(src, st.at, Print(Obj(ms)))
    ensures Parsed(src, Obj(ms), st)
    decreases ms, 6
  {
    HereSplitThree(src, st.at, "{", PrintMembers(ms), "}");
    HereFirst(src, st.at, "{");
    HereFirst(src, st.at + 1 + |PrintMembers(ms)|, "}");
    MembersParsed(src, ms, st.(at := st.at + 1, trace := st.trace + [ObjectBegin]));
    ObjectStep(src, st, st.at + 1 + |PrintMembers(ms)|, MembersEvents(ms, st.at + 1));
  }

  lemma {:induction false} MembersParsed(src: Source, ms: Members, st: State)
    requires WellFormedMembers(ms) && Here(src, st.at, PrintMembers(ms)) && Here(src, st.at + |PrintMembers(ms)|, "}")
    ensures MembersGive(src, st, Good(st, st.at + |PrintMembers(ms)|, MembersEvents(ms, st.at)))
    decreases ms, 5
  {
    match ms {
      case NoMember(gap) => NoMembersParsed(src, gap, st);
      case LastMember(m) =>
        MemberParsed(src, m, "}", st, Good(st, st.at + |PrintMember(m)|, MemberEvents(m, st.at)));
      case MoreMembers(m, rest) => MoreMembersParsed(src, m, rest, st);
    }
  }

  lemma {:induction false} MoreMembersParsed(src: Source, m: Member, rest: Members, st: State)
    requires WellFormedMember(m) && WellFormedMembers(rest) &&
             Here(src, st.at, PrintMember(m) + ("," + PrintMembers(rest)))
    requires Here(src, st.at + |PrintMember(m)| + 1 + |PrintMembers(rest)|, "}")
    ensures var end := st.at + |PrintMember(m)| + 1 + |PrintMembers(rest)|;
            MembersGive(src, st, Good(st, end, MembersEvents(MoreMembers(m, rest), st.at)))
    decreases MoreMembers(m, rest), 4
  {
    HereSplitThree(src, st.at, PrintMember(m), ",", PrintMembers(rest));
    var n := PastMember(m, st).(at := st.at + |PrintMember(m)| + 1);
    MembersParsed(src, rest, n);
    var r := Good(n, n.at + |PrintMembers(rest)|, MembersEvents(rest, n.at));
    MemberParsed(src, m, ",", st, r);
    JoinMembers(m, rest, st, r);
  }

  lemma JoinMembers(m: Member, rest: Members, st: State, r: Result)
    requires var n := PastMember(m, st).(at := st.at + |PrintMember(m)| + 1);
             r == Good(n, n.at + |PrintMembers(rest)|, MembersEvents(rest, n.at))
    ensures r == Good(st, st.at + |PrintMember(m)| + 1 + |PrintMembers(rest)|,
                      MembersEvents(MoreMembers(m, rest), st.at))
  {
    AppendMembers(m, rest, st, PastMember(m, st).(at := st.at + |PrintMember(m)| + 1), r);
  }

  lemma AppendMembers(m: Member, rest: Members, st: State, n: State, r: Result)
    requires n == PastMember(m, st).(at := st.at + |PrintMember(m)| + 1)
    requires r == Good(n, r.st.at, MembersEvents(rest, n.at))
    ensures r == Good(st, r.st.at, MembersEvents(MoreMembers(m, rest), st.at))
  {
    EventsOfMoreMembers(m, rest, st.at);
    GoodTwice(st, n.at, MemberEvents(m, st.at), r.st.at, MembersEvents(rest, n.at));
  }

  lemma EventsOfMoreMembers(m: Member, rest: Members, at: nat)
    ensures MembersEvents(MoreMembers(m, rest), at) ==
            MemberEvents(m, at) + MembersEvents(rest, at + |PrintMember(m)| + 1)
  {
  }

  lemma NoMembersParsed(src: Source, gap: string, st: State)
    requires Spaces(gap) && Here(src, st.at, gap) && Here(src, st.at + |gap|, "}")
    ensures MembersGive(src, st, Good(st, st.at + |gap|, []))
  {
    HereFirst(src, st.at + |gap|, "}");
    SkipTo(src, st.at, gap, '}', NUL);
    assert st.trace + [] == st.trace;
  }

  /** The state after the value of a member. */
  function PastMember(m: Member, st: State): State {
    st.(at := ValueAt(m, st.at) + |Print(m.value)|, trace := st.trace + MemberEvents(m, st.at))
  }

  /** The state after the colon of a member. */
  function PastColon(m: Member, st: State): State {
    st.(at := ValueAt(m, st.at) - |m.pre|, trace := st.trace + [KeyEvent(m, st.at)])
  }

  /** The comma or the bracket after a value. */
  lemma AfterValue(src: Source, at: nat, post: string, stop: string)
    requires stop == "," || stop == "}" || stop == "]"
    requires Spaces(post) && Here(src, at, post) && Here(src, at + |post|, stop)
    ensures Skip(src, at, ',') == if stop == "," then Skipped(true, at + |post| + 1) else Skipped(false, at + |post|)
    ensures Ends(At(src, at))
  {
    HereFirst(src, at + |post|, stop);
    SkipTo(src, at, post, stop[0], ',');
    if post != "" {
      HereFirst(src, at, post);
    }
  }

  /** The pieces of a member whose value prints as `v`, each where it starts. */
  ghost predicate Pieces(src: Source, m: Member, v: string, at: nat) {
    var key := KeyAt(m, at);
    var mid := key + |m.key| + 1;
    var a := ValueAt(m, at);
    && Here(src, at, m.lead) && Here(src, key - 1, "\"") && Here(src, key, m.key + "\"") && Here(src, mid, m.mid)
    && Here(src, mid + |m.mid|, ":") && Here(src, a - |m.pre|, m.pre) && Here(src, a, v) && Here(src, a + |v|, m.post)
  }

  lemma MemberPieces(src: Source, m: Member, v: string, at: nat)
    requires Here(src, at, m.lead + ("\"" + ((m.key + "\"") + (m.mid + (":" + (m.pre + (v + m.post)))))))
    ensures Pieces(src, m, v, at)
  {
    HereSplitFour(src, at, m.lead, "\"", m.key + "\"", m.mid + (":" + (m.pre + (v + m.post))));
    TailPieces(src, KeyAt(m, at) + |m.key| + 1, m.mid, m.pre, v, m.post);
  }

  /** The text from the gap before the colon on. */
  lemma TailPieces(src: Source, d: nat, mid: string, pre: string, v: string, post: string)
    requires Here(src, d, mid + (":" + (pre + (v + post))))
    ensures var a := d + |mid| + 1 + |pre|;
            && Here(src, d, mid) && Here(src, d + |mid|, ":") && Here(src, d + |mid| + 1, pre)
            && Here(src, a, v) && Here(src, a + |v|, post)
  {
    HereSplitFour(src, d, mid, ":", pre, v + post);
    HereSplit(src, d + |mid| + 1 + |pre|, v, post);
  }

  lemma MemberStarts(src: Source, m: Member, v: string, st: State)
    requires Spaces(m.lead) && Quotable(m.key) && Spaces(m.mid) && Pieces(src, m, v, st.at)
    ensures MemberLeadsTo(src, st, PastColon(m, st))
  {
    var q := st.at + |m.lead|;
    var d := q + |m.key| + 2;
    HereFirst(src, q, "\"");
    SkipTo(src, st.at, m.lead, '"', NUL);
    StringParsed(src, st.(at := q), m.key, true);
    HereFirst(src, d + |m.mid|, ":");
    SkipTo(src, d, m.mid, ':', ':');
  }

  /** A member and what follows it: `r` is the outcome of the rest of the loop after a comma, or of the whole
      loop before the closing brace. */
  lemma {:induction false} MemberParsed(src: Source, m: Member, stop: string, st: State, r: Result)
    requires stop == "," || stop == "}"
    requires WellFormedMember(m) && Here(src, st.at, PrintMember(m)) && Here(src, st.at + |PrintMember(m)|, stop)
    requires var end := st.at + |PrintMember(m)|;
             if stop == "," then MembersGive(src, PastMember(m, st).(at := end + 1), r)
             else r == Result(true, PastMember(m, st).(at := end))
    ensures MembersGive(src, st, r)
    decreases m, 4
  {
    var c, a, z := PastColon(m, st), ValueAt(m, st.at), ValueAt(m, st.at) + |Print(m.value)|;
    MemberValueParsed(src, m, stop, st);
    PastTheValue(m, st);
    assert PastMember(m, st) == c.(at := z, trace := c.trace + Events(m.value, a));
    MemberStep(src, st, c, z, Events(m.value, a), Skip(src, z, ','), r);
  }

  lemma {:induction false} MemberValueParsed(src: Source, m: Member, stop: string, st: State)
    requires stop == "," || stop == "}"
    requires WellFormedMember(m) && Here(src, st.at, PrintMember(m)) && Here(src, st.at + |PrintMember(m)|, stop)
    ensures var c, a, z := PastColon(m, st), ValueAt(m, st.at), ValueAt(m, st.at) + |Print(m.value)|;
            && MemberLeadsTo(src, st, c) && ValueGives(src, c, Good(c, z, Events(m.value, a)))
            && Skip(src, z, ',') == (
                 if stop == "," then Skipped(true, z + |m.post| + 1) else Skipped(false, z + |m.post|))
    decreases m, 3
  {
    MemberPlaced(src, m, stop, st);
    var c, a, z := PastColon(m, st), ValueAt(m, st.at), ValueAt(m, st.at) + |Print(m.value)|;
    ValueParsed(src, m.value, c.(at := a));
    ValueAfterSpaces(src, m.pre, c, Good(c, z, Events(m.value, a)));
  }

  lemma PastTheValue(m: Member, st: State)
    ensures var c := PastColon(m, st);
            PastMember(m, st) == c.(at := ValueAt(m, st.at) + |Print(m.value)|,
                                    trace := c.trace + Events(m.value, ValueAt(m, st.at)))
  {
    Regroup(st.trace, [KeyEvent(m, st.at)], Events(m.value, ValueAt(m, st.at)), []);
  }

  /** Where the pieces of a member are, and what the parser makes of those around its value. */
  lemma MemberPlaced(src: Source, m: Member, stop: string, st: State)
    requires stop == "," || stop == "}"
    requires WellFormedMember(m) && Here(src, st.at, PrintMember(m)) && Here(src, st.at + |PrintMember(m)|, stop)
    ensures var c, a, z := PastColon(m, st), ValueAt(m, st.at), ValueAt(m, st.at) + |Print(m.value)|;
            && MemberLeadsTo(src, st, c) && Here(src, c.at, m.pre) && a == c.at + |m.pre|
            && Here(src, a, Print(m.value)) && Ends(At(src, z))
            && Skip(src, z, ',') == (
                 if stop == "," then Skipped(true, z + |m.post| + 1) else Skipped(false, z + |m.post|))
  {
    var z := ValueAt(m, st.at) + |Print(m.value)|;
    MemberPieces(src, m, Print(m.value), st.at);
    AfterValue(src, z, m.post, stop);
    MemberStarts(src, m, Print(m.value), st);
  }

  lemma {:induction false} ArrayParsed(src: Source, items: Items, st: State)
    requires WellFormedItems(items) && Here(src, st.at, Print(Arr(items)))
    ensures Parsed(src, Arr(items), st)
    decreases items, 6
  {
    HereSplitThree(src, st.at, "[", PrintItems(items), "]");
    HereFirst(src, st.at, "[");
    HereFirst(src, st.at + 1 + |PrintItems(items)|, "]");
    ItemsParsed(src, items, st.(at := st.at + 1, trace := st.trace + [ArrayBegin]));
    ArrayStep(src, st, st.at + 1 + |PrintItems(items)|, ItemsEvents(items, st.at + 1));
  }

  lemma {:induction false} ItemsParsed(src: Source, items: Items, st: State)
    requires WellFormedItems(items) && Here(src, st.at, PrintItems(items)) &&
             Here(src, st.at + |PrintItems(items)|, "]")
    ensures ItemsGive(src, st, Good(st, st.at + |PrintItems(items)|, ItemsEvents(items, st.at)))
    decreases items, 5
  {
    match items {
      case NoItem(gap) => NoItemsParsed(src, gap, st);
      case LastItem(i) => LastItemParsed(src, i, st);
      case MoreItems(i, rest) => MoreItemsParsed(src, i, rest, st);
    }
  }

  lemma {:induction false} LastItemParsed(src: Source, i: Item, st: State)
    requires WellFormedItem(i) && Here(src, st.at, PrintItem(i)) && Here(src, st.at + |PrintItem(i)|, "]")
    ensures ItemsGive(src, st, Good(st, st.at + |PrintItem(i)|, ItemsEvents(LastItem(i), st.at)))
    decreases LastItem(i), 4
  {
    var r := Good(st, st.at + |PrintItem(i)|, Events(i.value, st.at + |i.pre|));
    assert ItemsEvents(LastItem(i), st.at) == Events(i.value, st.at + |i.pre|);
    assert r == Result(true, PastItem(i, st).(at := st.at + |PrintItem(i)|));
    ItemParsed(src, i, "]", st, r);
  }

  lemma {:induction false} MoreItemsParsed(src: Source, i: Item, rest: Items, st: State)
    requires WellFormedItem(i) && WellFormedItems(rest) && Here(src, st.at, PrintItem(i) + ("," + PrintItems(rest)))
    requires Here(src, st.at + |PrintItem(i)| + 1 + |PrintItems(rest)|, "]")
    ensures var end := st.at + |PrintItem(i)| + 1 + |PrintItems(rest)|;
            ItemsGive(src, st, Good(st, end, ItemsEvents(MoreItems(i, rest), st.at)))
    decreases MoreItems(i, rest), 4
  {
    HereSplitThree(src, st.at, PrintItem(i), ",", PrintItems(rest));
    var n := PastItem(i, st).(at := st.at + |PrintItem(i)| + 1);
    ItemsParsed(src, rest, n);
    var r := Good(n, n.at + |PrintItems(rest)|, ItemsEvents(rest, n.at));
    ItemParsed(src, i, ",", st, r);
    JoinItems(i, rest, st, r);
  }

  lemma JoinItems(i: Item, rest: Items, st: State, r: Result)
    requires var n := PastItem(i, st).(at := st.at + |PrintItem(i)| + 1);
             r == Good(n, n.at + |PrintItems(rest)|, ItemsEvents(rest, n.at))
    ensures r == Good(st, st.at + |PrintItem(i)| + 1 + |PrintItems(rest)|, ItemsEvents(MoreItems(i, rest), st.at))
  {
    AppendItems(i, rest, st, PastItem(i, st).(at := st.at + |PrintItem(i)| + 1), r);
  }

  lemma AppendItems(i: Item, rest: Items, st: State, n: State, r: Result)
    requires n == PastItem(i, st).(at := st.at + |PrintItem(i)| + 1)
    requires r == Good(n, r.st.at, ItemsEvents(rest, n.at))
    ensures r == Good(st, r.st.at, ItemsEvents(MoreItems(i, rest), st.at))
  {
    EventsOfMoreItems(i, rest, st.at);
    GoodTwice(st, n.at, Events(i.value, st.at + |i.pre|), r.st.at, ItemsEvents(rest, n.at));
  }

  lemma EventsOfMoreItems(i: Item, rest: Items, at: nat)
    ensures ItemsEvents(MoreItems(i, rest), at) ==
            Events(i.value, at + |i.pre|) + ItemsEvents(rest, at + |PrintItem(i)| + 1)
  {
  }

  lemma NoItemsParsed(src: Source, gap: string, st: State)
    requires Spaces(gap) && Here(src, st.at, gap) && Here(src, st.at + |gap|, "]")
    ensures ItemsGive(src, st, Good(st, st.at + |gap|, []))
  {
    HereFirst(src, st.at + |gap|, "]");
    SkipTo(src, st.at, gap, ']', NUL);
    assert st.trace + [] == st.trace;
  }

  function PastItem(i: Item, st: State): State {
    st.(at := st.at + |i.pre| + |Print(i.value)|, trace := st.trace + Events(i.value, st.at + |i.pre|))
  }

  lemma {:induction false} ItemParsed(src: Source, i: Item, stop: string, st: State, r: Result)
    requires stop == "," || stop == "]"
    requires WellFormedItem(i) && Here(src, st.at, PrintItem(i)) && Here(src, st.at + |PrintItem(i)|, stop)
    requires var end := st.at + |PrintItem(i)|;
             if stop == "," then ItemsGive(src, PastItem(i, st).(at := end + 1), r)
             else r == Result(true, PastItem(i, st).(at := end))
    ensures ItemsGive(src, st, r)
    decreases i, 4
  {
    var a, z := st.at + |i.pre|, st.at + |i.pre| + |Print(i.value)|;
    HereSplitThree(src, st.at, i.pre, Print(i.value), i.post);
    AfterValue(src, z, i.post, stop);
    ItemStarts(src, i, st);
    ValueParsed(src, i.value, st.(at := a));
    ItemStep(src, st, st.(at := a), z, Events(i.value, a), Skip(src, z, ','), r);
  }

  lemma ItemStarts(src: Source, i: Item, st: State)
    requires Spaces(i.pre) && WellFormed(i.value) && Here(src, st.at, i.pre) &&
             Here(src, st.at + |i.pre|, Print(i.value))
    ensures ItemLeadsTo(src, st, st.(at := st.at + |i.pre|))
  {
    HereFirst(src, st.at + |i.pre|, Print(i.value));
    FirstOfValue(i.value);
    SkipTo(src, st.at, i.pre, Print(i.value)[0], NUL);
  }

  /** No value starts with white space or with a closing bracket. */
  lemma FirstOfValue(v: Json)
    requires WellFormed(v)
    ensures !Skips(Print(v)[0]) && Print(v)[0] != ']'
  {
  }

  /** Main result: a document with an object or an array at the root, after any white space and before any text
      at all, is parsed to its end and gives exactly its events. */
  lemma PrintedDocumentParses(v: Json, gap: string, after: string, e: int, err: Error, errAt: int)
    requires WellFormed(v) && (v.Obj? || v.Arr?) && Spaces(gap)
    requires |gap + Print(v)| <= e + 1
    ensures ParseValue(Source(gap + Print(v) + after, e), ALWAYS, State(0, [], err, errAt)) ==
            Result(true, State(|gap + Print(v)|, Events(v, |gap|), err, errAt))
  {
    var src, st := Source(gap + Print(v) + after, e), State(0, [], err, errAt);
    assert Here(src, 0, gap + Print(v));
    HereSplit(src, 0, gap, Print(v));
    ValueParsed(src, v, st.(at := |gap|));
    assert [] + Events(v, |gap|) == Events(v, |gap|);
    ValueAfterSpaces(src, gap, st, Result(true, State(|gap + Print(v)|, Events(v, |gap|), err, errAt)));
    assert Name(st, 0);
  }
}
