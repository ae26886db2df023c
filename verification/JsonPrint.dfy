/**
 JSON documents as trees that carry their own white space, their printed text and their events. The trees include
 every document of RFC 8259 with an object or an array at the root, and those with a comma after the last member or
 item, which this parser takes too.
 */
module JsonPrint {
  import opened JsonModel

  datatype Json =
    | Obj(members: Members)
    | Arr(items: Items)
    | Str(raw: string)
    | Num(digits: string)
    | Lit(literal: Literal)

  datatype Members = NoMember(gap: string) | LastMember(m: Member) | MoreMembers(m: Member, rest: Members)

  datatype Items = NoItem(gap: string) | LastItem(i: Item) | MoreItems(i: Item, rest: Items)

  datatype Member = Member(lead: string, key: string, mid: string, pre: string, value: Json, post: string)

  datatype Item = Item(pre: string, value: Json, post: string)

  // ---------------------------------------------------------------------------------------------------
  // Well-formed documents, their text and their events
  // ---------------------------------------------------------------------------------------------------

  predicate Spaces(s: string) {
    forall i :: 0 <= i < |s| ==> Space(s[i])
  }

  /** The text between two quotes: every backslash escapes one character, and no quote goes unescaped. */
  predicate Quotable(raw: string) {
    QuotableFrom(raw, 0, false)
  }

  predicate QuotableFrom(raw: string, i: nat, escape: bool)
    requires i <= |raw|
    decreases |raw| - i
  {
    if i == |raw| then !escape
    else if escape then QuotableFrom(raw, i + 1, false)
    else raw[i] != '"' && QuotableFrom(raw, i + 1, raw[i] == '\\')
  }

  predicate Digits(s: string) {
    |s| > 0 && forall i :: 0 <= i < |s| ==> Numeric(s[i]) && s[i] != NUL
  }

  predicate WellFormed(v: Json) {
    match v
    case Obj(ms) => WellFormedMembers(ms)
    case Arr(items) => WellFormedItems(items)
    case Str(raw) => Quotable(raw)
    case Num(digits) => Digits(digits)
    case Lit(_) => true
  }

  predicate WellFormedMembers(ms: Members) {
    match ms
    case NoMember(gap) => Spaces(gap)
    case LastMember(m) => WellFormedMember(m)
    case MoreMembers(m, rest) => WellFormedMember(m) && WellFormedMembers(rest)
  }

  predicate WellFormedMember(m: Member) {
    Spaces(m.lead) && Quotable(m.key) && Spaces(m.mid) && Spaces(m.pre) && WellFormed(m.value) && Spaces(m.post)
  }

  predicate WellFormedItems(items: Items) {
    match items
    case NoItem(gap) => Spaces(gap)
    case LastItem(i) => WellFormedItem(i)
    case MoreItems(i, rest) => WellFormedItem(i) && WellFormedItems(rest)
  }

  predicate WellFormedItem(i: Item) {
    Spaces(i.pre) && WellFormed(i.value) && Spaces(i.post)
  }

  function Print(v: Json): (s: string)
    ensures |s| > 0
  {
    match v
    case Obj(ms) => "{" + (PrintMembers(ms) + "}")
    case Arr(items) => "[" + (PrintItems(items) + "]")
    case Str(raw) => "\"" + (raw + "\"")
    case Num(digits) => if digits == "" then "0" else digits
    case Lit(l) => Spelling(l)
  }

  function PrintMembers(ms: Members): string {
    match ms
    case NoMember(gap) => gap
    case LastMember(m) => PrintMember(m)
    case MoreMembers(m, rest) => PrintMember(m) + ("," + PrintMembers(rest))
  }

  function PrintMember(m: Member): string {
    m.lead + ("\"" + ((m.key + "\"") + (m.mid + (":" + (m.pre + (Print(m.value) + m.post))))))
  }

  function PrintItems(items: Items): string {
    match items
    case NoItem(gap) => gap
    case LastItem(i) => PrintItem(i)
    case MoreItems(i, rest) => PrintItem(i) + ("," + PrintItems(rest))
  }

  function PrintItem(i: Item): string {
    i.pre + (Print(i.value) + i.post)
  }

  /** The callbacks for a value whose text starts at `at`. */
  function Events(v: Json, at: nat): seq<Event> {
    match v
    case Obj(ms) => [ObjectBegin] + MembersEvents(ms, at + 1) + [ObjectEnd]
    case Arr(items) => [ArrayBegin] + ItemsEvents(items, at + 1) + [ArrayEnd]
    case Str(raw) => [Text(at + 1, at + |raw|, false)]
    case Num(_) => [Number(at, at + |Print(v)| - 1)]
    case Lit(l) => [Primitive(l)]
  }

  function MembersEvents(ms: Members, at: nat): seq<Event> {
    match ms
    case NoMember(_) => []
    case LastMember(m) => MemberEvents(m, at)
    case MoreMembers(m, rest) => MemberEvents(m, at) + MembersEvents(rest, at + |PrintMember(m)| + 1)
  }

  /** Where the key of a member starts, and where its value does. */
  function KeyAt(m: Member, at: nat): nat {
    at + |m.lead| + 1
  }

  function ValueAt(m: Member, at: nat): nat {
    KeyAt(m, at) + |m.key| + 1 + |m.mid| + 1 + |m.pre|
  }

  function KeyEvent(m: Member, at: nat): Event {
    Text(KeyAt(m, at), KeyAt(m, at) + |m.key| - 1, true)
  }

  function MemberEvents(m: Member, at: nat): seq<Event> {
    [KeyEvent(m, at)] + Events(m.value, ValueAt(m, at))
  }

  function ItemsEvents(items: Items, at: nat): seq<Event> {
    match items
    case NoItem(_) => []
    case LastItem(i) => Events(i.value, at + |i.pre|)
    case MoreItems(i, rest) => Events(i.value, at + |i.pre|) + ItemsEvents(rest, at + |PrintItem(i)| + 1)
  }

  // ---------------------------------------------------------------------------------------------------
  // Reading pieces of text
  // ---------------------------------------------------------------------------------------------------

  /** Names the place a quantifier is to be used at, so that the solver does not try all of them. */
  ghost predicate Pick(at: nat, s: string, i: int) {
    true
  }

  /** The section has `s` at `at`. */
  ghost predicate Here(src: Source, at: nat, s: string) {
    && at + |s| <= src.e + 1
    && forall i {:trigger Pick(at, s, i)} :: Pick(at, s, i) && 0 <= i < |s| ==> At(src, at + i) == s[i]
  }

  lemma HereAt(src: Source, at: nat, s: string, i: nat)
    requires Here(src, at, s) && i < |s|
    ensures At(src, at + i) == s[i] && at + i <= src.e
  {
    assert Pick(at, s, i);
  }

  lemma HereFirst(src: Source, at: nat, s: string)
    requires Here(src, at, s) && |s| > 0
    ensures At(src, at) == s[0] && at <= src.e
  {
    HereAt(src, at, s, 0);
  }

  lemma HereSplit(src: Source, at: nat, a: string, b: string)
    requires Here(src, at, a + b)
    ensures Here(src, at, a) && Here(src, at + |a|, b)
  {
    forall i | Pick(at, a, i) && 0 <= i < |a| ensures At(src, at + i) == a[i] {
      HereAt(src, at, a + b, i);
    }
    forall i | Pick(at + |a|, b, i) && 0 <= i < |b| ensures At(src, at + |a| + i) == b[i] {
      HereAt(src, at, a + b, |a| + i);
    }
  }

  lemma HereSplitThree(src: Source, at: nat, a: string, b: string, c: string)
    requires Here(src, at, a + (b + c))
    ensures Here(src, at, a) && Here(src, at + |a|, b) && Here(src, at + |a| + |b|, c)
  {
    HereSplit(src, at, a, b + c);
    HereSplit(src, at + |a|, b, c);
  }

  lemma HereSplitFour(src: Source, at: nat, a: string, b: string, c: string, d: string)
    requires Here(src, at, a + (b + (c + d)))
    ensures Here(src, at, a) && Here(src, at + |a|, b) && Here(src, at + |a| + |b|, c) &&
            Here(src, at + |a| + |b| + |c|, d)
  {
    HereSplit(src, at, a, b + (c + d));
    HereSplit(src, at + |a|, b, c + d);
    HereSplit(src, at + |a| + |b|, c, d);
  }

  lemma {:induction false} SkipSpaces(src: Source, at: nat, gap: string, c: char)
    requires Here(src, at, gap) && Spaces(gap) && !Space(c)
    ensures Skip(src, at, c) == Skip(src, at + |gap|, c)
    decreases |gap|
  {
    if gap != "" {
      assert gap == [gap[0]] + gap[1..];
      HereSplit(src, at, [gap[0]], gap[1..]);
      HereFirst(src, at, gap);
      SkipSpaces(src, at + 1, gap[1..], c);
    }
  }

  /** Over a gap to a character that ends it: taken when it is the one looked for. */
  lemma SkipTo(src: Source, at: nat, gap: string, stop: char, c: char)
    requires Here(src, at, gap) && Spaces(gap) && At(src, at + |gap|) == stop && at + |gap| <= src.e
    requires !Space(c) && !Skips(stop)
    ensures Skip(src, at, c) == if c == stop then Skipped(true, at + |gap| + 1) else Skipped(false, at + |gap|)
  {
    SkipSpaces(src, at, gap, c);
  }

  lemma {:induction false} FindsQuote(src: Source, at: nat, raw: string, i: nat, escape: bool)
    requires Here(src, at, raw + "\"") && i <= |raw| && QuotableFrom(raw, i, escape)
    ensures ClosingQuote(src, at + i, escape) == QuoteAt(at + |raw|)
    decreases |raw| - i
  {
    HereAt(src, at, raw + "\"", i);
    if i < |raw| {
      FindsQuote(src, at, raw, i + 1, if escape then false else raw[i] == '\\');
    }
  }

  lemma {:induction false} FindsNumberEnd(src: Source, at: nat, digits: string)
    requires Here(src, at, digits) && !Numeric(At(src, at + |digits|))
    requires forall i :: 0 <= i < |digits| ==> Numeric(digits[i])
    ensures NumberEnd(src, at) == at + |digits|
    decreases |digits|
  {
    if digits != "" {
      assert digits == [digits[0]] + digits[1..];
      HereSplit(src, at, [digits[0]], digits[1..]);
      HereFirst(src, at, digits);
      FindsNumberEnd(src, at + 1, digits[1..]);
    }
  }

  lemma HereSpelled(src: Source, at: nat, s: string)
    requires Here(src, at, s)
    ensures Spelled(src, at, s)
  {
    forall i | 0 <= i < |s| ensures At(src, at + i) == s[i] {
      HereAt(src, at, s, i);
    }
  }

  lemma OnlyLiteral(src: Source, at: nat, l: Literal)
    requires Here(src, at, Spelling(l)) && Ends(At(src, at + |Spelling(l)|))
    ensures forall k: Literal :: LiteralAt(src, at, k) <==> k == l
  {
    HereSpelled(src, at, Spelling(l));
    HereFirst(src, at, Spelling(l));
    forall k: Literal | LiteralAt(src, at, k) ensures k == l {
      assert At(src, at + 0) == Spelling(k)[0];
    }
  }

  const ALWAYS: Handler := trace => true

  function Good(st: State, at: nat, events: seq<Event>): Result {
    Result(true, st.(at := at, trace := st.trace + events))
  }

  lemma EmitParsed(st: State, at: nat, ev: Event)
    ensures Emit(ALWAYS, st.(at := at), ev) == Good(st, at, [ev])
  {
  }

  lemma StringParsed(src: Source, st: State, raw: string, key: bool)
    requires Here(src, st.at + 1, raw + "\"") && Quotable(raw)
    ensures ParseString(src, ALWAYS, st, key) ==
            Good(st, st.at + |raw| + 2, [Text(st.at + 1, st.at + |raw|, key)])
  {
    FindsQuote(src, st.at + 1, raw, 0, false);
    EmitParsed(st, st.at + |raw| + 2, Text(st.at + 1, st.at + |raw|, key));
  }
}
