/**
 The callback parser as functions of a text, the last index `e` of the section being parsed, and the answers of
 the handler. They do what the C++ code does, character tests included: `strchr` finds the NUL that ends its
 set, so NUL counts as white space and as part of a number.
 */
module JsonModel {

  const NUL := 0 as char
  const NO_CHAR := -1  // the null end pointer of an empty number

  datatype Literal = False | True | Null

  datatype Event =
    | ObjectBegin
    | ObjectEnd
    | ArrayBegin
    | ArrayEnd
    | Number(s: int, e: int)
    | Text(s: int, e: int, key: bool)
    | Primitive(literal: Literal)

  datatype Error =
    | Okay
    | ColonExpected
    | KeyExpected
    | CloseBraceExpected
    | CloseBracketExpected
    | UnterminatedString
    | UserError

  /** The text section `text[..e + 1]`; the text itself may go on. */
  datatype Source = Source(text: string, e: int)

  datatype State = State(at: nat, trace: seq<Event>, err: Error, errAt: int)

  datatype Result = Result(ok: bool, st: State)

  /** What the handler answers when the last event of the trace is delivered: true for OKAY. */
  type Handler = seq<Event> -> bool

  predicate Space(c: char) {
    c == ' ' || c == '\t' || c == '\r' || c == '\n'
  }

  /** `strchr(whitespace, c)` */
  predicate Skips(c: char) {
    Space(c) || c == NUL
  }

  /** `strchr(numeric, c)` */
  predicate Numeric(c: char) {
    '0' <= c <= '9' || c == '+' || c == '-' || c == '.' || c == 'e' || c == 'E' || c == NUL
  }

  /** A letter of one of the three literals. */
  predicate InLiteral(c: char) {
    || c == 'f' || c == 'a' || c == 'l' || c == 's' || c == 'e'
    || c == 't' || c == 'r' || c == 'u' || c == 'n'
  }

  /** Neither part of a number or a literal, NUL included, nor the beginning of an object or an array. */
  predicate Stops(c: char) {
    !Numeric(c) && !InLiteral(c) && c != '{' && c != '['
  }

  /** A literal, an object or an array begins with this character. */
  predicate Opens(c: char) {
    c == 'f' || c == 't' || c == 'n' || c == '{' || c == '['
  }

  /** Neighbours in a literal. */
  predicate Neighbours(b: char, c: char) {
    || (b == 'f' && c == 'a') || (b == 'a' && c == 'l') || (b == 'l' && c == 's') || (b == 's' && c == 'e')
    || (b == 't' && c == 'r') || (b == 'r' && c == 'u') || (b == 'u' && c == 'e')
    || (b == 'n' && c == 'u') || (b == 'u' && c == 'l') || (b == 'l' && c == 'l')
  }

  /** A number or a literal can go on from `b` to `c`. */
  predicate Joins(b: char, c: char) {
    (Numeric(b) && Numeric(c)) || Neighbours(b, c)
  }

  /** No token goes on into the character at `p` or begins there. */
  predicate Wall(text: string, p: nat)
    requires p < |text|
  {
    !Opens(text[p]) && (p > 0 ==> !Joins(text[p - 1], text[p]))
  }

  function At(src: Source, i: nat): char {
    if i < |src.text| then src.text[i] else ' '
  }

  function Spelling(l: Literal): string {
    match l
    case False => "false"
    case True => "true"
    case Null => "null"
  }

  /** How far there is to go: the termination measure of the parser. */
  function Left(src: Source, at: nat): nat {
    if at <= src.e then src.e - at + 1 else 0
  }

  datatype Skipped = Skipped(found: bool, at: nat)

  /** Steps over white space, and over `c` when that comes next. */
  function Skip(src: Source, at: nat, c: char): (r: Skipped)
    ensures r.at >= at && (r.found ==> r.at > at)
    ensures at <= src.e + 1 ==> r.at <= src.e + 1
    decreases Left(src, at)
  {
    if at > src.e then Skipped(false, at)
    else if c == At(src, at) then Skipped(true, at + 1)
    else if !Skips(At(src, at)) then Skipped(false, at)
    else Skip(src, at + 1, c)
  }

  function Emit(h: Handler, st: State, ev: Event): (r: Result)
    ensures r.st.at == st.at && r.st.trace == st.trace + [ev]
  {
    var told := st.(trace := st.trace + [ev]);
    if h(told.trace) then Result(true, told) else Result(false, told.(err := UserError, errAt := st.at))
  }

  function Fail(st: State, err: Error): Result {
    Result(false, st.(err := err, errAt := st.at))
  }

  /** The first index from `i` on that does not belong to the number. */
  function NumberEnd(src: Source, i: nat): (r: nat)
    ensures r >= i && !Numeric(At(src, r))
    decreases if i < |src.text| then |src.text| - i else 0
  {
    if Numeric(At(src, i)) then NumberEnd(src, i + 1) else i
  }

  /** The section end is tested on the cursor, which does not move while the number is read. */
  function ParseNumber(src: Source, h: Handler, st: State): Result {
    var end := if st.at <= src.e then NumberEnd(src, st.at) else st.at;
    var last := if end > st.at then end - 1 else NO_CHAR;
    Emit(h, st.(at := end), Number(st.at, last))
  }

  datatype Quote = NoQuote | QuoteAt(i: nat)

  /** The first quote from `i` on that is not escaped. */
  function ClosingQuote(src: Source, i: nat, escape: bool): (r: Quote)
    ensures r.QuoteAt? ==> i <= r.i <= src.e
    decreases Left(src, i)
  {
    if i > src.e then NoQuote
    else if At(src, i) == '"' && !escape then QuoteAt(i)
    else ClosingQuote(src, i + 1, if escape then false else At(src, i) == '\\')
  }

  function ParseString(src: Source, h: Handler, st: State, key: bool): (r: Result)
    ensures r.ok ==> st.at + 2 <= r.st.at
  {
    match ClosingQuote(src, st.at + 1, false)
    case NoQuote => Fail(st, UnterminatedString)
    case QuoteAt(i) => Emit(h, st.(at := i + 1), Text(st.at + 1, i - 1, key))
  }

  predicate Spelled(src: Source, at: nat, s: string) {
    forall i :: 0 <= i < |s| ==> At(src, at + i) == s[i]
  }

  /** What may follow a literal, but for NUL. */
  predicate Ends(c: char) {
    Space(c) || c == ',' || c == '}' || c == ']'
  }

  /** The literal at the cursor, followed by something that ends a value. */
  predicate LiteralAt(src: Source, at: nat, l: Literal) {
    var next := At(src, at + |Spelling(l)|);
    Spelled(src, at, Spelling(l)) && (Ends(next) || next == NUL)
  }

  function ParseLiteral(src: Source, h: Handler, st: State, l: Literal): Result {
    var r := Emit(h, st, Primitive(l));
    if r.ok then Result(true, r.st.(at := st.at + |Spelling(l)|)) else r
  }

  function ParsePrimitive(src: Source, h: Handler, st: State): Result {
    if LiteralAt(src, st.at, False) then ParseLiteral(src, h, st, False)
    else if LiteralAt(src, st.at, True) then ParseLiteral(src, h, st, True)
    else if LiteralAt(src, st.at, Null) then ParseLiteral(src, h, st, Null)
    else Result(false, st)
  }

  /** The end of an object or an array: white space, the closing bracket, and the callback. */
  function Close(src: Source, h: Handler, st: State, bracket: char, err: Error, ev: Event): (r: Result)
    ensures r.ok ==> r.st.at > st.at
  {
    var c := Skip(src, st.at, bracket);
    var d := st.(at := c.at);
    if !c.found then Fail(d, err) else Emit(h, d, ev)
  }

  function ParseValue(src: Source, h: Handler, st: State): (r: Result)
    ensures r.ok ==> r.st.at >= st.at
    decreases Left(src, st.at), 3
  {
    var v := st.(at := Skip(src, st.at, NUL).at);
    var c := At(src, v.at);
    if Numeric(c) then ParseNumber(src, h, v)
    else if c == '{' then ParseObject(src, h, v)
    else if c == '[' then ParseArray(src, h, v)
    else if c == '"' then ParseString(src, h, v, false)
    else ParsePrimitive(src, h, v)
  }

  function ParseObject(src: Source, h: Handler, st: State): (r: Result)
    ensures r.ok ==> r.st.at > st.at
    decreases Left(src, st.at), 2
  {
    var o := Emit(h, st.(at := st.at + 1), ObjectBegin);
    if !o.ok then o else RestObject(src, h, o.st)
  }

  /** What comes after the opening bracket. */
  function RestObject(src: Source, h: Handler, st: State): (r: Result)
    ensures r.ok ==> r.st.at > st.at
    decreases Left(src, st.at), if st.at <= src.e then 5 else 1
  {
    var b := if st.at <= src.e then ParseMembers(src, h, st) else Result(true, st);
    if !b.ok then b else Close(src, h, b.st, '}', CloseBraceExpected, ObjectEnd)
  }

  /** Either the loop is over, or a value comes next. */
  datatype Turn = Stop(r: Result) | ValueNext(st: State)

  /** The start of one turn of the loop over the members: key and colon, or the closing brace. */
  function StartMember(src: Source, h: Handler, st: State): (t: Turn)
    ensures t.Stop? && t.r.ok ==> t.r.st.at >= st.at
    ensures t.ValueNext? ==> t.st.at > st.at
  {
    var m := st.(at := Skip(src, st.at, NUL).at);
    var c := At(src, m.at);
    if c == '}' then Stop(Result(true, m))
    else if c != '"' then Stop(Fail(m, KeyExpected))
    else
      var k := ParseString(src, h, m, true);
      if !k.ok then Stop(k)
      else
        var colon := Skip(src, k.st.at, ':');
        var s := k.st.(at := colon.at);
        if !colon.found then Stop(Fail(s, ColonExpected)) else ValueNext(s)
  }

  /** The loop over the members, up to the closing brace or to what should be one. */
  function ParseMembers(src: Source, h: Handler, st: State): (r: Result)
    requires st.at <= src.e
    ensures r.ok ==> r.st.at >= st.at
    decreases Left(src, st.at), 4
  {
    match StartMember(src, h, st)
    case Stop(r) => r
    case ValueNext(s) =>
      var v := ParseValue(src, h, s);
      if !v.ok then v
      else
        var comma := Skip(src, v.st.at, ',');
        var n := v.st.(at := comma.at);
        if comma.found && n.at <= src.e then ParseMembers(src, h, n) else Result(true, n)
  }

  function ParseArray(src: Source, h: Handler, st: State): (r: Result)
    ensures r.ok ==> r.st.at > st.at
    decreases Left(src, st.at), 2
  {
    var o := Emit(h, st.(at := st.at + 1), ArrayBegin);
    if !o.ok then o else RestArray(src, h, o.st)
  }

  /** What comes after the opening bracket. */
  function RestArray(src: Source, h: Handler, st: State): (r: Result)
    ensures r.ok ==> r.st.at > st.at
    decreases Left(src, st.at), if st.at <= src.e then 5 else 1
  {
    var b := if st.at <= src.e then ParseItems(src, h, st) else Result(true, st);
    if !b.ok then b else Close(src, h, b.st, ']', CloseBracketExpected, ArrayEnd)
  }

  /** The start of one turn of the loop over the items. */
  function StartItem(src: Source, st: State): (t: Turn)
    ensures t.Stop? ==> t.r.st.at >= st.at
    ensures t.ValueNext? ==> t.st.at >= st.at
  {
    var m := st.(at := Skip(src, st.at, NUL).at);
    if At(src, m.at) == ']' then Stop(Result(true, m)) else ValueNext(m)
  }

  function ParseItems(src: Source, h: Handler, st: State): (r: Result)
    requires st.at <= src.e
    ensures r.ok ==> r.st.at >= st.at
    decreases Left(src, st.at), 4
  {
    match StartItem(src, st)
    case Stop(r) => r
    case ValueNext(m) =>
      var v := ParseValue(src, h, m);
      if !v.ok then v
      else
        var comma := Skip(src, v.st.at, ',');
        var n := v.st.(at := comma.at);
        if comma.found && n.at <= src.e then ParseItems(src, h, n) else Result(true, n)
  }
}
