/**
 The parser as the original runs it: methods that move the cursor of a section over a text in memory and record
 the callbacks. The memory ends, somewhere after the section, in a character that no token goes on into, such as the
 NUL of a C string that does not end in a numeric character; no method reads past it.
 */
module JsonParser {
  import opened JsonModel
  import opened JsonBounds
  import JsonAccepts

  const NUMERIC := "0123456789+-.eE"
  const WHITESPACE := " \t\r\n"

  class Section {
    var s: nat
    const e: int

    constructor (s: nat, e: int)
      ensures this.s == s && this.e == e
    {
      this.s := s;
      this.e := e;
    }
  }

  /** `strchr(set, c)` finds the character, or the NUL at the end of the set. */
  predicate Strchr(set_: string, c: char) {
    c in set_ || c == NUL
  }

  lemma StrchrSets(c: char)
    ensures Strchr(NUMERIC, c) <==> Numeric(c)
    ensures Strchr(WHITESPACE, c) <==> Skips(c)
    ensures Strchr(WHITESPACE + ",}]", c) <==> Ends(c) || c == NUL
  {
  }

  class Parser {
    const text: string
    const handler: Handler
    var trace: seq<Event>
    var err: Error
    var errAt: int

    constructor (text: string, handler: Handler)
      ensures this.text == text && this.handler == handler
      ensures trace == [] && err == Okay && errAt == NO_CHAR
    {
      this.text := text;
      this.handler := handler;
      trace := [];
      err := Okay;
      errAt := NO_CHAR;
    }

    ghost function Src(sec: Section): Source {
      Source(text, sec.e)
    }

    ghost function St(sec: Section): State
      reads this, sec
    {
      State(sec.s, trace, err, errAt)
    }

    /** The cursor is inside a memory that ends, after the section, in a character that no token goes on into. */
    ghost predicate Fenced(sec: Section)
      reads sec
    {
      sec.e + 1 < |text| && sec.s < |text| && Wall(text, |text| - 1)
    }

    method Skip(sec: Section, c: char) returns (found: bool)
      requires Fenced(sec)
      modifies sec
      ensures Fenced(sec)
      ensures Skipped(found, sec.s) == JsonModel.Skip(Src(sec), old(sec.s), c)
    {
      while sec.s <= sec.e
        invariant Fenced(sec)
        invariant JsonModel.Skip(Src(sec), old(sec.s), c) == JsonModel.Skip(Src(sec), sec.s, c)
        decreases sec.e - sec.s
      {
        if c == text[sec.s] {
          sec.s := sec.s + 1;
          return true;
        }
        StrchrSets(text[sec.s]);
        if !Strchr(WHITESPACE, text[sec.s]) {
          return false;
        }
        sec.s := sec.s + 1;
      }
      return false;
    }

    method Callback(sec: Section, ev: Event) returns (ok: bool)
      modifies this
      ensures Result(ok, St(sec)) == Emit(handler, old(St(sec)), ev)
    {
      trace := trace + [ev];
      ok := handler(trace);
      if !ok {
        err := UserError;
        errAt := sec.s;
      }
    }

    method Error(sec: Section, error: Error) returns (ok: bool)
      modifies this
      ensures Result(ok, St(sec)) == Fail(old(St(sec)), error)
    {
      err := error;
      errAt := sec.s;
      return false;
    }

    /** The loop of `Number`: how far it gets, and the last character it takes. */
    method NumberRun(sec: Section) returns (s: nat, last: int)
      requires Fenced(sec) && sec.s <= sec.e
      ensures s < |text| && s == NumberEnd(Src(sec), sec.s)
      ensures last == if s > sec.s then s - 1 else NO_CHAR
    {
      s, last := sec.s, NO_CHAR;
      StrchrSets(text[s]);
      while Strchr(NUMERIC, text[s])
        invariant sec.s <= s < |text| && NumberEnd(Src(sec), sec.s) == NumberEnd(Src(sec), s)
        invariant last == if s > sec.s then s - 1 else NO_CHAR
        invariant Strchr(NUMERIC, text[s]) <==> Numeric(text[s])
        invariant s > sec.s ==> Numeric(text[s - 1])
        decreases |text| - s
      {
        assert s == |text| - 1 ==> !Joins(text[s - 1], text[s]);
        last := s;
        s := s + 1;
        StrchrSets(text[s]);
      }
    }

    method Number(sec: Section) returns (ok: bool)
      requires Fenced(sec)
      modifies this, sec
      ensures Fenced(sec)
      ensures Result(ok, St(sec)) == ParseNumber(Src(sec), handler, old(St(sec)))
    {
      var s, last := sec.s, NO_CHAR;
      if sec.s <= sec.e {
        s, last := NumberRun(sec);
      }
      var start := sec.s;
      sec.s := s;
      ok := Callback(sec, Event.Number(start, last));
    }

    method String(sec: Section, key: bool) returns (ok: bool)
      requires Fenced(sec)
      modifies this, sec
      ensures Fenced(sec)
      ensures Result(ok, St(sec)) == ParseString(Src(sec), handler, old(St(sec)), key)
    {
      var s := sec.s + 1;
      var escape := false;
      var closed := false;
      while s <= sec.e
        invariant s >= sec.s + 1
        invariant ClosingQuote(Src(sec), sec.s + 1, false) == ClosingQuote(Src(sec), s, escape)
      {
        if text[s] == '"' && !escape {
          closed := true;
          break;
        }
        escape := if escape then false else text[s] == '\\';
        s := s + 1;
      }
      if s > sec.e {
        ok := Error(sec, UnterminatedString);
        return;
      }
      var start := sec.s + 1;
      sec.s := s + 1;
      ok := Callback(sec, Text(start, s - 1, key));
    }

    /** `strncmp` of a literal against the text: it stops at the first difference. */
    method Differs(at: nat, literal: string, ghost l: Literal) returns (differs: bool)
      requires at < |text| && Wall(text, |text| - 1) && literal == Spelling(l)
      ensures differs <==> exists i :: 0 <= i < |literal| && (at + i >= |text| || text[at + i] != literal[i])
      ensures !differs ==> at + |literal| < |text|
    {
      var i := 0;
      while i < |literal|
        invariant 0 <= i <= |literal| && at + i < |text|
        invariant forall j :: 0 <= j < i ==> text[at + j] == literal[j]
      {
        if text[at + i] != literal[i] {
          return true;
        }
        SpellingJoins(l, i);
        i := i + 1;
      }
      return false;
    }

    method IsLiteral(sec: Section, l: Literal) returns (yes: bool)
      requires Fenced(sec)
      ensures yes <==> LiteralAt(Src(sec), sec.s, l)
      ensures yes ==> sec.s + |Spelling(l)| < |text|
    {
      var literal := Spelling(l);
      var differs := Differs(sec.s, literal, l);
      if differs {
        ghost var i :| 0 <= i < |literal| && (sec.s + i >= |text| || text[sec.s + i] != literal[i]);
        assert At(Src(sec), sec.s + i) != literal[i];
        return false;
      }
      StrchrSets(text[sec.s + |literal|]);
      return Strchr(WHITESPACE + ",}]", text[sec.s + |literal|]);
    }

    method Primitive(sec: Section) returns (ok: bool)
      requires Fenced(sec)
      modifies this, sec
      ensures Fenced(sec)
      ensures Result(ok, St(sec)) == ParsePrimitive(Src(sec), handler, old(St(sec)))
    {
      var primitives := [False, True, Null];
      assert primitives[0] == False && primitives[1] == True && primitives[2] == Null;
      for i := 0 to |primitives|
        invariant St(sec) == old(St(sec)) && Fenced(sec)
        invariant forall j :: 0 <= j < i ==> !LiteralAt(Src(sec), sec.s, primitives[j])
      {
        var here := IsLiteral(sec, primitives[i]);
        if here {
          assert i == 0 || i == 1 || i == 2;
          ok := Callback(sec, Event.Primitive(primitives[i]));
          if ok {
            sec.s := sec.s + |Spelling(primitives[i])|;
          }
          return;
        }
      }
      return false;
    }

    method Object(sec: Section) returns (ok: bool)
      requires Fenced(sec) && text[sec.s] == '{'
      modifies this, sec
      ensures Fenced(sec)
      ensures Result(ok, St(sec)) == ParseObject(Src(sec), handler, old(St(sec)))
      decreases Left(Src(sec), sec.s), 2
    {
      sec.s := sec.s + 1;
      ok := Callback(sec, ObjectBegin);
      if ok {
        ok := RestOfObject(sec);
      }
    }

    /** `Object` after the opening brace. */
    method RestOfObject(sec: Section) returns (ok: bool)
      requires Fenced(sec)
      modifies this, sec
      ensures Fenced(sec)
      ensures Result(ok, St(sec)) == RestObject(Src(sec), handler, old(St(sec)))
      decreases Left(Src(sec), sec.s), if sec.s <= sec.e then 6 else 1
    {
      if sec.s <= sec.e {
        ok := Members(sec);
        if !ok {
          return;
        }
      }
      var closed := Skip(sec, '}');
      if !closed {
        ok := Error(sec, CloseBraceExpected);
        return;
      }
      ok := Callback(sec, ObjectEnd);
    }

    /** The loop of `Object`. */
    method Members(sec: Section) returns (ok: bool)
      requires Fenced(sec) && sec.s <= sec.e
      modifies this, sec
      ensures Fenced(sec)
      ensures Result(ok, St(sec)) == ParseMembers(Src(sec), handler, old(St(sec)))
      decreases Left(Src(sec), sec.s), 5
    {
      ghost var src, loop := Src(sec), ParseMembers(Src(sec), handler, St(sec));
      var more := true;
      while more && sec.s <= sec.e
        invariant Fenced(sec) && sec.s >= old(sec.s)
        invariant loop == if more && sec.s <= sec.e then ParseMembers(src, handler, St(sec)) else Result(true, St(sec))
        decreases more, Left(src, sec.s)
      {
        ok, more := Member(sec);
        if !ok {
          return;
        }
      }
      return true;
    }

    /** One turn of that loop; `more` says whether to go round again. */
    method Member(sec: Section) returns (ok: bool, more: bool)
      requires Fenced(sec) && sec.s <= sec.e
      modifies this, sec
      ensures Fenced(sec)
      ensures ok ==> sec.s >= old(sec.s) && (more ==> sec.s > old(sec.s))
      ensures ParseMembers(Src(sec), handler, old(St(sec))) ==
              if ok && more && sec.s <= sec.e then ParseMembers(Src(sec), handler, St(sec)) else Result(ok, St(sec))
      decreases Left(Src(sec), sec.s), 4
    {
      more := false;
      var _ := Skip(sec, NUL);
      if text[sec.s] == '}' {
        ok := true;
        return;
      }
      if text[sec.s] != '"' {
        ok := Error(sec, KeyExpected);
        return;
      }
      ok := String(sec, true);
      if !ok {
        return;
      }
      var colon := Skip(sec, ':');
      if !colon {
        ok := Error(sec, ColonExpected);
        return;
      }
      ok := Value(sec);
      if ok {
        more := Skip(sec, ',');
      }
    }

    method Array(sec: Section) returns (ok: bool)
      requires Fenced(sec) && text[sec.s] == '['
      modifies this, sec
      ensures Fenced(sec)
      ensures Result(ok, St(sec)) == ParseArray(Src(sec), handler, old(St(sec)))
      decreases Left(Src(sec), sec.s), 2
    {
      sec.s := sec.s + 1;
      ok := Callback(sec, ArrayBegin);
      if ok {
        ok := RestOfArray(sec);
      }
    }

    /** `Array` after the opening bracket. */
    method RestOfArray(sec: Section) returns (ok: bool)
      requires Fenced(sec)
      modifies this, sec
      ensures Fenced(sec)
      ensures Result(ok, St(sec)) == RestArray(Src(sec), handler, old(St(sec)))
      decreases Left(Src(sec), sec.s), if sec.s <= sec.e then 6 else 1
    {
      if sec.s <= sec.e {
        ok := Items(sec);
        if !ok {
          return;
        }
      }
      var closed := Skip(sec, ']');
      if !closed {
        ok := Error(sec, CloseBracketExpected);
        return;
      }
      ok := Callback(sec, ArrayEnd);
    }

    /** The loop of `Array`. */
    method Items(sec: Section) returns (ok: bool)
      requires Fenced(sec) && sec.s <= sec.e
      modifies this, sec
      ensures Fenced(sec)
      ensures Result(ok, St(sec)) == ParseItems(Src(sec), handler, old(St(sec)))
      decreases Left(Src(sec), sec.s), 5
    {
      ghost var src, loop := Src(sec), ParseItems(Src(sec), handler, St(sec));
      var more := true;
      while more && sec.s <= sec.e
        invariant Fenced(sec) && sec.s >= old(sec.s)
        invariant loop == if more && sec.s <= sec.e then ParseItems(src, handler, St(sec)) else Result(true, St(sec))
        decreases more, Left(src, sec.s)
      {
        ok, more := Item(sec);
        if !ok {
          return;
        }
      }
      return true;
    }

    /** One turn of that loop; `more` says whether to go round again. */
    method Item(sec: Section) returns (ok: bool, more: bool)
      requires Fenced(sec) && sec.s <= sec.e
      modifies this, sec
      ensures Fenced(sec)
      ensures ok ==> sec.s >= old(sec.s) && (more ==> sec.s > old(sec.s))
      ensures ParseItems(Src(sec), handler, old(St(sec))) ==
              if ok && more && sec.s <= sec.e then ParseItems(Src(sec), handler, St(sec)) else Result(ok, St(sec))
      decreases Left(Src(sec), sec.s), 4
    {
      more := false;
      var _ := Skip(sec, NUL);
      if text[sec.s] == ']' {
        ok := true;
        return;
      }
      ok := Value(sec);
      if ok {
        more := Skip(sec, ',');
      }
    }

    method Value(sec: Section) returns (ok: bool)
      requires Fenced(sec)
      modifies this, sec
      ensures Fenced(sec)
      ensures Result(ok, St(sec)) == ParseValue(Src(sec), handler, old(St(sec)))
      decreases Left(Src(sec), sec.s), 3
    {
      var _ := Skip(sec, NUL);
      var c := text[sec.s];
      StrchrSets(c);
      if Strchr(NUMERIC, c) {
        ok := Number(sec);
      } else if c == '{' {
        ok := Object(sec);
      } else if c == '[' {
        ok := Array(sec);
      } else if c == '"' {
        ok := String(sec, false);
      } else {
        ok := Primitive(sec);
      }
    }

    /** No NUL in the section, and an object or an array begins at the cursor. */
    ghost predicate CleanContainer(sec: Section)
      reads sec
    {
      && 0 <= sec.e < |text| && (forall i :: 0 <= i <= sec.e ==> text[i] != NUL)
      && JsonAccepts.ContainerAt(text, sec.e, sec.s)
    }

    /** A new parser that no callback is refused by takes exactly the documents. */
    method Parse(sec: Section) returns (ok: bool)
      requires Fenced(sec)
      modifies this, sec
      ensures Fenced(sec)
      ensures Result(ok, St(sec)) == ParseValue(Src(sec), handler, old(St(sec)))
      ensures old(trace) == [] && old(err) == Okay && old(CleanContainer(sec)) && err != UserError ==>
                (ok <==> exists gap, v :: JsonAccepts.DocumentAt(text, sec.e, old(sec.s), gap, v))
    {
      if trace == [] && err == Okay && CleanContainer(sec) {
        JsonAccepts.AcceptedWithHandler(text, sec.e, sec.s, handler, errAt);
      }
      ok := Value(sec);
    }
  }
}
