/** The text of a where-condition: how parse_where and the functions it calls build it
    (limestone/search.c), and how SQL reads it. */
module SearchText {
  import opened Common
  import opened Search

  // ---------------------------------------------------------------- reading text

  /** A literal's text up to its closing apostrophe; a doubled apostrophe stands for one. */
  datatype Read = Read(text: string, rest: string)

  function ReadQuoted(s: string): (r: Option<Read>)
    ensures r.Some? ==> |r.value.rest| < |s|
    ensures r.Some? ==>
      Count(s, '\'') == 1 + 2 * Count(r.value.text, '\'') + Count(r.value.rest, '\'')
  {
    if s == "" then None
    else if s[0] != '\'' then
      var r := ReadQuoted(s[1..]);
      if r.None? then None else Some(Read([s[0]] + r.value.text, r.value.rest))
    else if |s| > 1 && s[1] == '\'' then
      var r := ReadQuoted(s[1..][1..]);
      if r.None? then None else Some(Read("'" + r.value.text, r.value.rest))
    else Some(Read("", s[1..]))
  }

  function WordLength(s: string): (n: nat)
    ensures n <= |s| && (forall i :: 0 <= i < n ==> !Delim(s[i])) && (n < |s| ==> Delim(s[n]))
  {
    if s == "" || Delim(s[0]) then 0 else 1 + WordLength(s[1..])
  }

  function LineLength(s: string): (n: nat)
    ensures n <= |s|
  {
    if s == "" || s[0] == '\n' then 0 else 1 + LineLength(s[1..])
  }

  /** What a text starts with, and the text after it; a space and a comment give no token. */
  datatype Step = Step(tok: Option<Tok>, rest: string)

  function StepWeight(st: Step): nat {
    (if st.tok.Some? && st.tok.value.Quoted? then QuoteWeight(st.tok.value.text) else 0) + Count(st.rest, '\'')
  }

  /** No step when a literal is not closed.  Two hyphens start a comment. */
  function FirstStep(s: string): (r: Option<Step>)
    requires s != ""
    ensures r.Some? ==> |r.value.rest| < |s| && StepWeight(r.value) <= Count(s, '\'')
  {
    if s[0] == ' ' then Some(Step(None, s[1..]))
    else if s[0] == '(' then Some(Step(Some(LParen), s[1..]))
    else if s[0] == ')' then Some(Step(Some(RParen), s[1..]))
    else if s[0] == '\'' then
      var r := ReadQuoted(s[1..]);
      if r.None? then None else Some(Step(Some(Quoted(r.value.text)), r.value.rest))
    else
      var comment := |s| > 1 && s[0] == '-' && s[1] == '-';
      var n := 1 + if comment then LineLength(s[1..]) else WordLength(s[1..]);
      CountSplit(s, n, '\'');
      Some(Step(if comment then None else Some(Classify(s[..n])), s[n..]))
  }

  function Before(t: Option<Tok>, rest: Option<seq<Tok>>): Option<seq<Tok>> {
    if t.None? || rest.None? then rest else Some([t.value] + rest.value)
  }

  /** The tokens of a text. */
  function Lex(s: string): Option<seq<Tok>>
    decreases |s|
  {
    if s == "" then Some([])
    else
      var st := FirstStep(s);
      if st.None? then None else Before(st.value.tok, Lex(st.value.rest))
  }

  /** The condition a text is, if it is one. */
  function ReadSql(s: string): Option<Sql> {
    var ts := Lex(s);
    if ts.None? then None
    else
      var r := ParseExpr(ts.value);
      if r.Some? && r.value.rest == [] then Some(r.value.tree) else None
  }

  lemma {:induction false} CountConcat(a: string, b: string, c: char)
    ensures Count(a + b, c) == Count(a, c) + Count(b, c)
  {
    if a == "" {
      assert a + b == b;
    } else {
      CountConcat(a[1..], b, c);
      assert (a + b)[1..] == a[1..] + b;
    }
  }

  lemma {:induction false} CountNone(s: string, c: char)
    ensures Count(s, c) == 0 <==> c !in s
  {
    if s != "" {
      CountNone(s[1..], c);
      assert c in s <==> c == s[0] || c in s[1..];
    }
  }

  lemma CountSplit(s: string, n: nat, c: char)
    requires n <= |s|
    ensures Count(s, c) == Count(s[..n], c) + Count(s[n..], c)
  {
    CountConcat(s[..n], s[n..], c);
    assert s == s[..n] + s[n..];
  }

  /** Every literal read takes its apostrophes from the text. */
  lemma {:induction false} LexWeight(s: string)
    requires Lex(s).Some?
    ensures Weight(Lex(s).value) <= Count(s, '\'')
    decreases |s|
  {
    if s != "" {
      var st := FirstStep(s).value;
      LexWeight(st.rest);
      var more := Lex(st.rest).value;
      if st.tok.Some? {
        assert ([st.tok.value] + more)[1..] == more;
      }
    }
  }

  lemma LexSpace(s: string)
    ensures Lex(" " + s) == Lex(s)
  {
    assert (" " + s)[1..] == s;
  }

  lemma LexParen(p: char, s: string)
    requires p == '(' || p == ')'
    ensures Lex([p] + s) == Before(Some(if p == '(' then LParen else RParen), Lex(s))
  {
    assert ([p] + s)[1..] == s;
  }

  lemma LexParens(s: string)
    ensures Lex("( " + s) == Before(Some(LParen), Lex(s)) && Lex(" )" + s) == Before(Some(RParen), Lex(s))
  {
    assert "( " + s == ['('] + (" " + s) && " )" + s == " " + ([')'] + s);
    LexParen('(', " " + s);
    LexSpace(s);
    LexSpace([')'] + s);
    LexParen(')', s);
  }

  lemma {:induction false} WordLengthIs(w: string, s: string)
    requires (forall i :: 0 <= i < |w| ==> !Delim(w[i])) && s != "" && Delim(s[0])
    ensures WordLength(w + s) == |w|
  {
    if w == "" {
      assert w + s == s;
    } else {
      WordLengthIs(w[1..], s);
      assert (w + s)[1..] == w[1..] + s;
    }
  }

  /** A word and the space after it. */
  lemma LexWord(w: string, s: string)
    requires IsWord(w)
    ensures Lex(w + (" " + s)) == Before(Some(Classify(w)), Lex(s))
  {
    var u := w + (" " + s);
    assert u[0] == w[0] && !Delim(w[0]) && u[1..] == w[1..] + (" " + s);
    WordLengthIs(w[1..], " " + s);
    assert u[..|w|] == w && u[|w|..] == " " + s;
    assert FirstStep(u) == Some(Step(Some(Classify(w)), " " + s));
    LexSpace(s);
  }

  lemma {:induction false} ReadPlain(l: string, s: string)
    requires '\'' !in l && s != "" && s[0] != '\''
    ensures ReadQuoted(l + ("'" + s)) == Some(Read(l, s))
  {
    var u := l + ("'" + s);
    if l == "" {
      assert u == "'" + s && u[1..] == s;
    } else {
      ReadPlain(l[1..], s);
      assert u[1..] == l[1..] + ("'" + s) && l == [l[0]] + l[1..];
      assert l[0] in l && forall c :: c in l[1..] ==> c in l;
    }
  }

  lemma LexLiteral(l: string, s: string)
    requires '\'' !in l && s != "" && s[0] != '\''
    ensures Lex("'" + (l + ("'" + s))) == Before(Some(Quoted(l)), Lex(s))
  {
    var u := "'" + (l + ("'" + s));
    assert u[1..] == l + ("'" + s);
    ReadPlain(l, s);
  }

  // ---------------------------------------------------------------- the text that is built

  function Comparison(attr: string, op: string, literal: string): string {
    "( " + (attr + (" " + (op + (" '" + (literal + "' )")))))
  }

  /** Without a column the list of strings to append ends at the missing name. */
  function Defined(attrs: Attrs, prop: string): string {
    if prop in attrs then "( " + (attrs[prop] + " IS NOT NULL )") else "( "
  }

  /** Everything that is appended for w, also when it is refused on the way. */
  function Written(attrs: Attrs, w: Where): string
    decreases w, 0
  {
    match w
    case Compare(op, prop, literal) =>
      if HasOper(op) && prop in attrs then Comparison(attrs[prop], SqlOper(op), literal) else ""
    case IsCollection => Comparison("type", "=", "Collection")
    case IsDefined(prop) => Defined(attrs, prop)
    case Logic(op, args) =>
      if args.NoArgs? || op !in {"not", "and", "or"} then ""
      else if op == "not" then "( NOT " + (Written(attrs, args.first) + " )")
      else
        var rest := if Accepted(attrs, args.first) then WrittenRest(attrs, op, args.rest) else "";
        "( " + (Written(attrs, args.first) + rest)
    case Other(_) => ""
  }

  /** What follows an accepted operand. */
  function WrittenRest(attrs: Attrs, op: string, a: Args): string
    decreases a, 0
  {
    match a
    case NoArgs => " )"
    case More(first, rest) =>
      var next := if Accepted(attrs, first) then WrittenRest(attrs, op, rest) else "";
      " " + (op + (" " + (Written(attrs, first) + next)))
  }

  /** How many apostrophes the literals that are compiled contain. */
  function Loose(w: Where): nat
    decreases w, 0
  {
    match w
    case Compare(_, _, literal) => Count(literal, '\'')
    case IsCollection => 0
    case IsDefined(_) => 0
    case Logic(op, args) =>
      if args.NoArgs? then 0
      else if op == "not" then Loose(args.first)
      else Loose(args.first) + LooseRest(args.rest)
    case Other(_) => 0
  }

  function LooseRest(a: Args): nat
    decreases a, 0
  {
    match a
    case NoArgs => 0
    case More(first, rest) => Loose(first) + LooseRest(rest)
  }

  // ---------------------------------------------------------------- the text is read as its tokens

  lemma Join<T>(a: seq<T>, b: seq<T>, c: seq<T>)
    ensures a + b + c == a + (b + c)
  {
  }

  /** A comparison and what comes after it, from the inside out. */
  lemma ComparisonThen(attr: string, op: string, literal: string, after: string)
    ensures Comparison(attr, op, literal) + after ==
      "( " + (attr + (" " + (op + (" " + ("'" + (literal + ("'" + (" )" + after))))))))
  {
    var r5 := literal + "' )";
    var r4 := " '" + r5;
    var r3 := op + r4;
    var r2 := " " + r3;
    var r1 := attr + r2;
    Join("( ", r1, after);
    Join(attr, r2, after);
    Join(" ", r3, after);
    Join(op, r4, after);
    Join(" '", r5, after);
    Join(literal, "' )", after);
    assert "' )" + after == "'" + (" )" + after);
    assert " '" + (r5 + after) == " " + ("'" + (r5 + after));
  }

  lemma Five<T>(a: T, b: T, c: T, d: T, e: T, rest: seq<T>)
    ensures [a] + ([b] + ([c] + ([d] + ([e] + rest)))) == [a, b, c, d, e] + rest
  {
  }

  lemma LexComparison(attr: Column, op: string, literal: string, after: string, rest: seq<Tok>)
    requires IsWord(op) && '\'' !in literal && Lex(after) == Some(rest)
    ensures Lex(Comparison(attr, op, literal) + after) ==
      Some([LParen, Name(attr), Classify(op), Quoted(literal), RParen] + rest)
  {
    var close := " )" + after;
    var u3 := "'" + (literal + ("'" + close));
    var u2 := op + (" " + u3);
    ComparisonThen(attr, op, literal, after);
    LexParens(after);
    LexLiteral(literal, close);
    assert Lex(u3) == Some([Quoted(literal)] + ([RParen] + rest));
    LexWords(attr, op, u3, [Quoted(literal)] + ([RParen] + rest));
    Five(LParen, Name(attr), Classify(op), Quoted(literal), RParen, rest);
  }

  lemma LexWords(attr: Column, op: string, s: string, rest: seq<Tok>)
    requires IsWord(op) && Lex(s) == Some(rest)
    ensures Lex("( " + (attr + (" " + (op + (" " + s))))) == Some([LParen] + ([Name(attr)] + ([Classify(op)] + rest)))
  {
    var u := op + (" " + s);
    LexWord(op, s);
    LexWord(attr, u);
    LexParens(attr + (" " + u));
  }

  lemma NotText(text: string, w: string, body: string)
    requires text == "( NOT " && w == "NOT"
    ensures IsWord(w) && Classify(w) == NOT && text + body == "( " + (w + (" " + body))
  {
    assert text == "( " + (w + " ");
    Join("( ", w + " ", body);
    Join(w, " ", body);
  }

  lemma NotNullText(text: string, u: string, v: string, w: string, after: string)
    requires text == " IS NOT NULL )" && u == "IS" && v == "NOT" && w == "NULL"
    ensures IsWord(u) && IsWord(v) && IsWord(w) && Classify(u) == IS && Classify(v) == NOT && Classify(w) == NULL
    ensures text + after == " " + (u + (" " + (v + (" " + (w + (" )" + after))))))
  {
    var r5 := w + " )";
    var r4 := " " + r5;
    var r3 := v + r4;
    var r2 := " " + r3;
    var r1 := u + r2;
    assert text == " " + r1;
    Join(" ", r1, after);
    Join(u, r2, after);
    Join(" ", r3, after);
    Join(v, r4, after);
    Join(" ", r5, after);
    Join(w, " )", after);
  }

  lemma LexThree(u: string, v: string, w: string, s: string, rest: seq<Tok>)
    requires IsWord(u) && IsWord(v) && IsWord(w) && Lex(s) == Some(rest)
    ensures Lex(u + (" " + (v + (" " + (w + (" " + s)))))) ==
      Some([Classify(u)] + ([Classify(v)] + ([Classify(w)] + rest)))
  {
    LexWord(w, s);
    LexWord(v, w + (" " + s));
    LexWord(u, v + (" " + (w + (" " + s))));
  }

  lemma Six<T>(a: T, b: T, c: T, d: T, e: T, f: T, rest: seq<T>)
    ensures [a] + ([b] + ([c] + ([d] + ([e] + ([f] + rest))))) == [a, b, c, d, e, f] + rest
  {
  }

  lemma LexNotNull(attr: Column, text: string, u: string, v: string, w: string, after: string, rest: seq<Tok>)
    requires IsWord(u) && IsWord(v) && IsWord(w) && Lex(after) == Some(rest)
    requires text + after == " " + (u + (" " + (v + (" " + (w + (" )" + after))))))
    ensures Lex("( " + (attr + text) + after) ==
      Some([LParen, Name(attr), Classify(u), Classify(v), Classify(w), RParen] + rest)
  {
    var close := ")" + after;
    assert " )" + after == " " + close;
    Join("( ", attr + text, after);
    Join(attr, text, after);
    LexParen(')', after);
    LexThree(u, v, w, close, [RParen] + rest);
    var body := u + (" " + (v + (" " + (w + (" " + close)))));
    LexWord(attr, body);
    LexParens(attr + (" " + body));
    Six(LParen, Name(attr), Classify(u), Classify(v), Classify(w), RParen, rest);
  }

  lemma LexDefined(attrs: Attrs, prop: string, after: string, rest: seq<Tok>)
    requires prop in attrs && Lex(after) == Some(rest)
    ensures Lex(Defined(attrs, prop) + after) == Some([LParen, Name(attrs[prop]), IS, NOT, NULL, RParen] + rest)
  {
    NotNullText(" IS NOT NULL )", "IS", "NOT", "NULL", after);
    LexNotNull(attrs[prop], " IS NOT NULL )", "IS", "NOT", "NULL", after, rest);
  }

  lemma LexNegated(text: string, body: string, ts: seq<Tok>)
    requires text == "( NOT " && Lex(body) == Some(ts)
    ensures Lex(text + body) == Some([LParen, NOT] + ts)
  {
    var w := "NOT";
    NotText(text, w, body);
    LexOneWord(text, w, body, ts);
    Two(LParen, NOT, ts);
  }

  lemma Two<T>(a: T, b: T, rest: seq<T>)
    ensures [a] + ([b] + rest) == [a, b] + rest
  {
  }

  lemma LexOneWord(text: string, w: string, body: string, ts: seq<Tok>)
    requires IsWord(w) && text + body == "( " + (w + (" " + body)) && Lex(body) == Some(ts)
    ensures Lex(text + body) == Some([LParen] + ([Classify(w)] + ts))
  {
    LexWord(w, body);
    LexParens(w + (" " + body));
  }

  lemma LexJoined(op: string, body: string, ts: seq<Tok>)
    requires (op == "and" || op == "or") && Lex(body) == Some(ts)
    ensures Lex(" " + (op + (" " + body))) == Some([if op == "and" then AND else OR] + ts)
  {
    LexWord(op, body);
    LexSpace(op + (" " + body));
  }

  lemma OperIsWord(op: string)
    requires HasOper(op)
    ensures IsWord(SqlOper(op)) && Classify(SqlOper(op)) == Oper(SqlOper(op)) && '\'' !in SqlOper(op)
  {
  }

  /** Without apostrophes in its literals, what is appended for an accepted element is read as
      its tokens. */
  lemma {:induction false} LexWritten(attrs: Attrs, w: Where, after: string, rest: seq<Tok>)
    requires Accepted(attrs, w) && Loose(w) == 0 && Lex(after) == Some(rest)
    ensures Lex(Written(attrs, w) + after) == Some(Emit(attrs, w, rest))
    decreases w, 1
  {
    match w
    case Compare(op, prop, literal) =>
      OperIsWord(op);
      CountNone(literal, '\'');
      LexComparison(attrs[prop], SqlOper(op), literal, after, rest);
    case IsCollection => LexComparison("type", "=", "Collection", after, rest);
    case IsDefined(prop) =>
      if prop in attrs {
        LexDefined(attrs, prop, after, rest);
      } else {
        LexParens(after);
      }
    case Logic(op, args) => LexLogic(attrs, op, args, after, rest);
  }

  lemma {:induction false} LexLogic(attrs: Attrs, op: string, args: Args, after: string, rest: seq<Tok>)
    requires Accepted(attrs, Logic(op, args)) && Loose(Logic(op, args)) == 0 && Lex(after) == Some(rest)
    ensures Lex(Written(attrs, Logic(op, args)) + after) == Some(Emit(attrs, Logic(op, args), rest))
    decreases args, 2
  {
    var first := Written(attrs, args.first);
    if op == "not" {
      LexParens(after);
      LexWritten(attrs, args.first, " )" + after, [RParen] + rest);
      LexNegated("( NOT ", first + (" )" + after), Emit(attrs, args.first, [RParen] + rest));
      Join("( NOT ", first + " )", after);
      Join(first, " )", after);
    } else {
      var more := WrittenRest(attrs, op, args.rest);
      var ts := EmitRest(attrs, if op == "and" then AND else OR, args.rest, [RParen] + rest);
      LexRest(attrs, op, args.rest, after, rest);
      LexWritten(attrs, args.first, more + after, ts);
      LexParens(first + (more + after));
      Join("( ", first + more, after);
      Join(first, more, after);
    }
  }

  lemma {:induction false} LexRest(attrs: Attrs, op: string, a: Args, after: string, rest: seq<Tok>)
    requires (op == "and" || op == "or") && AllAccepted(attrs, a) && LooseRest(a) == 0 && Lex(after) == Some(rest)
    ensures Lex(WrittenRest(attrs, op, a) + after) ==
      Some(EmitRest(attrs, if op == "and" then AND else OR, a, [RParen] + rest))
    decreases a, 1
  {
    match a
    case NoArgs => LexParens(after);
    case More(first, more) =>
      var u, v := Written(attrs, first), WrittenRest(attrs, op, more);
      var ts := EmitRest(attrs, if op == "and" then AND else OR, more, [RParen] + rest);
      LexRest(attrs, op, more, after, rest);
      LexWritten(attrs, first, v + after, ts);
      LexJoined(op, u + (v + after), Emit(attrs, first, ts));
      Join(" ", op + (" " + (u + v)), after);
      Join(op, " " + (u + v), after);
      Join(" ", u + v, after);
      Join(u, v, after);
  }

  // ---------------------------------------------------------------- and with apostrophes

  lemma NoApostrophe(s: string)
    requires forall i :: 0 <= i < |s| ==> !Delim(s[i])
    ensures Count(s, '\'') == 0
  {
    CountNone(s, '\'');
  }

  lemma ComparisonCount(attr: Column, op: string, literal: string)
    requires Count(op, '\'') == 0
    ensures Count(Comparison(attr, op, literal), '\'') == 2 + Count(literal, '\'')
  {
    NoApostrophe(attr);
    var r5 := literal + "' )";
    var r4 := " '" + r5;
    var r3 := op + r4;
    var r2 := " " + r3;
    var r1 := attr + r2;
    CountConcat("( ", r1, '\'');
    CountConcat(attr, r2, '\'');
    CountConcat(" ", r3, '\'');
    CountConcat(op, r4, '\'');
    CountConcat(" '", r5, '\'');
    CountConcat(literal, "' )", '\'');
  }

  lemma PlainCount(attr: Column, op: string, literal: string)
    requires IsWord(op) && IsWord(literal)
    ensures Count(Comparison(attr, op, literal), '\'') == QuoteWeight(literal) == 2
  {
    NoApostrophe(op);
    NoApostrophe(literal);
    ComparisonCount(attr, op, literal);
  }

  lemma DefinedCount(attr: Column, text: string)
    requires '\'' !in text
    ensures Count("( " + (attr + text), '\'') == 0
  {
    NoApostrophe(attr);
    CountNone(text, '\'');
    CountConcat("( ", attr + text, '\'');
    CountConcat(attr, text, '\'');
  }

  lemma AroundCount(before: string, body: string, after: string)
    requires '\'' !in before && '\'' !in after
    ensures Count(before + (body + after), '\'') == Count(body, '\'')
  {
    CountConcat(before, body + after, '\'');
    CountConcat(body, after, '\'');
    CountNone(before, '\'');
    CountNone(after, '\'');
  }

  lemma JoinedCount(op: string, first: string, next: string)
    requires '\'' !in op
    ensures Count(" " + (op + (" " + (first + next))), '\'') == Count(first, '\'') + Count(next, '\'')
  {
    CountConcat(" ", op + (" " + (first + next)), '\'');
    CountConcat(op, " " + (first + next), '\'');
    CountConcat(" ", first + next, '\'');
    CountConcat(first, next, '\'');
    CountNone(op, '\'');
  }

  /** The text has fewer apostrophes than its tree takes, by those in the literals. */
  lemma {:induction false} WrittenCount(attrs: Attrs, w: Where)
    requires Accepted(attrs, w) && Columns(attrs, w)
    ensures Count(Written(attrs, w), '\'') + Loose(w) == TreeWeight(Tree(attrs, w))
    decreases w, 1
  {
    match w
    case Compare(op, prop, literal) =>
      OperIsWord(op);
      CountNone(SqlOper(op), '\'');
      ComparisonCount(attrs[prop], SqlOper(op), literal);
    case IsCollection =>
      PlainCount("type", "=", "Collection");
    case IsDefined(prop) =>
      DefinedCount(attrs[prop], " IS NOT NULL )");
    case Logic(op, args) => LogicCount(attrs, op, args);
  }

  lemma {:induction false} LogicCount(attrs: Attrs, op: string, args: Args)
    requires Accepted(attrs, Logic(op, args)) && Columns(attrs, Logic(op, args))
    ensures Count(Written(attrs, Logic(op, args)), '\'') + Loose(Logic(op, args)) ==
      TreeWeight(Tree(attrs, Logic(op, args)))
    decreases args, 2
  {
    WrittenCount(attrs, args.first);
    if op == "not" {
      NegatedCount(attrs, op, args);
    } else {
      RestCount(attrs, op, Tree(attrs, args.first), args.rest);
      OpenedCount("( ", Written(attrs, args.first), WrittenRest(attrs, op, args.rest));
    }
  }

  lemma NegatedCount(attrs: Attrs, op: string, args: Args)
    requires Accepted(attrs, Logic(op, args)) && Columns(attrs, Logic(op, args)) && op == "not"
    ensures Count(Written(attrs, Logic(op, args)), '\'') == Count(Written(attrs, args.first), '\'')
    ensures Loose(Logic(op, args)) == Loose(args.first)
    ensures TreeWeight(Tree(attrs, Logic(op, args))) == TreeWeight(Tree(attrs, args.first))
  {
    NotCount(attrs, op, args, "( NOT ");
  }

  lemma NotCount(attrs: Attrs, op: string, args: Args, text: string)
    requires Accepted(attrs, Logic(op, args)) && op == "not" && '\'' !in text
    requires Written(attrs, Logic(op, args)) == text + (Written(attrs, args.first) + " )")
    ensures Count(Written(attrs, Logic(op, args)), '\'') == Count(Written(attrs, args.first), '\'')
  {
    AroundCount(text, Written(attrs, args.first), " )");
  }

  lemma OpenedCount(before: string, first: string, more: string)
    requires '\'' !in before
    ensures Count(before + (first + more), '\'') == Count(first, '\'') + Count(more, '\'')
  {
    CountConcat(before, first + more, '\'');
    CountConcat(first, more, '\'');
    CountNone(before, '\'');
  }

  lemma {:induction false} RestCount(attrs: Attrs, op: string, left: Sql, a: Args)
    requires (op == "and" || op == "or") && AllAccepted(attrs, a) && AllColumns(attrs, a)
    ensures TreeWeight(left) + Count(WrittenRest(attrs, op, a), '\'') + LooseRest(a) ==
      TreeWeight(Fold(attrs, op == "and", left, a))
    decreases a, 1
  {
    match a
    case NoArgs => CountNone(" )", '\'');
    case More(first, more) =>
      var t := Tree(attrs, first);
      var u, v := Written(attrs, first), WrittenRest(attrs, op, more);
      WrittenCount(attrs, first);
      RestCount(attrs, op, if op == "and" then SAnd(left, t) else SOr(left, t), more);
      JoinedCount(op, u, v);
      assert WrittenRest(attrs, op, a) == " " + (op + (" " + (u + v)));
      assert LooseRest(a) == Loose(first) + LooseRest(more);
  }

  // ---------------------------------------------------------------- what the text means

  /** The text is read as the condition asked for exactly when no literal that is compiled
      contains an apostrophe, and every is-defined names a property with a column.  (A text
      with apostrophes can well be read as some other condition.) */
  lemma ReadsBackIff(attrs: Attrs, w: Where)
    requires Accepted(attrs, w)
    ensures Columns(attrs, w) ==> (ReadSql(Written(attrs, w)) == Some(Tree(attrs, w)) <==> Loose(w) == 0)
    ensures Loose(w) == 0 ==> (ReadSql(Written(attrs, w)).Some? <==> Columns(attrs, w))
  {
    var text := Written(attrs, w);
    assert text + "" == text;
    TokensReadBackIff(attrs, w);
    if Loose(w) == 0 {
      LexWritten(attrs, w, "", []);
    }
    if Columns(attrs, w) && ReadSql(text) == Some(Tree(attrs, w)) {
      LexWeight(text);
      WrittenCount(attrs, w);
    }
  }

  /** What is left behind an accepted request, in front of any text, is read as one operand
      that means what was asked for. */
  lemma CompiledMeans(attrs: Attrs, env: RowEnv, w: Where, after: string, rest: seq<Tok>)
    requires Accepted(attrs, w) && Columns(attrs, w) && Loose(w) == 0 && Lex(after) == Some(rest)
    ensures exists ts, t ::
      && Lex(Written(attrs, w) + after) == Some(ts) && ParsePrimary(ts) == Some(Parsed(t, rest))
      && forall b :: SqlMeaning(env, t) == TruthOf(b) <==> Verdict(attrs, env, w, b)
  {
    LexWritten(attrs, w, after, rest);
    ReadPrimary(attrs, w, rest);
    TreeMeans(attrs, env, w, true);
    TreeMeans(attrs, env, w, false);
  }

  /** A name that is not looked for. */
  lemma NamedOBrien(attrs: Attrs, w: Where)
    requires "displayname" in attrs && w == Compare("eq", "displayname", "O'Brien")
    ensures Accepted(attrs, w) && Columns(attrs, w) && ReadSql(Written(attrs, w)) != Some(Tree(attrs, w))
  {
    ReadsBackIff(attrs, w);
    CountNone("O'Brien", '\'');
    assert "O'Brien"[1] == '\'';
  }

  // ---------------------------------------------------------------- the search context

  datatype Status = HttpOk | HttpBadRequest

  /** search_ctx; there may be no condition at all (NULL). */
  class SearchContext {
    const attrs: Attrs
    var whereCond: Option<string>

    constructor (attrs: Attrs)
      ensures this.attrs == attrs && whereCond == None
    {
      this.attrs := attrs;
      whereCond := None;
    }

    /** The condition, or the space it is started with. */
    function Text(): string
      reads this`whereCond
    {
      if whereCond.Some? then whereCond.value else " "
    }

    method Append(s: string)
      modifies this`whereCond
      ensures whereCond == Some(old(Text()) + s)
    {
      if whereCond == None {
        whereCond := Some(" ");
      }
      whereCond := Some(whereCond.value + s);
    }

    /** The condition grows by what is written for w, and is untouched if that is nothing. */
    method ParseWhere(w: Where) returns (status: Status)
      modifies this`whereCond
      ensures status == HttpOk <==> Accepted(attrs, w)
      ensures Text() == old(Text()) + Written(attrs, w)
      ensures whereCond == None <==> old(whereCond) == None && Written(attrs, w) == ""
      decreases w, 2
    {
      match w
      case Compare(op, prop, literal) =>
        status := ParseCompOps(op, prop, literal);
      case IsCollection =>
        Append(Comparison("type", "=", "Collection"));
        status := HttpOk;
      case IsDefined(prop) =>
        Append(Defined(attrs, prop));
        status := HttpOk;
      case Logic(op, args) =>
        if op in {"and", "or", "not"} {
          status := ParseLogOps(op, args, w);
        } else {
          status := HttpBadRequest;
        }
      case Other(_) =>
        status := HttpBadRequest;
    }

    method ParseCompOps(op: string, prop: string, literal: string) returns (status: Status)
      modifies this`whereCond
      ensures status == HttpOk <==> op in {"eq", "lt", "gt", "lte", "gte", "like"} && prop in attrs
      ensures status == HttpOk ==> whereCond == Some(old(Text()) + Comparison(attrs[prop], SqlOper(op), literal))
      ensures status != HttpOk ==> whereCond == old(whereCond)
    {
      if !HasOper(op) || prop !in attrs {
        return HttpBadRequest;
      }
      Append(Comparison(attrs[prop], SqlOper(op), literal));
      status := HttpOk;
    }

    method ParseLogOps(op: string, args: Args, ghost w: Where) returns (status: Status)
      requires op in {"and", "or", "not"} && w == Logic(op, args)
      modifies this`whereCond
      ensures status == HttpOk <==> Accepted(attrs, w)
      ensures Text() == old(Text()) + Written(attrs, w)
      ensures whereCond == None <==> old(whereCond) == None && Written(attrs, w) == ""
      decreases w, 1
    {
      if args.NoArgs? {
        return HttpBadRequest;
      }
      ghost var before, first := Text(), Written(attrs, args.first);
      if op == "not" {
        Append("( NOT ");
        status := ParseWhere(args.first);
        Append(" )");
        Join(before + "( NOT ", first, " )");
        Join(before, "( NOT ", first + " )");
      } else {
        Append("( ");
        status := ParseWhere(args.first);
        Join(before, "( ", first);
        if status == HttpOk {
          status := ParseOperands(op, args.rest);
          Join(before + "( ", first, WrittenRest(attrs, op, args.rest));
          Join(before, "( ", first + WrittenRest(attrs, op, args.rest));
        } else {
          assert first + "" == first;
        }
      }
    }

    /** The loop over the operands after the first. */
    method ParseOperands(op: string, rest: Args) returns (status: Status)
      requires whereCond.Some?
      modifies this`whereCond
      ensures whereCond.Some? && Text() == old(Text()) + WrittenRest(attrs, op, rest)
      ensures status == HttpOk <==> AllAccepted(attrs, rest)
      decreases rest, 3
    {
      var iter := rest;
      ghost var goal := Text() + WrittenRest(attrs, op, rest);
      while iter.More?
        invariant whereCond.Some?
        invariant iter == rest || iter < rest
        invariant goal == Text() + WrittenRest(attrs, op, iter)
        invariant AllAccepted(attrs, rest) <==> AllAccepted(attrs, iter)
        decreases iter
      {
        ghost var before, first := Text(), Written(attrs, iter.first);
        Append(" " + (op + " "));
        status := ParseWhere(iter.first);
        OperandAppended(before, op, first, if status == HttpOk then WrittenRest(attrs, op, iter.rest) else "");
        if status != HttpOk {
          assert Text() + "" == Text();
          return;
        }
        iter := iter.rest;
      }
      Append(" )");
      status := HttpOk;
    }
  }

  lemma OperandAppended(before: string, op: string, first: string, next: string)
    ensures before + (" " + (op + " ")) + first + next == before + (" " + (op + (" " + (first + next))))
  {
    Join(before + (" " + (op + " ")), first, next);
    Join(before, " " + (op + " "), first + next);
    Join(" ", op + " ", first + next);
    Join(op, " ", first + next);
  }
}
