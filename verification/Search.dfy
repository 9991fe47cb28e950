/** The where-clauses of SEARCH and the SQL conditions they are compiled to (limestone/search.c;
    section 5.5 of RFC 5323).  Here a condition is a list of tokens; SearchText has the text. */
module Search {
  import opened Common

  // ---------------------------------------------------------------- the two languages

  /** An element below DAV:where. */
  datatype Where =
    | Compare(op: string, prop: string, literal: string)
    | IsCollection
    | IsDefined(prop: string)
    | Logic(op: string, args: Args)
    | Other(name: string)

  datatype Args = NoArgs | More(first: Where, rest: Args)

  datatype Tok =
    | LParen | RParen | NOT | AND | OR | IS | NULL
    | Name(attr: string) | Oper(op: string) | Quoted(text: string)

  datatype Sql =
    | Cmp(attr: string, op: string, text: string)
    | NotNull(attr: string)
    | SNot(arg: Sql)
    | SAnd(left: Sql, right: Sql)
    | SOr(left: Sql, right: Sql)

  /** get_comp_ops_map */
  predicate HasOper(op: string) {
    op in {"eq", "lt", "gt", "lte", "gte", "like"}
  }

  function SqlOper(op: string): string
    requires HasOper(op)
  {
    if op == "eq" then "=" else if op == "lt" then "<" else if op == "gt" then ">"
    else if op == "lte" then "<=" else if op == "gte" then ">=" else "LIKE"
  }

  /** Characters that end a word of SQL. */
  predicate Delim(c: char) {
    c == ' ' || c == '(' || c == ')' || c == '\''
  }

  predicate IsWord(s: string) {
    s != "" && s[0] != '-' && forall i :: 0 <= i < |s| ==> !Delim(s[i])
  }

  /** What a word is: a keyword, an operator or a name. */
  function Classify(s: string): Tok {
    if s == "and" || s == "AND" then AND
    else if s == "or" || s == "OR" then OR
    else if s == "not" || s == "NOT" then NOT
    else if s == "is" || s == "IS" then IS
    else if s == "null" || s == "NULL" then NULL
    else if s in {"=", "<", ">", "<=", ">=", "LIKE", "like"} then Oper(s)
    else Name(s)
  }

  /** prop_attr_lookup gives the name of a column, or an XML name and a number in double
      quotes: a word that is no keyword. */
  predicate IsColumn(s: string) {
    IsWord(s) && Classify(s) == Name(s)
  }

  type Column = s: string | IsColumn(s) witness "x"

  /** The column of each property that has one. */
  type Attrs = map<string, Column>

  // ---------------------------------------------------------------- reading SQL

  datatype Parsed = Parsed(tree: Sql, rest: seq<Tok>)

  /** How many more parentheses are opened than closed. */
  function Open(ts: seq<Tok>): int {
    if ts == [] then 0
    else (if ts[0] == LParen then 1 else if ts[0] == RParen then -1 else 0) + Open(ts[1..])
  }

  /** How often c is in s. */
  function Count(s: string, c: char): nat {
    if s == "" then 0 else (if s[0] == c then 1 else 0) + Count(s[1..], c)
  }

  /** How many apostrophes it takes to write a text: two around it, and each one in it
      doubled. */
  function QuoteWeight(text: string): nat {
    2 + 2 * Count(text, '\'')
  }

  function Weight(ts: seq<Tok>): nat {
    if ts == [] then 0 else (if ts[0].Quoted? then QuoteWeight(ts[0].text) else 0) + Weight(ts[1..])
  }

  function TreeWeight(t: Sql): nat {
    match t
    case Cmp(_, _, text) => QuoteWeight(text)
    case NotNull(_) => 0
    case SNot(a) => TreeWeight(a)
    case SAnd(a, b) => TreeWeight(a) + TreeWeight(b)
    case SOr(a, b) => TreeWeight(a) + TreeWeight(b)
  }

  /** A condition with the usual precedence: OR binds least, then AND, then NOT. */
  function ParseExpr(ts: seq<Tok>): (r: Option<Parsed>)
    ensures r.Some? ==> |r.value.rest| < |ts| && Open(r.value.rest) == Open(ts)
    ensures r.Some? ==> Weight(ts) == Weight(r.value.rest) + TreeWeight(r.value.tree)
    decreases |ts|, 3
  {
    var a := ParseAnd(ts);
    if a.None? then None else ParseOrTail(a.value.tree, a.value.rest)
  }

  function ParseOrTail(left: Sql, ts: seq<Tok>): (r: Option<Parsed>)
    ensures r.Some? ==> |r.value.rest| <= |ts| && Open(r.value.rest) == Open(ts)
    ensures r.Some? ==> Weight(ts) + TreeWeight(left) == Weight(r.value.rest) + TreeWeight(r.value.tree)
    decreases |ts|, 0
  {
    if ts == [] || ts[0] != OR then Some(Parsed(left, ts))
    else
      var a := ParseAnd(ts[1..]);
      if a.None? then None else ParseOrTail(SOr(left, a.value.tree), a.value.rest)
  }

  function ParseAnd(ts: seq<Tok>): (r: Option<Parsed>)
    ensures r.Some? ==> |r.value.rest| < |ts| && Open(r.value.rest) == Open(ts)
    ensures r.Some? ==> Weight(ts) == Weight(r.value.rest) + TreeWeight(r.value.tree)
    decreases |ts|, 2
  {
    var a := ParseNot(ts);
    if a.None? then None else ParseAndTail(a.value.tree, a.value.rest)
  }

  function ParseAndTail(left: Sql, ts: seq<Tok>): (r: Option<Parsed>)
    ensures r.Some? ==> |r.value.rest| <= |ts| && Open(r.value.rest) == Open(ts)
    ensures r.Some? ==> Weight(ts) + TreeWeight(left) == Weight(r.value.rest) + TreeWeight(r.value.tree)
    decreases |ts|, 0
  {
    if ts == [] || ts[0] != AND then Some(Parsed(left, ts))
    else
      var a := ParseNot(ts[1..]);
      if a.None? then None else ParseAndTail(SAnd(left, a.value.tree), a.value.rest)
  }

  function ParseNot(ts: seq<Tok>): (r: Option<Parsed>)
    ensures r.Some? ==> |r.value.rest| < |ts| && Open(r.value.rest) == Open(ts)
    ensures r.Some? ==> Weight(ts) == Weight(r.value.rest) + TreeWeight(r.value.tree)
    decreases |ts|, 1
  {
    if ts != [] && ts[0] == NOT then
      var a := ParseNot(ts[1..]);
      if a.None? then None else Some(Parsed(SNot(a.value.tree), a.value.rest))
    else ParsePrimary(ts)
  }

  function ParsePrimary(ts: seq<Tok>): (r: Option<Parsed>)
    ensures r.Some? ==> |r.value.rest| < |ts| && Open(r.value.rest) == Open(ts)
    ensures r.Some? ==> Weight(ts) == Weight(r.value.rest) + TreeWeight(r.value.tree)
    decreases |ts|, 0
  {
    if ts == [] then None
    else if ts[0] == LParen then
      var a := ParseExpr(ts[1..]);
      if a.None? || a.value.rest == [] || a.value.rest[0] != RParen then None
      else Some(Parsed(a.value.tree, a.value.rest[1..]))
    else if ts[0].Name? && |ts| >= 4 && ts[1] == IS && ts[2] == NOT && ts[3] == NULL then
      var rest := ts[1..][1..][1..][1..];
      assert Open(ts) == Open(ts[1..]) == Open(ts[1..][1..]) == Open(ts[1..][1..][1..]) == Open(rest);
      assert Weight(ts) == Weight(ts[1..]) == Weight(ts[1..][1..]) == Weight(ts[1..][1..][1..]) == Weight(rest);
      Some(Parsed(NotNull(ts[0].attr), rest))
    else if ts[0].Name? && |ts| >= 3 && ts[1].Oper? && ts[2].Quoted? then
      var rest := ts[1..][1..][1..];
      assert Open(ts) == Open(ts[1..]) == Open(ts[1..][1..]) == Open(rest);
      assert Weight(ts) == Weight(ts[1..]) == Weight(ts[1..][1..]) == QuoteWeight(ts[2].text) + Weight(rest);
      Some(Parsed(Cmp(ts[0].attr, ts[1].op, ts[2].text), rest))
    else None
  }

  // ---------------------------------------------------------------- compiling

  /** What the parse_ functions accept. */
  predicate Accepted(attrs: Attrs, w: Where)
    decreases w, 0
  {
    match w
    case Compare(op, prop, _) => HasOper(op) && prop in attrs
    case IsCollection => true
    case IsDefined(_) => true
    case Logic(op, args) =>
      args.More? && op in {"not", "and", "or"} && Accepted(attrs, args.first) &&
      (op != "not" ==> AllAccepted(attrs, args.rest))
    case Other(_) => false
  }

  predicate AllAccepted(attrs: Attrs, a: Args)
    decreases a, 0
  {
    match a
    case NoArgs => true
    case More(first, rest) => Accepted(attrs, first) && AllAccepted(attrs, rest)
  }

  /** The tokens appended for w, in front of `after`.  For a property without a column,
      is-defined appends its opening parenthesis only: the list of strings to append ends
      at the missing name. */
  function Emit(attrs: Attrs, w: Where, after: seq<Tok>): seq<Tok>
    requires Accepted(attrs, w)
    decreases w, 0
  {
    match w
    case Compare(op, prop, literal) => [LParen, Name(attrs[prop]), Oper(SqlOper(op)), Quoted(literal), RParen] + after
    case IsCollection => [LParen, Name("type"), Oper("="), Quoted("Collection"), RParen] + after
    case IsDefined(prop) =>
      (if prop in attrs then [LParen, Name(attrs[prop]), IS, NOT, NULL, RParen] else [LParen]) + after
    case Logic(op, args) =>
      if op == "not" then [LParen, NOT] + Emit(attrs, args.first, [RParen] + after)
      else
        var tok := if op == "and" then AND else OR;
        [LParen] + Emit(attrs, args.first, EmitRest(attrs, tok, args.rest, [RParen] + after))
  }

  function EmitRest(attrs: Attrs, op: Tok, a: Args, after: seq<Tok>): seq<Tok>
    requires AllAccepted(attrs, a)
    decreases a, 0
  {
    match a
    case NoArgs => after
    case More(first, rest) => [op] + Emit(attrs, first, EmitRest(attrs, op, rest, after))
  }

  /** Every is-defined that is compiled names a property with a column. */
  predicate Columns(attrs: Attrs, w: Where)
    decreases w, 0
  {
    match w
    case Compare(_, _, _) => true
    case IsCollection => true
    case IsDefined(prop) => prop in attrs
    case Logic(op, args) => args.More? ==> Columns(attrs, args.first) && (op != "not" ==> AllColumns(attrs, args.rest))
    case Other(_) => true
  }

  predicate AllColumns(attrs: Attrs, a: Args)
    decreases a, 0
  {
    match a
    case NoArgs => true
    case More(first, rest) => Columns(attrs, first) && AllColumns(attrs, rest)
  }

  // ---------------------------------------------------------------- meaning

  datatype Truth = True | False | Unknown

  function Not3(a: Truth): Truth {
    match a case True => False case False => True case Unknown => Unknown
  }

  function And3(a: Truth, b: Truth): Truth {
    if a == False || b == False then False else if a == True && b == True then True else Unknown
  }

  function Or3(a: Truth, b: Truth): Truth {
    if a == True || b == True then True else if a == False && b == False then False else Unknown
  }

  /** A row: what its columns hold, nothing for NULL; how what a column holds stands to a literal
      in the order of the column (below 0, 0 or above 0); and which texts match a pattern. */
  datatype RowEnv = RowEnv(
    value: string -> Option<string>, order: (string, string, string) -> int, like: (string, string) -> bool)

  function TruthOf(b: bool): Truth {
    if b then True else False
  }

  /** The comparisons of SQL. */
  function SqlCompare(env: RowEnv, attr: string, op: string, text: string): Truth {
    match env.value(attr)
    case None => Unknown
    case Some(x) =>
      var c := env.order(attr, x, text);
      if op == "=" then TruthOf(c == 0)
      else if op == "<" then TruthOf(c < 0)
      else if op == "<=" then TruthOf(c <= 0)
      else if op == ">" then TruthOf(c > 0)
      else if op == ">=" then TruthOf(c >= 0)
      else if op == "LIKE" || op == "like" then TruthOf(env.like(x, text))
      else Unknown
  }

  function SqlMeaning(env: RowEnv, t: Sql): Truth {
    match t
    case Cmp(attr, op, text) => SqlCompare(env, attr, op, text)
    case NotNull(attr) => TruthOf(env.value(attr).Some?)
    case SNot(a) => Not3(SqlMeaning(env, a))
    case SAnd(a, b) => And3(SqlMeaning(env, a), SqlMeaning(env, b))
    case SOr(a, b) => Or3(SqlMeaning(env, a), SqlMeaning(env, b))
  }

  /** The comparisons of DAV:where: equal to the literal, less, greater, at most, at least, like it. */
  predicate Compares(env: RowEnv, attr: string, x: string, op: string, literal: string) {
    match op
    case "eq" => env.order(attr, x, literal) == 0
    case "lt" => env.order(attr, x, literal) < 0
    case "gt" => env.order(attr, x, literal) > 0
    case "lte" => env.order(attr, x, literal) <= 0
    case "gte" => env.order(attr, x, literal) >= 0
    case "like" => env.like(x, literal)
    case _ => false
  }

  /** The request comes out b, true or false; a comparison with a property that is not defined
      comes out neither.  "and" is true if all its operands are and false if one is, "or" the
      other way round, and "not" is what its first operand is not. */
  predicate Verdict(attrs: Attrs, env: RowEnv, w: Where, b: bool)
    requires Accepted(attrs, w) && Columns(attrs, w)
    decreases w, 0
  {
    match w
    case Compare(op, prop, literal) =>
      var x := env.value(attrs[prop]);
      x.Some? && Compares(env, attrs[prop], x.value, op, literal) == b
    case IsCollection =>
      var x := env.value("type");
      x.Some? && (env.order("type", x.value, "Collection") == 0) == b
    case IsDefined(prop) => env.value(attrs[prop]).Some? == b
    case Logic(op, args) =>
      if op == "not" then Verdict(attrs, env, args.first, !b)
      else if (op == "and") == b then Verdict(attrs, env, args.first, b) && AllAre(attrs, env, args.rest, b)
      else Verdict(attrs, env, args.first, b) || SomeIs(attrs, env, args.rest, b)
  }

  predicate AllAre(attrs: Attrs, env: RowEnv, a: Args, b: bool)
    requires AllAccepted(attrs, a) && AllColumns(attrs, a)
    decreases a, 0
  {
    a.More? ==> Verdict(attrs, env, a.first, b) && AllAre(attrs, env, a.rest, b)
  }

  predicate SomeIs(attrs: Attrs, env: RowEnv, a: Args, b: bool)
    requires AllAccepted(attrs, a) && AllColumns(attrs, a)
    decreases a, 0
  {
    a.More? && (Verdict(attrs, env, a.first, b) || SomeIs(attrs, env, a.rest, b))
  }

  // ---------------------------------------------------------------- what was compiled reads back

  /** The tree the tokens of w are read as. */
  function Tree(attrs: Attrs, w: Where): Sql
    requires Accepted(attrs, w) && Columns(attrs, w)
    decreases w, 0
  {
    match w
    case Compare(op, prop, literal) => Cmp(attrs[prop], SqlOper(op), literal)
    case IsCollection => Cmp("type", "=", "Collection")
    case IsDefined(prop) => NotNull(attrs[prop])
    case Logic(op, args) =>
      if op == "not" then SNot(Tree(attrs, args.first))
      else Fold(attrs, op == "and", Tree(attrs, args.first), args.rest)
  }

  function Fold(attrs: Attrs, conj: bool, left: Sql, a: Args): Sql
    requires AllAccepted(attrs, a) && AllColumns(attrs, a)
    decreases a, 0
  {
    match a
    case NoArgs => left
    case More(first, rest) =>
      var t := Tree(attrs, first);
      Fold(attrs, conj, if conj then SAnd(left, t) else SOr(left, t), rest)
  }

  lemma {:induction false} ReadPrimary(attrs: Attrs, w: Where, after: seq<Tok>)
    requires Accepted(attrs, w) && Columns(attrs, w)
    ensures ParsePrimary(Emit(attrs, w, after)) == Some(Parsed(Tree(attrs, w), after))
    ensures Emit(attrs, w, after) != [] && Emit(attrs, w, after)[0] == LParen
    decreases w, 1
  {
    var ts := Emit(attrs, w, after);
    match w
    case Compare(op, prop, literal) => ReadAtom(ts, [Name(attrs[prop]), Oper(SqlOper(op)), Quoted(literal)], after);
    case IsCollection => ReadAtom(ts, [Name("type"), Oper("="), Quoted("Collection")], after);
    case IsDefined(prop) => ReadAtom(ts, [Name(attrs[prop]), IS, NOT, NULL], after);
    case Logic(op, args) =>
      var close := [RParen] + after;
      if op == "not" {
        var inner := Emit(attrs, args.first, close);
        ReadPrimary(attrs, args.first, close);
        ReadNegated(ts, inner, Tree(attrs, args.first), after);
      } else {
        var inner := EmitRest(attrs, if op == "and" then AND else OR, args.rest, close);
        var t := Tree(attrs, args.first);
        ReadPrimary(attrs, args.first, inner);
        ReadRest(attrs, op == "and", t, args.rest, close);
        ReadOperands(ts, Emit(attrs, args.first, inner), op == "and", t, inner, Tree(attrs, w), after);
      }
  }

  lemma ReadNegated(ts: seq<Tok>, inner: seq<Tok>, t: Sql, after: seq<Tok>)
    requires ts == [LParen, NOT] + inner && inner != [] && inner[0] == LParen
    requires ParsePrimary(inner) == Some(Parsed(t, [RParen] + after))
    ensures ParsePrimary(ts) == Some(Parsed(SNot(t), after))
  {
    var u, close := ts[1..], [RParen] + after;
    assert u[1..] == inner && close[1..] == after;
    assert ParseNot(inner) == ParsePrimary(inner);
    assert ParseNot(u) == Some(Parsed(SNot(t), close));
    assert ParseAnd(u) == ParseNot(u);
    assert ParseExpr(u) == ParseNot(u);
  }

  /** A first operand t, and all operands together. */
  lemma ReadOperands(ts: seq<Tok>, body: seq<Tok>, conj: bool, t: Sql, inner: seq<Tok>, all: Sql, after: seq<Tok>)
    requires ts == [LParen] + body && body != [] && body[0] == LParen
    requires ParsePrimary(body) == Some(Parsed(t, inner))
    requires var r := Some(Parsed(all, [RParen] + after));
      if conj then ParseAndTail(t, inner) == r else inner != [] && inner[0] != AND && ParseOrTail(t, inner) == r
    ensures ParsePrimary(ts) == Some(Parsed(all, after))
  {
    var close := [RParen] + after;
    assert ts[1..] == body && close[1..] == after;
    assert ParseNot(body) == Some(Parsed(t, inner));
    assert ParseAnd(body) == if conj then Some(Parsed(all, close)) else Some(Parsed(t, inner));
    assert ParseExpr(body) == Some(Parsed(all, close));
  }

  lemma ReadAtom(ts: seq<Tok>, atom: seq<Tok>, after: seq<Tok>)
    requires ts == [LParen] + atom + [RParen] + after
    requires 3 <= |atom| <= 4 && atom[0].Name?
    requires if |atom| == 4 then atom[1..] == [IS, NOT, NULL] else atom[1].Oper? && atom[2].Quoted?
    ensures var t := if |atom| == 4 then NotNull(atom[0].attr) else Cmp(atom[0].attr, atom[1].op, atom[2].text);
      ParsePrimary(ts) == Some(Parsed(t, after))
  {
    var u := ts[1..];
    assert u == atom + ([RParen] + after);
    var rest := [RParen] + after;
    if |atom| == 4 {
      assert u[1] == atom[1..][0] && u[2] == atom[1..][1] && u[3] == atom[1..][2];
      assert u[1..][1..][1..][1..] == rest;
      assert ParseNot(u) == ParsePrimary(u) == Some(Parsed(NotNull(atom[0].attr), rest));
    } else {
      assert u[1..][1..][1..] == rest;
      assert ParseNot(u) == ParsePrimary(u) == Some(Parsed(Cmp(atom[0].attr, atom[1].op, atom[2].text), rest));
    }
    assert ParseAnd(u) == ParseNot(u);
    assert ParseExpr(u) == ParseNot(u);
    assert rest[1..] == after;
  }

  /** The remaining operands, up to a closing parenthesis. */
  lemma {:induction false} ReadRest(attrs: Attrs, conj: bool, left: Sql, a: Args, close: seq<Tok>)
    requires AllAccepted(attrs, a) && AllColumns(attrs, a) && close != [] && close[0] == RParen
    ensures var ts := EmitRest(attrs, if conj then AND else OR, a, close);
      if conj then ParseAndTail(left, ts) == Some(Parsed(Fold(attrs, conj, left, a), close))
      else ts != [] && ts[0] != AND && ParseOrTail(left, ts) == Some(Parsed(Fold(attrs, conj, left, a), close))
    decreases a, 0
  {
    if a.More? {
      var tok := if conj then AND else OR;
      var ts := EmitRest(attrs, tok, a, close);
      var inner := EmitRest(attrs, tok, a.rest, close);
      var t := Tree(attrs, a.first);
      ReadPrimary(attrs, a.first, inner);
      assert ts[1..] == Emit(attrs, a.first, inner);
      assert ParseNot(ts[1..]) == Some(Parsed(t, inner));
      ReadRest(attrs, conj, if conj then SAnd(left, t) else SOr(left, t), a.rest, close);
      if !conj {
        assert ParseAnd(ts[1..]) == ParseAndTail(t, inner) == Some(Parsed(t, inner));
      }
    }
  }

  /** Parentheses left open: one for each is-defined without a column. */
  lemma {:induction false} OpenLeft(attrs: Attrs, w: Where, after: seq<Tok>)
    requires Accepted(attrs, w)
    ensures Open(Emit(attrs, w, after)) >= Open(after)
    ensures Open(Emit(attrs, w, after)) == Open(after) <==> Columns(attrs, w)
    decreases w, 1
  {
    var ts := Emit(attrs, w, after);
    match w
    case Compare(op, prop, literal) => OpenAtom([Name(attrs[prop]), Oper(SqlOper(op)), Quoted(literal)], after, ts);
    case IsCollection => OpenAtom([Name("type"), Oper("="), Quoted("Collection")], after, ts);
    case IsDefined(prop) =>
      if prop in attrs {
        OpenAtom([Name(attrs[prop]), IS, NOT, NULL], after, ts);
      } else {
        assert ts[1..] == after;
      }
    case Logic(op, args) =>
      var close := [RParen] + after;
      assert close[1..] == after;
      if op == "not" {
        var inner := Emit(attrs, args.first, close);
        OpenLeft(attrs, args.first, close);
        OpenNot(ts, inner);
      } else {
        var tok := if op == "and" then AND else OR;
        var inner := EmitRest(attrs, tok, args.rest, close);
        OpenLeft(attrs, args.first, inner);
        OpenRest(attrs, tok, args.rest, close);
        OpenFirst(ts, Emit(attrs, args.first, inner));
      }
  }

  lemma OpenFirst(ts: seq<Tok>, inner: seq<Tok>)
    requires ts == [LParen] + inner
    ensures Open(ts) == 1 + Open(inner)
  {
    assert ts[1..] == inner;
  }

  lemma OpenNot(ts: seq<Tok>, inner: seq<Tok>)
    requires ts == [LParen, NOT] + inner
    ensures Open(ts) == 1 + Open(inner)
  {
    var u := [NOT] + inner;
    assert ts == [LParen] + u && u[1..] == inner;
    OpenFirst(ts, u);
  }

  lemma {:induction false} OpenRest(attrs: Attrs, op: Tok, a: Args, close: seq<Tok>)
    requires AllAccepted(attrs, a) && (op == AND || op == OR)
    ensures Open(EmitRest(attrs, op, a, close)) >= Open(close)
    ensures Open(EmitRest(attrs, op, a, close)) == Open(close) <==> AllColumns(attrs, a)
    decreases a, 0
  {
    if a.More? {
      var inner := EmitRest(attrs, op, a.rest, close);
      OpenLeft(attrs, a.first, inner);
      OpenRest(attrs, op, a.rest, close);
      assert EmitRest(attrs, op, a, close)[1..] == Emit(attrs, a.first, inner);
    }
  }

  lemma OpenAtom(atom: seq<Tok>, after: seq<Tok>, ts: seq<Tok>)
    requires ts == [LParen] + atom + [RParen] + after && 3 <= |atom| <= 4
    requires forall i :: 0 <= i < |atom| ==> atom[i] != LParen && atom[i] != RParen
    ensures Open(ts) == Open(after)
  {
    var u := ts[1..];
    assert u == atom + ([RParen] + after);
    var rest := [RParen] + after;
    assert rest[1..] == after;
    assert Open(u) == Open(u[1..]) == Open(u[1..][1..]) == Open(u[1..][1..][1..]);
    if |atom| == 3 {
      assert u[1..][1..][1..] == rest;
    } else {
      assert Open(u[1..][1..][1..]) == Open(u[1..][1..][1..][1..]);
      assert u[1..][1..][1..][1..] == rest;
    }
    assert Open(ts) == 1 + Open(u) && Open(rest) == -1 + Open(after);
  }

  /** As tokens, the compiled condition is one SQL condition exactly when every is-defined
      names a property with a column; it is then read as one tree. */
  lemma TokensReadBackIff(attrs: Attrs, w: Where)
    requires Accepted(attrs, w)
    ensures Columns(attrs, w) ==> ParseExpr(Emit(attrs, w, [])) == Some(Parsed(Tree(attrs, w), []))
    ensures (exists t :: ParseExpr(Emit(attrs, w, [])) == Some(Parsed(t, []))) <==> Columns(attrs, w)
  {
    OpenLeft(attrs, w, []);
    var ts := Emit(attrs, w, []);
    if Columns(attrs, w) {
      ReadPrimary(attrs, w, []);
      assert ParseNot(ts) == ParsePrimary(ts) == Some(Parsed(Tree(attrs, w), []));
      assert ParseAnd(ts) == ParseNot(ts);
      assert ParseExpr(ts) == ParseNot(ts);
    }
  }

  // ---------------------------------------------------------------- the meaning is kept

  /** The compiled condition is true, or false, exactly when the request is. */
  lemma {:induction false} TreeMeans(attrs: Attrs, env: RowEnv, w: Where, b: bool)
    requires Accepted(attrs, w) && Columns(attrs, w)
    ensures SqlMeaning(env, Tree(attrs, w)) == TruthOf(b) <==> Verdict(attrs, env, w, b)
    decreases w, 1
  {
    match w
    case Compare(op, prop, literal) => CompareMeans(env, attrs[prop], op, literal, b);
    case IsCollection =>
    case IsDefined(_) =>
    case Logic(op, args) =>
      if op == "not" {
        TreeMeans(attrs, env, args.first, !b);
      } else {
        TreeMeans(attrs, env, args.first, b);
        FoldMeans(attrs, env, op == "and", Tree(attrs, args.first), args.rest, b);
      }
  }

  lemma CompareMeans(env: RowEnv, attr: string, op: string, literal: string, b: bool)
    requires HasOper(op)
    ensures SqlCompare(env, attr, SqlOper(op), literal) == TruthOf(b) <==>
      env.value(attr).Some? && Compares(env, attr, env.value(attr).value, op, literal) == b
  {
  }

  /** A first operand, of whatever value, and the others. */
  lemma {:induction false} FoldMeans(attrs: Attrs, env: RowEnv, conj: bool, left: Sql, a: Args, b: bool)
    requires AllAccepted(attrs, a) && AllColumns(attrs, a)
    ensures SqlMeaning(env, Fold(attrs, conj, left, a)) == TruthOf(b) <==>
      if conj == b then SqlMeaning(env, left) == TruthOf(b) && AllAre(attrs, env, a, b)
      else SqlMeaning(env, left) == TruthOf(b) || SomeIs(attrs, env, a, b)
    decreases a, 0
  {
    if a.More? {
      var t := Tree(attrs, a.first);
      TreeMeans(attrs, env, a.first, b);
      FoldMeans(attrs, env, conj, if conj then SAnd(left, t) else SOr(left, t), a.rest, b);
    }
  }
}
