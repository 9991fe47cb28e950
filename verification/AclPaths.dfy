/** The materialised paths of `acl_inheritance` (dbms_inherit_parent_aces and
    dbms_change_acl_parent in limestone/dbms_acl.c).  A path is stored as text, "2,8,12";
    it is meant to be the chain from the root of the inheritance tree to the resource. */
module AclPaths {
  import opened Common

  type Path = seq<nat>
  type Paths = map<nat, Path>

  // ---------------------------------------------------------------- chains of a tree

  /** p goes from the root to r, each resource after its parent. */
  ghost predicate IsChain(parent: map<nat, nat>, root: nat, r: nat, p: Path) {
    && p != [] && p[0] == root && p[|p| - 1] == r
    && forall i :: 0 < i < |p| ==> p[i] in parent && parent[p[i]] == p[i - 1]
  }

  /** The paths are the chains of one tree, which `parent` gives. */
  ghost predicate TreePaths(t: Paths, parent: map<nat, nat>, root: nat) {
    && root in t && root !in parent
    && forall r :: r in t ==> IsChain(parent, root, r, t[r]) && forall x :: x in t[r] ==> x in t
  }

  lemma ChainPrefix(parent: map<nat, nat>, root: nat, r: nat, p: Path, i: nat)
    requires IsChain(parent, root, r, p) && i < |p|
    ensures IsChain(parent, root, p[i], p[..i + 1])
  {
  }

  lemma {:induction false} ChainUnique(parent: map<nat, nat>, root: nat, r: nat, p: Path, q: Path)
    requires IsChain(parent, root, r, p) && IsChain(parent, root, r, q) && root !in parent
    ensures p == q
    decreases |p|
  {
    var m, n := |p| - 1, |q| - 1;
    if m > 0 && n > 0 {
      ChainPrefix(parent, root, r, p, m - 1);
      ChainPrefix(parent, root, r, q, n - 1);
      ChainUnique(parent, root, p[m - 1], p[..m], q[..n]);
      assert p == p[..m] + [r] && q == q[..n] + [r];
    } else {
      assert p[m] == q[n];
    }
  }

  /** What the path of r has at i is the path of that ancestor. */
  lemma PathOfAncestor(t: Paths, parent: map<nat, nat>, root: nat, r: nat, i: nat)
    requires TreePaths(t, parent, root) && r in t && i < |t[r]|
    ensures t[r][i] in t && t[t[r][i]] == t[r][..i + 1]
  {
    var x := t[r][i];
    assert x in t[r];
    ChainPrefix(parent, root, r, t[r], i);
    ChainUnique(parent, root, x, t[x], t[r][..i + 1]);
  }

  lemma NoRepeat(parent: map<nat, nat>, root: nat, r: nat, p: Path, i: nat, j: nat)
    requires IsChain(parent, root, r, p) && root !in parent && i < |p| && j < |p| && p[i] == p[j]
    ensures i == j
  {
    ChainPrefix(parent, root, r, p, i);
    ChainPrefix(parent, root, r, p, j);
    ChainUnique(parent, root, p[i], p[..i + 1], p[..j + 1]);
  }

  lemma PrefixIffMember(t: Paths, parent: map<nat, nat>, root: nat, r: nat, x: nat)
    requires TreePaths(t, parent, root) && r in t && x in t
    ensures t[r] <= t[x] <==> r in t[x]
  {
    if t[r] <= t[x] {
      assert t[x][|t[r]| - 1] == r;
    }
    if r in t[x] {
      var i :| 0 <= i < |t[x]| && t[x][i] == r;
      PathOfAncestor(t, parent, root, x, i);
    }
  }

  // ---------------------------------------------------------------- moving a subtree

  /** Every path that starts with the path of r starts with `path` instead. */
  ghost function Moved(t: Paths, r: nat, path: Path): Paths
    requires r in t
  {
    map x | x in t :: if t[r] <= t[x] then path + t[x][|t[r]|..] else t[x]
  }

  lemma ChainExtend(parent: map<nat, nat>, root: nat, p: nat, up: Path, r: nat)
    requires IsChain(parent, root, p, up) && r !in up
    ensures IsChain(parent[r := p], root, r, up + [r])
  {
  }

  lemma ChainJoin(q: map<nat, nat>, root: nat, r: nat, up: Path, x: nat, c: Path, k: nat)
    requires IsChain(q, root, r, up) && 0 < k <= |c| && c[k - 1] == r && c[|c| - 1] == x
    requires forall i :: k <= i < |c| ==> c[i] in q && q[c[i]] == c[i - 1]
    ensures IsChain(q, root, x, up + c[k..])
  {
  }

  lemma MovedRow(t: Paths, parent: map<nat, nat>, root: nat, r: nat, p: nat, x: nat)
    requires TreePaths(t, parent, root) && r in t && p in t && r !in t[p] && x in t
    ensures IsChain(parent[r := p], root, x, Moved(t, r, t[p] + [r])[x])
    ensures forall y :: y in Moved(t, r, t[p] + [r])[x] ==> y in t
  {
    PrefixIffMember(t, parent, root, r, x);
    if r in t[x] {
      var k, c := |t[r]|, t[x];
      ChainExtend(parent, root, p, t[p], r);
      forall i | k <= i < |c|
        ensures c[i] != r
      {
        if c[i] == r {
          NoRepeat(parent, root, x, c, i, k - 1);
        }
      }
      ChainJoin(parent[r := p], root, r, t[p] + [r], x, c, k);
      assert forall y :: y in t[p] + [r] + c[k..] ==> y in t[p] || y == r || y in c;
    } else {
      ChainUntouched(parent, root, x, t[x], r, p);
    }
  }

  lemma ChainUntouched(parent: map<nat, nat>, root: nat, x: nat, c: Path, r: nat, p: nat)
    requires IsChain(parent, root, x, c) && r !in c
    ensures IsChain(parent[r := p], root, x, c)
  {
  }

  /** Moving r under p keeps the paths those of a tree exactly when p is outside the
      subtree of r; the new tree differs in the parent of r only. */
  lemma MoveIff(t: Paths, parent: map<nat, nat>, root: nat, r: nat, p: nat)
    requires TreePaths(t, parent, root) && r in t && p in t
    ensures r !in t[p] ==> TreePaths(Moved(t, r, t[p] + [r]), parent[r := p], root)
    ensures (exists q: map<nat, nat> :: TreePaths(Moved(t, r, t[p] + [r]), q, root)) <==> r !in t[p]
    ensures forall x :: x in t && r !in t[x] ==> Moved(t, r, t[p] + [r])[x] == t[x]
  {
    var t' := Moved(t, r, t[p] + [r]);
    forall x | x in t && r !in t[x]
      ensures t'[x] == t[x]
    {
      PrefixIffMember(t, parent, root, r, x);
    }
    if r !in t[p] {
      forall x | x in t'
        ensures IsChain(parent[r := p], root, x, t'[x]) && forall y :: y in t'[x] ==> y in t'
      {
        MovedRow(t, parent, root, r, p, x);
      }
      assert t[p][0] in t[p];
      assert TreePaths(t', parent[r := p], root);
    } else {
      forall q: map<nat, nat> | TreePaths(t', q, root)
        ensures false
      {
        assert t'[r] == t[p] + [r];
        var i :| 0 <= i < |t[p]| && t[p][i] == r;
        NoRepeat(q, root, r, t'[r], i, |t[p]|);
      }
    }
  }

  /** A resource added under p. */
  lemma AddKeepsTree(t: Paths, parent: map<nat, nat>, root: nat, r: nat, p: nat)
    requires TreePaths(t, parent, root) && r !in t && p in t
    ensures TreePaths(t[r := t[p] + [r]], parent[r := p], root)
  {
  }

  // ---------------------------------------------------------------- paths as text

  function Digits(n: nat): (d: string)
    ensures d != "" && (|d| == 1 <==> n < 10) && forall i :: 0 <= i < |d| ==> d[i] != ','
  {
    if n < 10 then ["0123456789"[n]] else Digits(n / 10) + ["0123456789"[n % 10]]
  }

  /** ",8,12" */
  function Tail(p: Path): string {
    if p == [] then "" else "," + Digits(p[0]) + Tail(p[1..])
  }

  /** "2,8,12" */
  function Text(p: Path): string
    requires p != []
  {
    Digits(p[0]) + Tail(p[1..])
  }

  lemma {:induction false} DigitsInjective(m: nat, n: nat)
    requires Digits(m) == Digits(n)
    ensures m == n
  {
    var d := "0123456789";
    assert forall i, j :: 0 <= i < 10 && 0 <= j < 10 && d[i] == d[j] ==> i == j;
    var a, b := Digits(m), Digits(n);
    assert a[|a| - 1] == d[m % 10] && b[|b| - 1] == d[n % 10];
    if m >= 10 && n >= 10 {
      assert Digits(m / 10) == a[..|a| - 1] && Digits(n / 10) == b[..|b| - 1];
      DigitsInjective(m / 10, n / 10);
    }
  }

  function DigitValue(c: char): nat {
    if '0' <= c <= '9' then (c - '0') as nat else 0
  }

  /** The number that decimal digits stand for. */
  function Value(d: string): nat {
    if d == "" then 0 else 10 * Value(d[..|d| - 1]) + DigitValue(d[|d| - 1])
  }

  lemma {:induction false} ValueOfDigits(n: nat)
    ensures Value(Digits(n)) == n
  {
    var d := Digits(n);
    if n < 10 {
      assert d[..|d| - 1] == "" && DigitValue(d[0]) == n;
    } else {
      ValueOfDigits(n / 10);
      assert d[..|d| - 1] == Digits(n / 10) && DigitValue(d[|d| - 1]) == n % 10;
    }
  }

  /** CAST(string_to_array(text, ',') AS INTEGER[]), `pending` being the digits read so far. */
  function Ids(text: string, pending: string): seq<nat>
    decreases |text|
  {
    if text == "" then [Value(pending)]
    else if text[0] == ',' then [Value(pending)] + Ids(text[1..], "")
    else Ids(text[1..], pending + [text[0]])
  }

  lemma {:induction false} IdsAfter(a: string, rest: string, pending: string)
    requires forall i :: 0 <= i < |a| ==> a[i] != ','
    ensures Ids(a + rest, pending) == Ids(rest, pending + a)
  {
    if a == "" {
      assert a + rest == rest && pending + a == pending;
    } else {
      assert (a + rest)[1..] == a[1..] + rest;
      IdsAfter(a[1..], rest, pending + [a[0]]);
      assert pending + [a[0]] + a[1..] == pending + a;
    }
  }

  /** The query reads a stored text back as the path it was made of. */
  lemma {:induction false} IdsOfText(p: Path)
    requires p != []
    ensures Ids(Text(p), "") == p
    decreases |p|
  {
    var a, rest := Digits(p[0]), p[1..];
    IdsAfter(a, Tail(rest), "");
    ValueOfDigits(p[0]);
    assert "" + a == a;
    assert p == [p[0]] + rest;
    if rest != [] {
      IdsOfText(rest);
      CommaText(rest);
      IdsComma(Text(rest), a);
    }
  }

  lemma IdsComma(text: string, pending: string)
    ensures Ids("," + text, pending) == [Value(pending)] + Ids(text, "")
  {
    assert ("," + text)[1..] == text;
  }

  lemma CommaSplit(a: string, u: string, b: string, v: string)
    requires a + u == b + v
    requires (forall i :: 0 <= i < |a| ==> a[i] != ',') && forall i :: 0 <= i < |b| ==> b[i] != ','
    requires (u == "" || u[0] == ',') && (v == "" || v[0] == ',')
    ensures a == b && u == v
  {
    var w := a + u;
    assert forall i :: 0 <= i < |a| ==> w[i] == a[i];
    assert forall i :: 0 <= i < |b| ==> w[i] == b[i];
    assert u != "" ==> w[|a|] == ',';
    assert v != "" ==> w[|b|] == ',';
    assert |a| == |b|;
    assert a == w[..|a|] && b == w[..|b|] && u == w[|a|..] && v == w[|b|..];
  }

  lemma {:induction false} TailConcat(p: Path, q: Path)
    ensures Tail(p + q) == Tail(p) + Tail(q)
  {
    if p == [] {
      assert p + q == q;
    } else {
      assert (p + q)[1..] == p[1..] + q;
      TailConcat(p[1..], q);
    }
  }

  lemma TextConcat(p: Path, q: Path)
    requires p != []
    ensures Text(p + q) == Text(p) + Tail(q)
  {
    assert (p + q)[1..] == p[1..] + q;
    TailConcat(p[1..], q);
  }

  lemma TailStart(p: Path)
    ensures p == [] <==> Tail(p) == ""
    ensures p != [] ==> Tail(p)[0] == ','
  {
  }

  lemma HeadsSplit(a: string, u: string, b: string, v: string, rest: string)
    requires "," + a + u == "," + b + v + rest
    requires (forall i :: 0 <= i < |a| ==> a[i] != ',') && forall i :: 0 <= i < |b| ==> b[i] != ','
    requires (u == "" || u[0] == ',') && (v == "" || v[0] == ',') && (rest == "" || rest[0] == ',')
    ensures a == b && u == v + rest
  {
    var c := ",";
    Assoc(c, a, u);
    Assoc(c + b, v, rest);
    Assoc(c, b, v + rest);
    assert (c + (a + u))[1..] == a + u;
    assert (c + (b + (v + rest)))[1..] == b + (v + rest);
    CommaSplit(a, u, b, v + rest);
  }

  lemma HeadsAgree(p: Path, q: Path, rest: string)
    requires p != [] && q != [] && Tail(p) == Tail(q) + rest && (rest == "" || rest[0] == ',')
    ensures p[0] == q[0] && Tail(p[1..]) == Tail(q[1..]) + rest
  {
    TailStart(p[1..]);
    TailStart(q[1..]);
    HeadsSplit(Digits(p[0]), Tail(p[1..]), Digits(q[0]), Tail(q[1..]), rest);
    DigitsInjective(p[0], q[0]);
  }

  /** A tail that starts with another, up to a comma or the end, is a longer path. */
  lemma {:induction false} TailPrefix(p: Path, q: Path, rest: string)
    requires Tail(p) == Tail(q) + rest && (rest == "" || rest[0] == ',')
    ensures q <= p
  {
    if q != [] {
      TailStart(p);
      TailStart(q);
      HeadsAgree(p, q, rest);
      TailPrefix(p[1..], q[1..], rest);
      assert p == [p[0]] + p[1..] && q == [q[0]] + q[1..];
    }
  }

  /** path LIKE orig || ',%' OR path = orig */
  predicate Selected(text: string, orig: string) {
    text == orig || orig + "," <= text
  }

  lemma CommaText(p: Path)
    requires p != []
    ensures Tail(p) == "," + Text(p)
  {
  }

  /** The text condition picks exactly the paths below the moved one. */
  lemma SelectedIffPrefix(p: Path, q: Path)
    requires p != [] && q != []
    ensures Selected(Text(p), Text(q)) <==> q <= p
  {
    if q <= p {
      TextConcat(q, p[|q|..]);
      assert p == q + p[|q|..];
      TailStart(p[|q|..]);
    }
    if Selected(Text(p), Text(q)) {
      var rest := Text(p)[|Text(q)|..];
      assert Text(p) == Text(q) + rest;
      CommaText(p);
      CommaText(q);
      Assoc(",", Text(q), rest);
      TailPrefix(p, q, rest);
    }
  }

  // ---------------------------------------------------------------- SQL replace

  /** replace(s, a, b): every occurrence of a, left to right. */
  function Replace(s: string, a: string, b: string): string
    requires a != ""
    decreases |s|
  {
    if |s| < |a| then s
    else if s[..|a|] == a then b + Replace(s[|a|..], a, b)
    else [s[0]] + Replace(s[1..], a, b)
  }

  predicate OccursAt(a: string, s: string, i: int) {
    0 <= i <= |s| - |a| && s[i..i + |a|] == a
  }

  ghost predicate Occurs(a: string, s: string) {
    exists i :: OccursAt(a, s, i)
  }

  lemma {:induction false} ReplaceLength(s: string, a: string, b: string)
    requires a != ""
    ensures |b| >= |a| ==> |Replace(s, a, b)| >= |s|
    ensures |b| <= |a| ==> |Replace(s, a, b)| <= |s|
    decreases |s|
  {
    if |s| >= |a| {
      if s[..|a|] == a {
        ReplaceLength(s[|a|..], a, b);
      } else {
        ReplaceLength(s[1..], a, b);
      }
    }
  }

  lemma OccursTail(a: string, s: string)
    requires a != "" && |s| >= |a|
    ensures Occurs(a, s) <==> s[..|a|] == a || Occurs(a, s[1..])
  {
    if Occurs(a, s) {
      var i :| OccursAt(a, s, i);
      if i > 0 {
        assert s[1..][i - 1..i - 1 + |a|] == s[i..i + |a|];
        assert OccursAt(a, s[1..], i - 1);
      }
    }
    if s[..|a|] == a {
      assert OccursAt(a, s, 0);
    } else if Occurs(a, s[1..]) {
      var j :| OccursAt(a, s[1..], j);
      assert s[1..][j..j + |a|] == s[j + 1..j + 1 + |a|];
      assert OccursAt(a, s, j + 1);
    }
  }

  lemma StartChanges(s: string, a: string, b: string)
    requires a != "" && a <= s && a != b
    ensures Replace(s, a, b) != s
  {
    var rest := s[|a|..];
    ReplaceLength(rest, a, b);
    var w := b + Replace(rest, a, b);
    assert w[..|b|] == b;
  }

  /** Replacing leaves a text as it is exactly when there is nothing to replace. */
  lemma {:induction false} ReplaceFixes(s: string, a: string, b: string)
    requires a != ""
    ensures Replace(s, a, b) == s <==> a == b || !Occurs(a, s)
    decreases |s|
  {
    if |s| < |a| {
    } else if s[..|a|] == a {
      OccursTail(a, s);
      if a == b {
        ReplaceFixes(s[|a|..], a, b);
        assert s == a + s[|a|..];
      } else {
        StartChanges(s, a, b);
      }
    } else {
      OccursTail(a, s);
      ReplaceFixes(s[1..], a, b);
      var w := [s[0]] + Replace(s[1..], a, b);
      assert w[1..] == Replace(s[1..], a, b) && s == [s[0]] + s[1..];
    }
  }

  // ---------------------------------------------------------------- the UPDATE on text

  ghost predicate Stored(text: map<nat, string>, t: Paths) {
    text.Keys == t.Keys && forall x :: x in t ==> t[x] != [] && text[x] == Text(t[x])
  }

  /** UPDATE acl_inheritance SET path = replace(path, orig, new) WHERE ... */
  function Rewritten(text: map<nat, string>, orig: string, new': string): map<nat, string>
    requires orig != ""
  {
    map x | x in text :: if Selected(text[x], orig) then Replace(text[x], orig, new') else text[x]
  }

  /** The text of the moved path does not occur again further on in a path below it. */
  ghost predicate NoInnerMatch(t: Paths, r: nat)
    requires r in t && t[r] != []
  {
    forall x :: x in t && t[r] <= t[x] ==> !Occurs(Text(t[r]), Tail(t[x][|t[r]|..]))
  }

  lemma TextNonEmpty(p: Path)
    requires p != []
    ensures Text(p) != ""
  {
  }

  lemma RewrittenRow(p: Path, q: Path, n: Path)
    requires q != [] && n != [] && q <= p
    ensures Text(q) != ""
    ensures Replace(Text(p), Text(q), Text(n)) == Text(n + p[|q|..]) <==>
      Text(q) == Text(n) || !Occurs(Text(q), Tail(p[|q|..]))
  {
    var rest := p[|q|..];
    var a, b, u := Text(q), Text(n), Tail(rest);
    assert p == q + rest;
    TextConcat(q, rest);
    TextConcat(n, rest);
    var s := a + u;
    assert s[..|a|] == a && s[|a|..] == u;
    assert Replace(s, a, b) == b + Replace(u, a, b);
    ReplaceFixes(u, a, b);
    assert (b + Replace(u, a, b))[|b|..] == Replace(u, a, b);
    assert (b + u)[|b|..] == u;
  }

  /** The text of a path determines it. */
  lemma TextInjective(p: Path, q: Path)
    requires p != [] && q != [] && Text(p) == Text(q)
    ensures p == q
  {
    SelectedIffPrefix(p, q);
    SelectedIffPrefix(q, p);
  }

  lemma UpdateRowRight(t: Paths, r: nat, n: Path, x: nat, text: string)
    requires r in t && n != [] && t[r] != [] && x in t && t[x] != [] && text == Text(t[x])
    ensures Text(t[r]) != "" && Moved(t, r, n)[x] != []
    ensures var new' := if Selected(text, Text(t[r])) then Replace(text, Text(t[r]), Text(n)) else text;
      new' == Text(Moved(t, r, n)[x]) <==>
      n == t[r] || !(t[r] <= t[x]) || !Occurs(Text(t[r]), Tail(t[x][|t[r]|..]))
  {
    TextNonEmpty(t[r]);
    SelectedIffPrefix(t[x], t[r]);
    if t[r] <= t[x] {
      RewrittenRow(t[x], t[r], n);
      if Text(t[r]) == Text(n) {
        TextInjective(t[r], n);
      }
    }
  }

  /** The statement replaces prefixes exactly when the parent does not change or no
      moved path repeats the text of the moved resource's path further on. */
  lemma UpdateRightIff(text: map<nat, string>, t: Paths, r: nat, n: Path)
    requires Stored(text, t) && r in t && n != []
    ensures Text(t[r]) != ""
    ensures Stored(Rewritten(text, Text(t[r]), Text(n)), Moved(t, r, n)) <==> n == t[r] || NoInnerMatch(t, r)
  {
    TextNonEmpty(t[r]);
    forall x | x in t
      ensures Moved(t, r, n)[x] != []
      ensures Rewritten(text, Text(t[r]), Text(n))[x] == Text(Moved(t, r, n)[x]) <==>
        n == t[r] || !(t[r] <= t[x]) || !Occurs(Text(t[r]), Tail(t[x][|t[r]|..]))
    {
      UpdateRowRight(t, r, n, x, text[x]);
    }
  }

  /** Moving 8 from 2 to 9 when 12 and 85 lie below it: the path 2,8,12,85 has "2,8" in it
      again, between the second digit of 12 and the first of 85. */
  lemma InnerMatch(a: string, b: string, s: string)
    requires a == "2,8" && b == "2,9,8" && s == "2,8,12,85"
    ensures Replace(s, a, b) == "2,9,8,12,9,85"
  {
    var u := s[3..];
    assert s[..3] == a && u == ",12,85";
    assert u[..3] == ",12" && u[1..] == "12,85" && u[1..][..3] == "12," && u[1..][1..] == "2,85";
    assert "2,85"[..3] == a && "2,85"[3..] == "5";
    assert Replace("5", a, b) == "5";
    assert Replace("2,85", a, b) == b + "5";
    assert Replace("12,85", a, b) == "1" + (b + "5");
    assert Replace(u, a, b) == "," + ("1" + (b + "5"));
  }

  lemma ChildText(p: Path, r: nat)
    requires p != []
    ensures Text(p + [r]) == Text(p) + "," + Digits(r)
  {
    TextConcat(p, [r]);
    assert Tail([r]) == "," + Digits(r);
  }

  // ---------------------------------------------------------------- the table

  datatype Outcome = Done | InvalidParent

  /** acl_inheritance, with the text it stores. */
  class AclInheritance {
    var path: map<nat, string>

    constructor (path: map<nat, string>)
      ensures this.path == path
    {
      this.path := path;
    }

    /** dbms_inherit_parent_aces: nothing happens when the resource has a path already, or
        the parent has none. */
    method InheritParentAces(r: nat, p: nat, ghost t: Paths, ghost parent: map<nat, nat>, ghost root: nat)
      requires Stored(path, t) && TreePaths(t, parent, root)
      modifies this
      ensures r in t || p !in t ==> path == old(path)
      ensures r !in t && p in t ==>
        Stored(path, t[r := t[p] + [r]]) && TreePaths(t[r := t[p] + [r]], parent[r := p], root)
    {
      if r in path || p !in path {
        return;
      }
      path := path[r := path[p] + "," + Digits(r)];
      ChildText(t[p], r);
      AddKeepsTree(t, parent, root, r, p);
    }

    /** dbms_change_acl_parent */
    method ChangeAclParent(r: nat, p: nat, ghost t: Paths, ghost parent: map<nat, nat>, ghost root: nat)
      returns (res: Outcome)
      requires Stored(path, t) && TreePaths(t, parent, root)
      modifies this
      ensures res == InvalidParent <==> r in t && p !in t
      ensures p !in t ==> path == old(path)
      ensures r !in t && p in t ==>
        Stored(path, t[r := t[p] + [r]]) && TreePaths(t[r := t[p] + [r]], parent[r := p], root)
      ensures r in t && p in t && r !in t[p] ==> TreePaths(Moved(t, r, t[p] + [r]), parent[r := p], root)
      ensures r in t && p in t ==>
        (Stored(path, Moved(t, r, t[p] + [r])) <==> t[p] + [r] == t[r] || NoInnerMatch(t, r))
    {
      if r !in path {
        InheritParentAces(r, p, t, parent, root);
        return Done;
      }
      if p !in path {
        return InvalidParent;
      }
      MoveIff(t, parent, root, r, p);
      var orig, new' := path[r], path[p] + "," + Digits(r);
      ChildText(t[p], r);
      UpdateRightIff(path, t, r, t[p] + [r]);
      path := Rewritten(path, orig, new');
      res := Done;
    }
  }
}
