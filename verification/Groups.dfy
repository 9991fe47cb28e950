/** Group membership (limestone/dbms_principal.c, limestone/principal.c).

    `group_members` holds one row per recorded membership, keyed by its primary
    key: nothing in the schema makes (group_id, member_id) unique, so the same
    membership can be recorded twice.  `transitive_group_members` caches, for
    every pair, how many membership paths lead from the group to the member.  A
    path is the sequence of the row keys it follows, so parallel rows give
    different paths. */
module Groups {
  import opened Common

  datatype Edge = Edge(group: int, member: int)

  type Members = map<int, Edge>
  type Counts = map<(int, int), int>

  // ---------------------------------------------------------------- paths

  ghost predicate IsPath(ms: Members, g: int, p: seq<int>, m: int)
    decreases |p|
  {
    if p == [] then g == m
    else p[0] in ms && ms[p[0]].group == g && IsPath(ms, ms[p[0]].member, p[1..], m)
  }

  ghost predicate Connected(ms: Members, g: int, m: int) {
    exists p :: IsPath(ms, g, p, m)
  }

  ghost predicate Acyclic(ms: Members) {
    forall g, p :: IsPath(ms, g, p, g) ==> p == []
  }

  /** `s` is the set of all membership paths (of one row or more) from g to m. */
  ghost predicate AllPaths(ms: Members, g: int, m: int, s: set<seq<int>>) {
    forall p :: p in s <==> p != [] && IsPath(ms, g, p, m)
  }

  /** The cached row for (g, m) is right: it is there exactly when there is a path,
      and its count is the number of paths. */
  ghost predicate Right(ms: Members, t: Counts, g: int, m: int) {
    exists s: set<seq<int>> ::
      AllPaths(ms, g, m, s) && ((g, m) in t <==> s != {}) && ((g, m) in t ==> t[(g, m)] == |s|)
  }

  ghost predicate Exact(ms: Members, t: Counts) {
    forall g, m :: Right(ms, t, g, m)
  }

  lemma {:induction false} Join(ms: Members, g: int, p: seq<int>, h: int, q: seq<int>, m: int)
    requires IsPath(ms, g, p, h) && IsPath(ms, h, q, m)
    ensures IsPath(ms, g, p + q, m)
    decreases |p|
  {
    if p == [] {
      assert p + q == q;
    } else {
      Join(ms, ms[p[0]].member, p[1..], h, q, m);
      assert (p + q)[1..] == p[1..] + q;
    }
  }

  lemma {:induction false} Grow(ms: Members, ms': Members, g: int, p: seq<int>, m: int)
    requires IsPath(ms, g, p, m)
    requires forall i :: 0 <= i < |p| && p[i] in ms ==> p[i] in ms' && ms'[p[i]] == ms[p[i]]
    ensures IsPath(ms', g, p, m)
    ensures forall e :: e in p ==> e in ms
    decreases |p|
  {
    if p != [] {
      Grow(ms, ms', ms[p[0]].member, p[1..], m);
    }
  }

  /** A path that uses a row from grp to prin, in a table where nothing leads from
      prin to grp without that row, uses it once. */
  lemma {:induction false} SplitAtRow(ms: Members, e: int, grp: int, prin: int, g: int, r: seq<int>, m: int)
    returns (p: seq<int>, q: seq<int>)
    requires e !in ms && !Connected(ms, prin, grp)
    requires IsPath(ms[e := Edge(grp, prin)], g, r, m) && e in r
    ensures r == p + [e] + q && IsPath(ms, g, p, grp) && IsPath(ms, prin, q, m)
    decreases |r|
  {
    var ms' := ms[e := Edge(grp, prin)];
    if r[0] == e {
      p, q := [], r[1..];
      if e in q {
        var p', _ := SplitAtRow(ms, e, grp, prin, prin, q, m);
        assert false;
      }
      Grow(ms', ms, prin, q, m);
    } else {
      p, q := SplitAtRow(ms, e, grp, prin, ms[r[0]].member, r[1..], m);
      p := [r[0]] + p;
    }
  }

  // ------------------------------------------------ the SQL statements

  /** "grp and its parents" / "prin and its members" in the UPDATE, INSERT and DELETE. */
  function Above(t: Counts, grp: int): set<int> {
    (set k | k in t && k.1 == grp :: k.0) + {grp}
  }

  function Below(t: Counts, prin: int): set<int> {
    (set k | k in t && k.0 == prin :: k.1) + {prin}
  }

  /** COALESCE((SELECT transitive_count ... for (a, b)), 1) */
  function CountOr1(t: Counts, a: int, b: int): int {
    if (a, b) in t then t[(a, b)] else 1
  }

  predicate Touched(t: Counts, grp: int, prin: int, k: (int, int)) {
    k.0 in Above(t, grp) && k.1 in Below(t, prin)
  }

  /** Number of paths through a row from grp to prin. */
  function Through(t: Counts, grp: int, prin: int, k: (int, int)): int {
    CountOr1(t, k.0, grp) * CountOr1(t, prin, k.1)
  }

  /** The UPDATE of an addition (sign 1) or of a removal (sign -1), with the row
      being updated meant in both subqueries, as the comments beside them say. */
  function Updated(t: Counts, grp: int, prin: int, sign: int): Counts {
    map k | k in t :: if Touched(t, grp, prin, k) then t[k] + sign * Through(t, grp, prin, k) else t[k]
  }

  /** The INSERT of an addition: the pairs that had no row yet. */
  function Inserted(t: Counts, grp: int, prin: int): Counts {
    t + map g, m | g in Above(t, grp) && m in Below(t, prin) && (g, m) !in t :: (g, m) := Through(t, grp, prin, (g, m))
  }

  /** The DELETE of a removal: touched pairs whose count fell to 0. */
  function Swept(t: Counts, grp: int, prin: int): Counts {
    map k | k in t && !(Touched(t, grp, prin, k) && t[k] == 0) :: t[k]
  }

  function AddCounts(t: Counts, grp: int, prin: int): Counts {
    Inserted(Updated(t, grp, prin, 1), grp, prin)
  }

  function RemCounts(t: Counts, grp: int, prin: int): Counts {
    Swept(Updated(t, grp, prin, -1), grp, prin)
  }

  /** The query of dbms_will_loop_prin_add_grp. */
  predicate WillLoop(t: Counts, grp: int, prin: int) {
    exists c :: c in Above(Positive(t), grp) && c in Below(Positive(t), prin)
  }

  function Positive(t: Counts): Counts {
    map k | k in t && t[k] > 0 :: t[k]
  }

  // ------------------------------------------------ the loop check

  lemma PathSet(ms: Members, t: Counts, g: int, m: int) returns (s: set<seq<int>>)
    requires Exact(ms, t)
    ensures AllPaths(ms, g, m, s) && ((g, m) in t <==> s != {}) && ((g, m) in t ==> t[(g, m)] == |s|)
    ensures (g, m) in t ==> t[(g, m)] > 0
  {
    assert Right(ms, t, g, m);
    s :| AllPaths(ms, g, m, s) && ((g, m) in t <==> s != {}) && ((g, m) in t ==> t[(g, m)] == |s|);
  }

  lemma RowIffConnected(ms: Members, t: Counts, g: int, m: int)
    requires Exact(ms, t) && Acyclic(ms)
    ensures (g, m) in t <==> g != m && Connected(ms, g, m)
    ensures (g, m) in t ==> t[(g, m)] > 0
  {
    var s := PathSet(ms, t, g, m);
    if (g, m) in t {
      var p :| p in s;
      assert IsPath(ms, g, p, m);
    }
    if g != m && Connected(ms, g, m) {
      var p :| IsPath(ms, g, p, m);
      assert p in s;
    }
  }

  lemma WillLoopIffConnected(ms: Members, t: Counts, grp: int, prin: int)
    requires Exact(ms, t) && Acyclic(ms)
    ensures WillLoop(t, grp, prin) <==> Connected(ms, prin, grp)
  {
    if Connected(ms, prin, grp) {
      RowIffConnected(ms, t, prin, grp);
      assert prin == grp || (prin, grp) in Positive(t);
      assert grp in Above(Positive(t), grp) && grp in Below(Positive(t), prin);
    }
    if WillLoop(t, grp, prin) {
      var c :| c in Above(Positive(t), grp) && c in Below(Positive(t), prin);
      RowIffConnected(ms, t, prin, c);
      RowIffConnected(ms, t, c, grp);
      assert IsPath(ms, c, [], c);
      assert prin == c || (prin, c) in t;
      assert grp == c || (c, grp) in t;
      assert Connected(ms, prin, c) && Connected(ms, c, grp);
      var p :| IsPath(ms, prin, p, c);
      var q :| IsPath(ms, c, q, grp);
      Join(ms, prin, p, c, q, grp);
    }
  }

  lemma AcyclicIffNotConnected(ms: Members, e: int, grp: int, prin: int)
    requires Acyclic(ms) && e !in ms
    ensures Acyclic(ms[e := Edge(grp, prin)]) <==> !Connected(ms, prin, grp)
  {
    var ms' := ms[e := Edge(grp, prin)];
    if Connected(ms, prin, grp) {
      var p :| IsPath(ms, prin, p, grp);
      Grow(ms, ms', prin, p, grp);
      assert ([e] + p)[1..] == p;
      assert IsPath(ms', grp, [e] + p, grp);
    } else {
      forall g, r | IsPath(ms', g, r, g)
        ensures r == []
      {
        if e in r {
          var p, q := SplitAtRow(ms, e, grp, prin, g, r, g);
          Join(ms, prin, q, g, p, grp);
          assert false;
        } else {
          Grow(ms', ms, g, r, g);
        }
      }
    }
  }

  /** The loop check accepts a row exactly when recording it leaves the memberships
      without a cycle. */
  lemma LoopCheckExact(ms: Members, t: Counts, e: int, grp: int, prin: int)
    requires Exact(ms, t) && Acyclic(ms) && e !in ms
    ensures !WillLoop(t, grp, prin) <==> Acyclic(ms[e := Edge(grp, prin)])
  {
    WillLoopIffConnected(ms, t, grp, prin);
    AcyclicIffNotConnected(ms, e, grp, prin);
  }

  // ------------------------------------------------ counting

  ghost function Spliced(a: set<seq<int>>, e: int, b: set<seq<int>>): set<seq<int>> {
    set p, q | p in a && q in b :: p + [e] + q
  }

  lemma {:induction false} SplicedRow(p: seq<int>, e: int, b: set<seq<int>>)
    ensures |set q | q in b :: p + [e] + q| == |b|
  {
    if b != {} {
      var x :| x in b;
      var rest := b - {x};
      SplicedRow(p, e, rest);
      var s := set q | q in rest :: p + [e] + q;
      assert (set q | q in b :: p + [e] + q) == s + {p + [e] + x};
      forall q | q in rest
        ensures p + [e] + q != p + [e] + x
      {
        assert q == (p + [e] + q)[|p| + 1..];
        assert x == (p + [e] + x)[|p| + 1..];
      }
    }
  }

  lemma SameSplit(p: seq<int>, q: seq<int>, p': seq<int>, q': seq<int>, e: int)
    requires p + [e] + q == p' + [e] + q' && e !in p && e !in p'
    ensures p == p' && q == q'
  {
    var r := p + [e] + q;
    assert forall j :: 0 <= j < |p| ==> r[j] == p[j] && r[j] in p;
    assert forall j :: 0 <= j < |p'| ==> r[j] == p'[j] && r[j] in p';
    assert r[|p|] == e && r[|p'|] == e;
    assert p == r[..|p|] == p';
    assert q == r[|p| + 1..] == q';
  }

  lemma {:induction false} SplicedCount(a: set<seq<int>>, e: int, b: set<seq<int>>)
    requires forall p :: p in a ==> e !in p
    ensures |Spliced(a, e, b)| == |a| * |b|
  {
    if a == {} {
      assert Spliced(a, e, b) == {};
    } else {
      var x :| x in a;
      var rest := a - {x};
      SplicedCount(rest, e, b);
      SplicedRow(x, e, b);
      SplicedStep(a, x, e, b);
      assert |rest| * |b| + |b| == (|rest| + 1) * |b|;
    }
  }

  lemma SplicedStep(a: set<seq<int>>, x: seq<int>, e: int, b: set<seq<int>>)
    requires x in a && forall p :: p in a ==> e !in p
    ensures |Spliced(a, e, b)| == |Spliced(a - {x}, e, b)| + |set q | q in b :: x + [e] + q|
  {
    var rest := Spliced(a - {x}, e, b);
    var row := set q | q in b :: x + [e] + q;
    assert Spliced(a, e, b) == rest + row;
    forall r | r in rest
      ensures r !in row
    {
      var p, q :| p in a - {x} && q in b && r == p + [e] + q;
      forall q' | q' in b
        ensures r != x + [e] + q'
      {
        if r == x + [e] + q' {
          SameSplit(p, q, x, q', e);
        }
      }
    }
  }

  /** The paths from g to m, the empty one included when g is m. */
  ghost predicate AllPaths0(ms: Members, g: int, m: int, s: set<seq<int>>) {
    forall p :: p in s <==> IsPath(ms, g, p, m)
  }

  lemma PathSet0(ms: Members, t: Counts, g: int, m: int) returns (s: set<seq<int>>)
    requires Exact(ms, t) && Acyclic(ms)
    ensures AllPaths0(ms, g, m, s)
    ensures s != {} <==> g == m || (g, m) in t
    ensures s != {} ==> |s| == CountOr1(t, g, m)
  {
    s := PathSet(ms, t, g, m);
    RowIffConnected(ms, t, g, m);
    if g == m {
      s := s + {[]};
      assert s == {[]};
    }
  }

  lemma SplicedArePaths(ms: Members, e: int, grp: int, prin: int, g: int, m: int, a: set<seq<int>>,
      b: set<seq<int>>, r: seq<int>)
    requires e !in ms && !Connected(ms, prin, grp)
    requires AllPaths0(ms, g, grp, a) && AllPaths0(ms, prin, m, b)
    ensures r in Spliced(a, e, b) <==> e in r && IsPath(ms[e := Edge(grp, prin)], g, r, m)
  {
    var ms' := ms[e := Edge(grp, prin)];
    if r in Spliced(a, e, b) {
      var p, q :| p in a && q in b && r == p + [e] + q;
      Grow(ms, ms', g, p, grp);
      Grow(ms, ms', prin, q, m);
      assert ([e] + q)[1..] == q;
      Join(ms', g, p, grp, [e] + q, m);
      assert r == p + ([e] + q);
    }
    if e in r && IsPath(ms', g, r, m) {
      var p, q := SplitAtRow(ms, e, grp, prin, g, r, m);
    }
  }

  lemma OldPaths(ms: Members, e: int, edge: Edge, g: int, m: int, r: seq<int>)
    requires e !in ms
    ensures IsPath(ms, g, r, m) <==> e !in r && IsPath(ms[e := edge], g, r, m)
  {
    var ms' := ms[e := edge];
    if IsPath(ms, g, r, m) {
      Grow(ms, ms', g, r, m);
    }
    if e !in r && IsPath(ms', g, r, m) {
      Grow(ms', ms, g, r, m);
    }
  }

  /** The paths a new row adds: every old path to it, followed by the row and by
      every old path from it. */
  lemma NewPaths(ms: Members, e: int, grp: int, prin: int, g: int, m: int, a: set<seq<int>>, b: set<seq<int>>)
    returns (n: set<seq<int>>)
    requires e !in ms && !Connected(ms, prin, grp)
    requires AllPaths0(ms, g, grp, a) && AllPaths0(ms, prin, m, b)
    ensures forall r :: r in n <==> e in r && IsPath(ms[e := Edge(grp, prin)], g, r, m)
    ensures |n| == |a| * |b|
  {
    n := Spliced(a, e, b);
    forall r
      ensures r in n <==> e in r && IsPath(ms[e := Edge(grp, prin)], g, r, m)
    {
      SplicedArePaths(ms, e, grp, prin, g, m, a, b, r);
    }
    forall p | p in a
      ensures e !in p
    {
      Grow(ms, ms, g, p, grp);
    }
    SplicedCount(a, e, b);
  }

  /** The two factors the statements multiply are numbers of paths. */
  lemma Factors(ms: Members, t: Counts, grp: int, prin: int, g: int, m: int)
    returns (a: set<seq<int>>, b: set<seq<int>>)
    requires Exact(ms, t) && Acyclic(ms)
    ensures AllPaths0(ms, g, grp, a) && AllPaths0(ms, prin, m, b)
    ensures Touched(t, grp, prin, (g, m)) ==> |a| * |b| == Through(t, grp, prin, (g, m)) > 0
    ensures !Touched(t, grp, prin, (g, m)) ==> |a| * |b| == 0
  {
    a := PathSet0(ms, t, g, grp);
    b := PathSet0(ms, t, prin, m);
    assert g in Above(t, grp) <==> g == grp || (g, grp) in t;
    assert m in Below(t, prin) <==> m == prin || (prin, m) in t;
    if a != {} && b != {} {
      PositiveProduct(|a|, |b|);
    }
  }

  lemma PositiveProduct(a: int, b: int)
    requires a > 0 && b > 0
    ensures a * b > 0
  {
  }

  // ------------------------------------------------ one addition, one removal

  function CountOr0(t: Counts, k: (int, int)): int {
    if k in t then t[k] else 0
  }

  /** The UPDATE and the INSERT together are one simultaneous update, because the
      first leaves alone the rows both read their factors from. */
  lemma AddCountsAt(t: Counts, grp: int, prin: int, k: (int, int))
    requires grp !in Below(t, prin) && prin !in Above(t, grp)
    ensures k in AddCounts(t, grp, prin) <==> k in t || Touched(t, grp, prin, k)
    ensures k in AddCounts(t, grp, prin) ==>
      AddCounts(t, grp, prin)[k] == CountOr0(t, k) + if Touched(t, grp, prin, k) then Through(t, grp, prin, k) else 0
  {
    var u := Updated(t, grp, prin, 1);
    SameSides(t, u, grp, prin);
    assert (k.0, k.1) == k;
    assert !Touched(t, grp, prin, (k.0, grp)) && !Touched(t, grp, prin, (prin, k.1));
    assert Through(u, grp, prin, k) == Through(t, grp, prin, k);
  }

  lemma RemCountsAt(t: Counts, grp: int, prin: int, k: (int, int))
    requires grp !in Below(t, prin) && prin !in Above(t, grp)
    ensures var c := CountOr0(t, k) - if Touched(t, grp, prin, k) then Through(t, grp, prin, k) else 0;
      && (k in RemCounts(t, grp, prin) <==> k in t && !(Touched(t, grp, prin, k) && c == 0))
      && (k in RemCounts(t, grp, prin) ==> RemCounts(t, grp, prin)[k] == c)
  {
  }

  lemma SameSides(t: Counts, u: Counts, grp: int, prin: int)
    requires t.Keys == u.Keys
    ensures Above(t, grp) == Above(u, grp) && Below(t, prin) == Below(u, prin)
  {
  }

  lemma SidesApart(ms: Members, t: Counts, grp: int, prin: int)
    requires Exact(ms, t) && Acyclic(ms) && !Connected(ms, prin, grp)
    ensures grp !in Below(t, prin) && prin !in Above(t, grp)
  {
    RowIffConnected(ms, t, prin, grp);
    assert IsPath(ms, grp, [], grp);
  }

  /** After recording a row, the paths from g to m are the old ones and the new ones. */
  lemma PathsAfter(ms: Members, t: Counts, e: int, grp: int, prin: int, g: int, m: int)
    returns (s: set<seq<int>>, n: set<seq<int>>)
    requires Exact(ms, t) && Acyclic(ms) && e !in ms && !Connected(ms, prin, grp)
    ensures s !! n && AllPaths(ms[e := Edge(grp, prin)], g, m, s + n)
    ensures |s| == CountOr0(t, (g, m)) && ((g, m) in t <==> |s| > 0)
    ensures |n| == if Touched(t, grp, prin, (g, m)) then Through(t, grp, prin, (g, m)) else 0
    ensures |n| > 0 <==> Touched(t, grp, prin, (g, m))
  {
    s := PathSet(ms, t, g, m);
    var a, b := Factors(ms, t, grp, prin, g, m);
    n := NewPaths(ms, e, grp, prin, g, m, a, b);
    var ms' := ms[e := Edge(grp, prin)];
    forall r
      ensures IsPath(ms, g, r, m) <==> e !in r && IsPath(ms', g, r, m)
    {
      OldPaths(ms, e, Edge(grp, prin), g, m, r);
    }
  }

  lemma AddKeepsRight(ms: Members, t: Counts, e: int, grp: int, prin: int, g: int, m: int)
    requires Exact(ms, t) && Acyclic(ms) && e !in ms && !Connected(ms, prin, grp)
    ensures Right(ms[e := Edge(grp, prin)], AddCounts(t, grp, prin), g, m)
  {
    var s, n := PathsAfter(ms, t, e, grp, prin, g, m);
    SidesApart(ms, t, grp, prin);
    AddCountsAt(t, grp, prin, (g, m));
    RightFrom(ms[e := Edge(grp, prin)], AddCounts(t, grp, prin), g, m, s, n);
  }

  lemma RightFrom(ms: Members, t: Counts, g: int, m: int, s: set<seq<int>>, n: set<seq<int>>)
    requires s !! n && AllPaths(ms, g, m, s + n)
    requires (g, m) in t <==> |s| + |n| > 0
    requires (g, m) in t ==> t[(g, m)] == |s| + |n|
    ensures Right(ms, t, g, m)
  {
  }

  lemma AddKeepsExact(ms: Members, t: Counts, e: int, grp: int, prin: int)
    requires Exact(ms, t) && Acyclic(ms) && e !in ms && !Connected(ms, prin, grp)
    ensures Exact(ms[e := Edge(grp, prin)], AddCounts(t, grp, prin))
  {
    var ms', t' := ms[e := Edge(grp, prin)], AddCounts(t, grp, prin);
    forall g, m
      ensures Right(ms', t', g, m)
    {
      AddKeepsRight(ms, t, e, grp, prin, g, m);
    }
  }

  /** Paths that end where the removed row starts, or start where it ends, never
      used it. */
  lemma ClearOfRow(ms: Members, e: int, grp: int, prin: int, g: int, r: seq<int>, m: int)
    requires e !in ms && !Connected(ms, prin, grp) && (m == grp || g == prin)
    ensures IsPath(ms[e := Edge(grp, prin)], g, r, m) <==> IsPath(ms, g, r, m)
  {
    OldPaths(ms, e, Edge(grp, prin), g, m, r);
    if e in r && IsPath(ms[e := Edge(grp, prin)], g, r, m) {
      var p, q := SplitAtRow(ms, e, grp, prin, g, r, m);
      assert false;
    }
  }

  lemma RemKeepsExact(ms: Members, t: Counts, e: int, grp: int, prin: int)
    requires e !in ms && !Connected(ms, prin, grp)
    requires Exact(ms[e := Edge(grp, prin)], t) && Acyclic(ms[e := Edge(grp, prin)])
    ensures Exact(ms, RemCounts(t, grp, prin))
  {
    var ms' := ms[e := Edge(grp, prin)];
    if Connected(ms', prin, grp) {
      var r :| IsPath(ms', prin, r, grp);
      ClearOfRow(ms, e, grp, prin, prin, r, grp);
      assert false;
    }
    SidesApart(ms', t, grp, prin);
    forall g, m
      ensures Right(ms, RemCounts(t, grp, prin), g, m)
    {
      var s := PathSet(ms', t, g, m);
      var a, b := Factors(ms', t, grp, prin, g, m);
      forall r
        ensures IsPath(ms, g, r, grp) <==> IsPath(ms', g, r, grp)
        ensures IsPath(ms, prin, r, m) <==> IsPath(ms', prin, r, m)
        ensures IsPath(ms, g, r, m) <==> e !in r && IsPath(ms', g, r, m)
      {
        ClearOfRow(ms, e, grp, prin, g, r, grp);
        ClearOfRow(ms, e, grp, prin, prin, r, m);
        OldPaths(ms, e, Edge(grp, prin), g, m, r);
      }
      var n := NewPaths(ms, e, grp, prin, g, m, a, b);
      assert n <= s && |s - n| == |s| - |n|;
      RemCountsAt(t, grp, prin, (g, m));
      assert AllPaths(ms, g, m, s - n);
      assert s - n == {} <==> |s - n| == 0;
    }
  }

  lemma ExactTableUnique(ms: Members, t: Counts, t': Counts)
    requires Exact(ms, t) && Exact(ms, t')
    ensures t == t'
  {
    forall k: (int, int)
      ensures k in t <==> k in t'
      ensures k in t ==> t[k] == t'[k]
    {
      var s := PathSet(ms, t, k.0, k.1);
      var s' := PathSet(ms, t', k.0, k.1);
      assert s == s' && k == (k.0, k.1);
    }
  }

  // ------------------------------------------------ when removal is right

  /** The rows that record the membership of prin in grp. */
  function Recorded(ms: Members, grp: int, prin: int): set<int> {
    set e | e in ms && ms[e] == Edge(grp, prin)
  }

  /** DELETE FROM group_members WHERE group_id=? AND member_id=? */
  function Unrecorded(ms: Members, grp: int, prin: int): Members {
    map e | e in ms && ms[e] != Edge(grp, prin) :: ms[e]
  }

  predicate NothingTouched(t: Counts, grp: int, prin: int) {
    forall k :: k in t ==> !Touched(t, grp, prin, k)
  }

  predicate RemovalSafe(ms: Members, t: Counts, grp: int, prin: int) {
    |Recorded(ms, grp, prin)| == 1 || (Recorded(ms, grp, prin) == {} && NothingTouched(t, grp, prin))
  }

  lemma SubAcyclic(ms: Members, ms': Members)
    requires Acyclic(ms') && forall e :: e in ms ==> e in ms' && ms'[e] == ms[e]
    ensures Acyclic(ms)
  {
    forall g, p | IsPath(ms, g, p, g)
      ensures p == []
    {
      forall i | 0 <= i < |p| && p[i] in ms
        ensures p[i] in ms' && ms'[p[i]] == ms[p[i]]
      {
        var e: int := p[i];
        assert e in ms;
      }
      Grow(ms, ms', g, p, g);
    }
  }

  lemma RemoveOnlyRow(ms: Members, t: Counts, grp: int, prin: int)
    requires Exact(ms, t) && Acyclic(ms) && |Recorded(ms, grp, prin)| == 1
    ensures Exact(Unrecorded(ms, grp, prin), RemCounts(t, grp, prin))
  {
    var rows := Recorded(ms, grp, prin);
    var e := Pick(rows);
    assert rows == {e} by {
      assert |rows - {e}| == 0;
    }
    var ms0 := Unrecorded(ms, grp, prin);
    assert e !in ms0;
    forall d | d in ms && d != e
      ensures d in ms0
    {
      assert d !in rows;
    }
    assert ms == ms0[e := Edge(grp, prin)];
    SubAcyclic(ms0, ms);
    AcyclicIffNotConnected(ms0, e, grp, prin);
    RemKeepsExact(ms0, t, e, grp, prin);
  }

  lemma RemoveParallelRows(ms: Members, t: Counts, grp: int, prin: int, d: int, e: int)
    requires Exact(ms, t) && Acyclic(ms)
    requires d in Recorded(ms, grp, prin) && e in Recorded(ms, grp, prin) && d != e
    ensures !Right(Unrecorded(ms, grp, prin), RemCounts(t, grp, prin), grp, prin)
    ensures (grp, prin) in RemCounts(t, grp, prin)
  {
    var ms0 := Unrecorded(ms, grp, prin);
    var s := PathSet(ms, t, grp, prin);
    assert IsPath(ms, grp, [d], prin) && IsPath(ms, grp, [e], prin);
    assert {[d], [e]} <= s;
    RowIffConnected(ms, t, grp, grp);
    RowIffConnected(ms, t, prin, prin);
    assert Through(t, grp, prin, (grp, prin)) == 1 && Touched(t, grp, prin, (grp, prin));
    forall s0 | AllPaths(ms0, grp, prin, s0)
      ensures |s0| <= |s| - 2
    {
      forall r | r in s0
        ensures r in s && r != [d] && r != [e]
      {
        Grow(ms0, ms, grp, r, prin);
      }
      Subsets(s0, s - {[d], [e]});
    }
    assert |{[d], [e]}| == 2;
    Subsets({[d], [e]}, s);
    assert RemCounts(t, grp, prin)[(grp, prin)] == |s| - 1;
  }

  lemma RemoveNoRow(ms: Members, t: Counts, grp: int, prin: int)
    requires Exact(ms, t) && Acyclic(ms) && Recorded(ms, grp, prin) == {}
    ensures Exact(Unrecorded(ms, grp, prin), RemCounts(t, grp, prin)) <==> NothingTouched(t, grp, prin)
  {
    forall e | e in ms
      ensures ms[e] != Edge(grp, prin)
    {
      assert e !in Recorded(ms, grp, prin);
    }
    assert Unrecorded(ms, grp, prin) == ms;
    var u := Updated(t, grp, prin, -1);
    SameSides(t, u, grp, prin);
    if NothingTouched(t, grp, prin) {
      assert RemCounts(t, grp, prin) == t;
    } else {
      var k :| k in t && Touched(t, grp, prin, k);
      var a, b := Factors(ms, t, grp, prin, k.0, k.1);
      assert k == (k.0, k.1);
      assert u[k] != t[k];
      assert RemCounts(t, grp, prin) != t;
      if Exact(ms, RemCounts(t, grp, prin)) {
        ExactTableUnique(ms, t, RemCounts(t, grp, prin));
        assert false;
      }
    }
  }

  /** Removing a membership leaves the counts right exactly when one row records it,
      or none does and no cached pair goes through it. */
  lemma RemovalRightIff(ms: Members, t: Counts, grp: int, prin: int)
    requires Exact(ms, t) && Acyclic(ms)
    ensures Exact(Unrecorded(ms, grp, prin), RemCounts(t, grp, prin)) <==> RemovalSafe(ms, t, grp, prin)
  {
    var rows := Recorded(ms, grp, prin);
    if rows == {} {
      RemoveNoRow(ms, t, grp, prin);
    } else if |rows| == 1 {
      RemoveOnlyRow(ms, t, grp, prin);
    } else {
      var d := Pick(rows);
      assert rows - {d} != {} by {
        assert |rows - {d}| == |rows| - 1;
      }
      var e := Pick(rows - {d});
      RemoveParallelRows(ms, t, grp, prin, d, e);
    }
  }

  // ------------------------------------------------ deleting a principal

  predicate Mentions(e: Edge, x: int) {
    e.group == x || e.member == x
  }

  /** ON DELETE CASCADE from principals: both tables lose the rows that mention x. */
  function WithoutPrincipal(ms: Members, x: int): Members {
    map e | e in ms && !Mentions(ms[e], x) :: ms[e]
  }

  function CountsWithout(t: Counts, x: int): Counts {
    map k | k in t && k.0 != x && k.1 != x :: t[k]
  }

  /** Nothing is cached through x. */
  predicate DeletionSafe(t: Counts, x: int) {
    forall k, l :: k in t && l in t ==> !(k.1 == x && l.0 == x)
  }

  /** A path of the remaining rows is a path that never meets x. */
  lemma {:induction false} PathWithout(ms: Members, x: int, g: int, p: seq<int>, m: int)
    requires g != x
    ensures IsPath(WithoutPrincipal(ms, x), g, p, m) ==> IsPath(ms, g, p, m) && m != x
    ensures IsPath(ms, g, p, m) && !IsPath(WithoutPrincipal(ms, x), g, p, m) ==>
      Connected(ms, g, x) && Connected(ms, x, m)
    decreases |p|
  {
    if p == [] {
      return;
    }
    var e: int := p[0];
    assert e in WithoutPrincipal(ms, x) <==> e in ms && !Mentions(ms[e], x);
    if e in ms && ms[e].group == g {
      var h := ms[e].member;
      assert [e][1..] == [] && IsPath(ms, h, [], h);
      assert IsPath(ms, g, [e], h);
      assert IsPath(ms, g, p, m) ==> IsPath(ms, h, p[1..], m);
      if h != x {
        PathWithout(ms, x, h, p[1..], m);
        if IsPath(ms, g, p, m) && !IsPath(WithoutPrincipal(ms, x), g, p, m) {
          var q :| IsPath(ms, h, q, x);
          Join(ms, g, [e], h, q, x);
        }
      }
    }
  }

  lemma NoPathFrom(ms: Members, x: int, p: seq<int>, m: int)
    requires p != []
    ensures !IsPath(WithoutPrincipal(ms, x), x, p, m)
  {
    var e: int := p[0];
    assert e in WithoutPrincipal(ms, x) ==> !Mentions(ms[e], x);
  }

  lemma DeletionKeepsRight(ms: Members, t: Counts, x: int, g: int, m: int)
    requires Exact(ms, t) && Acyclic(ms) && DeletionSafe(t, x)
    ensures Right(WithoutPrincipal(ms, x), CountsWithout(t, x), g, m)
  {
    var ms', t' := WithoutPrincipal(ms, x), CountsWithout(t, x);
    var s: set<seq<int>> := {};
    if g != x && m != x {
      s := PathSet(ms, t, g, m);
    }
    RowIffConnected(ms, t, g, x);
    RowIffConnected(ms, t, x, m);
    forall p
      ensures p in s <==> p != [] && IsPath(ms', g, p, m)
    {
      if g == x {
        if p != [] {
          NoPathFrom(ms, x, p, m);
        }
      } else {
        PathWithout(ms, x, g, p, m);
      }
    }
    assert AllPaths(ms', g, m, s);
  }

  lemma DeletionLosesPath(ms: Members, t: Counts, x: int, g: int, m: int)
    requires Exact(ms, t) && Acyclic(ms) && (g, x) in t && (x, m) in t
    ensures !Right(WithoutPrincipal(ms, x), CountsWithout(t, x), g, m)
  {
    var ms', t' := WithoutPrincipal(ms, x), CountsWithout(t, x);
    RowIffConnected(ms, t, g, x);
    RowIffConnected(ms, t, x, m);
    var p :| IsPath(ms, g, p, x);
    var q :| IsPath(ms, x, q, m);
    Join(ms, g, p, x, q, m);
    var s := PathSet(ms, t, g, m);
    assert p + q in s && (g, m) in t';
    forall s' | AllPaths(ms', g, m, s')
      ensures |s'| < t'[(g, m)]
    {
      forall r | r in s'
        ensures r in s && r != p + q
      {
        PathWithout(ms, x, g, r, m);
        if r == p + q {
          MeetsNot(ms, x, g, p, q, m);
        }
      }
      Subsets(s', s - {p + q});
    }
  }

  /** A path through x is not one of the remaining rows. */
  lemma {:induction false} MeetsNot(ms: Members, x: int, g: int, p: seq<int>, q: seq<int>, m: int)
    requires g != x && IsPath(ms, g, p, x)
    ensures !IsPath(WithoutPrincipal(ms, x), g, p + q, m)
    decreases |p|
  {
    var e: int := p[0];
    if e in WithoutPrincipal(ms, x) {
      assert !Mentions(ms[e], x);
      MeetsNot(ms, x, ms[e].member, p[1..], q, m);
      assert (p + q)[1..] == p[1..] + q;
    }
  }

  /** Deleting a principal leaves the counts right exactly when it is not both a cached
      member and a cached group: no statement takes the paths through it off the counts. */
  lemma DeletionRightIff(ms: Members, t: Counts, x: int)
    requires Exact(ms, t) && Acyclic(ms)
    ensures Exact(WithoutPrincipal(ms, x), CountsWithout(t, x)) <==> DeletionSafe(t, x)
    ensures Acyclic(WithoutPrincipal(ms, x))
  {
    SubAcyclic(WithoutPrincipal(ms, x), ms);
    if DeletionSafe(t, x) {
      forall g, m
        ensures Right(WithoutPrincipal(ms, x), CountsWithout(t, x), g, m)
      {
        DeletionKeepsRight(ms, t, x, g, m);
      }
    } else {
      var k, l :| k in t && l in t && k.1 == x && l.0 == x;
      assert k == (k.0, x) && l == (x, l.1);
      DeletionLosesPath(ms, t, x, k.0, l.1);
    }
  }
}
