/** Depth-infinity copy of a collection (sabridge_depth_inf_copy_coll and
    sabridge_create_copy in limestone/bridge.c) into a destination that has no children
    yet.  The map of copies is keyed by the text of URIs. */
module Copy {
  import opened Common
  import opened BindGraph
  import opened Listing
  import opened UriText

  /** The copy made of each resource; the source is copied by the destination. */
  type Copies = map<int, int>

  ghost predicate Injective(f: Copies) {
    forall a, b :: a in f && b in f && f[a] == f[b] ==> a == b
  }

  ghost function Images(f: Copies): set<int> {
    set r | r in f :: f[r]
  }

  ghost predicate BindAt(binds: set<Bind>, c: int, name: string, r: int) {
    exists b :: b in binds && b.coll == c && b.name == name && b.res == r
  }

  /** g, the listed part of the source, and `binds` look the same from the copies:
      a bind leads from c to r exactly when one of the same name leads from the copy of c
      to the copy of r, and the binds of a copy lead to copies only. */
  ghost predicate SameShape(g: set<Bind>, src: int, f: Copies, binds: set<Bind>) {
    && (forall c, n, r :: c in f && r in f ==>
         ((BindAt(g, c, n, r) && Reach(g, src, c)) <==> BindAt(binds, f[c], n, f[r])))
    && (forall b :: b in binds && b.coll in Images(f) ==> b.res in Images(f))
    && (forall b :: b in g && Reach(g, src, b.coll) ==> b.coll in f && b.res in f)
  }

  ghost predicate FreshBelow(live: set<int>, binds: set<Bind>, next: int) {
    (forall r :: r in live ==> r < next) && forall b :: b in binds ==> b.coll in live && b.res in live
  }

  // ---------------------------------------------------------------- the loop over the listing

  /** The copies of the first n entries: new resources, and the destination for the source. */
  ghost predicate CopiesOf(entries: seq<Entry>, n: nat, src: int, dst: int, live: set<int>, first: int,
      next: int, live': set<int>, f: Copies)
    requires n <= |entries|
  {
    && first <= next && dst < first
    && src in f && f[src] == dst && Injective(f)
    && (forall r :: r in f <==> r == src || Met(entries, n, r))
    && (forall r :: r in f && r != src ==> first <= f[r] < next)
    && (forall r :: r in live' <==> r in live || (first <= r < next && r in Images(f)))
    && (forall x :: first <= x < next ==> x in Images(f))
  }

  /** The rows that make the copies look like what was listed. */
  ghost predicate RowsFor(entries: seq<Entry>, n: nat, f: Copies, rows: seq<(int, string, int)>)
    requires n <= |entries|
  {
    |rows| == n && forall i :: 0 <= i < n ==>
      entries[i].bind.coll in f && entries[i].bind.res in f &&
      rows[i] == (f[entries[i].bind.coll], entries[i].bind.name, f[entries[i].bind.res])
  }

  lemma NewCopy(entries: seq<Entry>, n: nat, src: int, dst: int, live: set<int>, first: int, next: int,
      live': set<int>, f: Copies)
    requires n < |entries| && CopiesOf(entries, n, src, dst, live, first, next, live', f)
    requires LinkRight(src, entries, n) && entries[n].link.Fresh?
    ensures CopiesOf(entries, n + 1, src, dst, live, first, next + 1, live' + {next}, f[entries[n].bind.res := next])
  {
    var r := entries[n].bind.res;
    var f' := f[r := next];
    assert r !in f;
    forall q
      ensures Met(entries, n + 1, q) <==> Met(entries, n, q) || q == r
    {
      MetNext(entries, n, q);
    }
    forall x
      ensures x in Images(f') <==> x in Images(f) || x == next
    {
      if x in Images(f) {
        var q :| q in f && f[q] == x;
        assert q in f' && f'[q] == x;
      }
      if x == next {
        assert r in f' && f'[r] == x;
      }
    }
  }

  lemma OldCopy(entries: seq<Entry>, n: nat, src: int, dst: int, live: set<int>, first: int, next: int,
      live': set<int>, f: Copies)
    requires n < |entries| && CopiesOf(entries, n, src, dst, live, first, next, live', f)
    requires entries[n].bind.res in f
    ensures CopiesOf(entries, n + 1, src, dst, live, first, next, live', f)
  {
  }

  // ---------------------------------------------------------------- the result

  /** The rows as binds, with consecutive row ids. */
  function NewBinds(rows: seq<(int, string, int)>, first: int): set<Bind> {
    set i | 0 <= i < |rows| :: Bind(first + i, rows[i].0, rows[i].1, rows[i].2)
  }

  lemma NewBindAt(rows: seq<(int, string, int)>, first: int, b: Bind)
    ensures b in NewBinds(rows, first) <==>
      0 <= b.id - first < |rows| && (b.coll, b.name, b.res) == rows[b.id - first]
  {
    var i := b.id - first;
    if 0 <= i < |rows| && (b.coll, b.name, b.res) == rows[i] {
      assert b == Bind(first + i, rows[i].0, rows[i].1, rows[i].2);
    }
  }

  /** The new binds lead where the rows say, and nothing is lost. */
  ghost predicate Inserted(rows: seq<(int, string, int)>, binds: set<Bind>, binds': set<Bind>) {
    binds <= binds' &&
    (forall b :: b in binds' && b !in binds ==> (b.coll, b.name, b.res) in rows) &&
    forall t :: t in rows ==> BindAt(binds', t.0, t.1, t.2)
  }

  lemma CopyHasShape(g: set<Bind>, base: string, src: int, dst: int, entries: seq<Entry>, live: set<int>, first: int,
      next: int, live': set<int>,
                     f: Copies, rows: seq<(int, string, int)>, binds: set<Bind>, binds': set<Bind>)
    requires IsListing(g, base, src, entries)
    requires CopiesOf(entries, |entries|, src, dst, live, first, next, live', f) && RowsFor(entries, |entries|, f, rows)
    requires FreshBelow(live, binds, first) && forall b :: b in binds ==> b.coll != dst
    requires Inserted(rows, binds, binds')
    ensures SameShape(g, src, f, binds')
    ensures forall b :: b in binds' && b !in binds ==> b.coll in Images(f)
  {
  }

  lemma RowBind(rows: seq<(int, string, int)>, first: int, i: nat)
    requires i < |rows|
    ensures Bind(first + i, rows[i].0, rows[i].1, rows[i].2) in NewBinds(rows, first)
  {
  }

  lemma NewBindsNext(rows: seq<(int, string, int)>, first: int, i: nat)
    requires i < |rows|
    ensures NewBinds(rows[..i + 1], first) ==
            NewBinds(rows[..i], first) + {Bind(first + i, rows[i].0, rows[i].1, rows[i].2)}
  {
    var d := Bind(first + i, rows[i].0, rows[i].1, rows[i].2);
    forall b
      ensures b in NewBinds(rows[..i + 1], first) <==> b in NewBinds(rows[..i], first) || b == d
    {
      NewBindAt(rows[..i + 1], first, b);
      NewBindAt(rows[..i], first, b);
    }
  }

  lemma NewBindsInserted(rows: seq<(int, string, int)>, first: int, binds: set<Bind>)
    ensures Inserted(rows, binds, binds + NewBinds(rows, first))
  {
    var all := binds + NewBinds(rows, first);
    forall t | t in rows
      ensures BindAt(all, t.0, t.1, t.2)
    {
      var i :| 0 <= i < |rows| && rows[i] == t;
      assert Bind(first + i, t.0, t.1, t.2) in NewBinds(rows, first);
    }
  }

  /** The rows meet the constraints on names: in the copy they are those of the listing. */
  lemma NamesStayUnique(g: set<Bind>, base: string, src: int, dst: int, entries: seq<Entry>, f: Copies, live: set<int>,
      rows: seq<(int, string, int)>, first: int, binds: set<Bind>)
    requires IsListing(g, base, src, entries) && NamesUnique(g) && NamesUnique(binds)
    requires RowsFor(entries, |entries|, f, rows) && Injective(f) && src in f && f[src] == dst
    requires forall r :: r in f && r != src ==> f[r] !in live
    requires forall b :: b in binds ==> b.coll in live && b.coll != dst
    ensures NamesUnique(binds + NewBinds(rows, first))
  {
    var added := NewBinds(rows, first);
    forall a, b | a in binds + added && b in binds + added && a.coll == b.coll && a.name == b.name
      ensures a == b
    {
      NewBindAt(rows, first, a);
      NewBindAt(rows, first, b);
      if a in added && b in added {
        var i, j := a.id - first, b.id - first;
        assert entries[i].bind.coll == entries[j].bind.coll;
        assert entries[i].bind == entries[j].bind;
        assert i == j;
      }
    }
  }

  /** New resources are of the kind of what they copy; old ones keep theirs. */
  ghost predicate KindsOf(f: Copies, src: int, first: int, next: int, colls: set<int>, colls': set<int>) {
    && (forall r :: r in f && r != src ==> (f[r] in colls' <==> r in colls))
    && (forall c :: c in colls ==> c in colls' && c < first)
    && (forall c :: c in colls' && c !in colls ==> first <= c < next)
  }

  /** What is copied: the source and everything listed below it. */
  ghost predicate Listed(g: set<Bind>, src: int, r: int) {
    r == src || exists b :: b in g && Reach(g, src, b.coll) && b.res == r
  }

  lemma MetIsListed(g: set<Bind>, base: string, src: int, entries: seq<Entry>, r: int)
    requires IsListing(g, base, src, entries)
    ensures r == src || Met(entries, |entries|, r) <==> Listed(g, src, r)
  {
    if Met(entries, |entries|, r) {
      var i :| 0 <= i < |entries| && entries[i].bind.res == r;
      assert Holds(entries, entries[i].bind);
    }
    if b :| b in g && Reach(g, src, b.coll) && b.res == r {
      assert Holds(entries, b);
    }
  }

  lemma LiveAfter(entries: seq<Entry>, n: nat, src: int, dst: int, live: set<int>, first: int, next: int,
      live': set<int>, f: Copies)
    requires n <= |entries| && CopiesOf(entries, n, src, dst, live, first, next, live', f) && dst in live
    requires forall r :: r in live ==> r < first
    ensures live' == live + Images(f) && forall r :: r in f && r != src ==> f[r] !in live
  {
    var all := live + Images(f);
    forall x: int
      ensures x in live' <==> x in all
    {
      if x in Images(f) {
        var q :| q in f && f[q] == x;
      }
    }
    assert live' <= all && all <= live';
  }

  lemma KindsLive(entries: seq<Entry>, src: int, dst: int, live: set<int>, first: int, next: int,
      live': set<int>, f: Copies, colls: set<int>, colls': set<int>)
    requires CopiesOf(entries, |entries|, src, dst, live, first, next, live', f)
    requires KindsOf(f, src, first, next, colls, colls') && colls <= live && forall r :: r in live ==> r < first
    ensures colls' <= live' && forall r :: r in live ==> (r in colls' <==> r in colls)
  {
    forall c | c in colls'
      ensures c in live'
    {
      assert c in colls || c in Images(f);
    }
  }

  /** The same names lead to the copy of what they led to, and to nothing else. */
  lemma {:induction false} CopyResolves(g: set<Bind>, src: int, f: Copies, binds: set<Bind>, c: int,
      p: seq<Bind>, r: int)
    requires SameShape(g, src, f, binds) && c in f && Reach(g, src, c) && IsWalk(g, c, p, r)
    ensures r in f && exists q :: IsWalk(binds, f[c], q, f[r]) && Names(q) == Names(p)
    decreases |p|
  {
    if p == [] {
      assert IsWalk(binds, f[c], [], f[r]) && Names([]) == Names(p);
    } else {
      var b: Bind := p[0];
      ReachStep(g, src, b);
      assert b in g && b.coll in f && b.res in f;
      CopyResolves(g, src, f, binds, b.res, p[1..], r);
      var q :| IsWalk(binds, f[b.res], q, f[r]) && Names(q) == Names(p[1..]);
      assert BindAt(g, c, b.name, b.res);
      var d: Bind :| d in binds && d.coll == f[c] && d.name == b.name && d.res == f[b.res];
      assert ([d] + q)[1..] == q;
      assert IsWalk(binds, f[c], [d] + q, f[r]);
      assert Names([d] + q) == Names(p);
    }
  }

  lemma {:induction false} CopyResolvesOnly(g: set<Bind>, src: int, f: Copies, binds: set<Bind>, c: int,
      q: seq<Bind>, x: int)
    requires SameShape(g, src, f, binds) && Injective(f) && c in f && Reach(g, src, c) && IsWalk(binds, f[c], q, x)
    ensures exists p, r :: r in f && f[r] == x && IsWalk(g, c, p, r) && Names(p) == Names(q)
    decreases |q|
  {
    if q == [] {
      assert IsWalk(g, c, [], c) && Names([]) == Names(q);
    } else {
      var d: Bind := q[0];
      assert f[c] in Images(f) && d in binds;
      var s :| s in f && f[s] == d.res;
      assert BindAt(binds, f[c], d.name, f[s]);
      assert BindAt(g, c, d.name, s);
      var b: Bind :| b in g && b.coll == c && b.name == d.name && b.res == s;
      ReachStep(g, src, b);
      CopyResolvesOnly(g, src, f, binds, s, q[1..], x);
      var p, r :| r in f && f[r] == x && IsWalk(g, s, p, r) && Names(p) == Names(q[1..]);
      assert ([b] + p)[1..] == p;
      assert IsWalk(g, c, [b] + p, r) && Names([b] + p) == Names(q);
    }
  }

  // ---------------------------------------------------------------- the map of copies

  /** copy_map after n entries, `copies` being what was looked up or made for each. */
  function MapAfter(entries: seq<Entry>, base: string, dst: int, copies: seq<int>, n: nat): map<string, int>
    requires n <= |entries| && n <= |copies|
  {
    if n == 0 then map[base := dst]
    else MapAfter(entries, base, dst, copies, n - 1)[entries[n - 1].uri := copies[n - 1]]
  }

  /** One run of the loop: the source and its URI, the destination, the listing, and what
      the loop has made of it so far. */
  datatype Loop = Loop(g: set<Bind>, base: string, src: int, dst: int, entries: seq<Entry>,
                       f: Copies, copies: seq<int>, rows: seq<(int, string, int)>)

  /** A new copy where the entry has no link, else the one mapped from the URI it links to. */
  ghost predicate CopyRight(x: Loop, f: Copies, m: map<string, int>, i: nat, copy: int)
    requires i < |x.entries|
  {
    match x.entries[i].link
    case Fresh => x.entries[i].bind.res in f && copy == f[x.entries[i].bind.res]
    case Start => x.base in m && copy == m[x.base]
    case Earlier(j) => j < i && x.entries[j].uri in m && copy == m[x.entries[j].uri]
  }

  /** Turn i: the parent's copy from the map, the last segment of the URI as the name, and
      the copy. */
  ghost predicate Turn(x: Loop, i: nat)
    requires i < |x.entries| && i < |x.copies| && i < |x.rows|
  {
    var m, e := MapAfter(x.entries, x.base, x.dst, x.copies, i), x.entries[i];
    var parent := ParentUri(e.uri);
    && parent in m && x.rows[i] == (m[parent], BaseName(e.uri), x.copies[i])
    && CopyRight(x, x.f, m, i, x.copies[i])
  }

  ghost predicate Traced(x: Loop, n: nat) {
    && |x.copies| == |x.rows| == n <= |x.entries|
    && forall i :: 0 <= i < n ==> Turn(x, i)
  }

  /** What holds of every run, whatever the names.  The source's URI has no slash at its end. */
  ghost predicate Started(x: Loop) {
    && IsListing(x.g, x.base, x.src, x.entries) && NamesUnique(x.g) && Chomped(x.base) == x.base
    && x.src in x.f && x.f[x.src] == x.dst && Injective(x.f)
  }

  ghost predicate Ran(x: Loop, first: int) {
    && Started(x) && Traced(x, |x.entries|)
    && (forall r :: r in x.f <==> r == x.src || Met(x.entries, |x.entries|, r))
    && x.dst < first && forall r :: r in x.f && r != x.src ==> first <= x.f[r]
  }

  lemma {:induction false} MapPrefix(entries: seq<Entry>, base: string, dst: int, a: seq<int>, b: seq<int>, n: nat)
    requires n <= |entries| && n <= |a| && a <= b
    ensures MapAfter(entries, base, dst, a, n) == MapAfter(entries, base, dst, b, n)
  {
    if n > 0 {
      MapPrefix(entries, base, dst, a, b, n - 1);
    }
  }

  lemma {:induction false} MapHas(entries: seq<Entry>, base: string, dst: int, copies: seq<int>, n: nat, key: string)
    requires n <= |entries| && n <= |copies|
    ensures key in MapAfter(entries, base, dst, copies, n) <==>
      key == base || exists a :: 0 <= a < n && entries[a].uri == key
  {
    if n > 0 {
      MapHas(entries, base, dst, copies, n - 1, key);
      assert key == entries[n - 1].uri ==> exists a :: 0 <= a < n && entries[a].uri == key;
    }
  }

  lemma TurnKept(x: Loop, y: Loop, i: nat)
    requires i < |x.entries| && i < |x.copies| && i < |x.rows| && Turn(x, i)
    requires y == x.(f := y.f, copies := y.copies, rows := y.rows) && x.copies <= y.copies && x.rows <= y.rows
    requires forall r :: r in x.f ==> r in y.f && y.f[r] == x.f[r]
    ensures Turn(y, i)
  {
    MapPrefix(x.entries, x.base, x.dst, x.copies, y.copies, i);
  }

  lemma TurnAdded(x: Loop, n: nat, f: Copies, copy: int, row: (int, string, int))
    requires Traced(x, n) && n < |x.entries| && forall r :: r in x.f ==> r in f && f[r] == x.f[r]
    requires var m, parent := MapAfter(x.entries, x.base, x.dst, x.copies, n), ParentUri(x.entries[n].uri);
      && CopyRight(x, f, m, n, copy)
      && parent in m && row == (m[parent], BaseName(x.entries[n].uri), copy)
    ensures var y := x.(f := f, copies := x.copies + [copy], rows := x.rows + [row]);
      && Traced(y, n + 1) && MapAfter(x.entries, x.base, x.dst, y.copies, n + 1)
        == MapAfter(x.entries, x.base, x.dst, x.copies, n)[x.entries[n].uri := copy]
  {
    var y := x.(f := f, copies := x.copies + [copy], rows := x.rows + [row]);
    MapPrefix(x.entries, x.base, x.dst, x.copies, y.copies, n);
    forall i: nat | i < n
      ensures Turn(y, i)
    {
      TurnKept(x, y, i);
    }
  }

  ghost predicate DistinctUris(entries: seq<Entry>, n: nat)
    requires n <= |entries|
  {
    forall i, j :: 0 <= i < j < n ==> entries[i].uri != entries[j].uri
  }

  lemma BaseApart(x: Loop, i: nat)
    requires Started(x) && i < |x.entries|
    ensures x.entries[i].uri != x.base
  {
    assert Chomped("/") == Chomped("/"[..0]);
    UriLonger(x.g, x.base, x.src, x.entries, i);
  }

  /** As long as URIs are distinct the map holds what was put in last. */
  lemma {:induction false} MapAt(x: Loop, n: nat, a: nat)
    requires Started(x) && n <= |x.entries| && n <= |x.copies| && DistinctUris(x.entries, n)
    ensures var m := MapAfter(x.entries, x.base, x.dst, x.copies, n);
      && x.base in m && m[x.base] == x.dst
      && (a < n ==> x.entries[a].uri in m && m[x.entries[a].uri] == x.copies[a])
  {
    if n > 0 {
      MapAt(x, n - 1, a);
      BaseApart(x, n - 1);
    }
  }

  /** Two entries of one URI make two rows with the same collection and name ... */
  lemma SameUriSameRow(x: Loop, i: nat, j: nat)
    requires Started(x) && Traced(x, |x.entries|) && i < j < |x.entries| && DistinctUris(x.entries, j)
    requires x.entries[i].uri == x.entries[j].uri
    ensures x.rows[i].0 == x.rows[j].0 && x.rows[i].1 == x.rows[j].1
  {
    var key := ParentUri(x.entries[i].uri);
    assert Turn(x, i) && Turn(x, j);
    MapHas(x.entries, x.base, x.dst, x.copies, i, key);
    var a := 0;
    if key != x.base {
      a :| 0 <= a < i && x.entries[a].uri == key;
    }
    MapAt(x, i, a);
    MapAt(x, j, a);
  }

  /** ... which the INSERT refuses. */
  lemma {:induction false} InsertedDistinct(x: Loop, nextBind: int, binds: set<Bind>, n: nat)
    requires Started(x) && Traced(x, |x.entries|) && n <= |x.entries|
    requires NamesUnique(binds + NewBinds(x.rows, nextBind))
    ensures DistinctUris(x.entries, n)
  {
    if n > 0 {
      var j := n - 1;
      InsertedDistinct(x, nextBind, binds, j);
      forall i: nat | i < j
        ensures x.entries[i].uri != x.entries[j].uri
      {
        if x.entries[i].uri == x.entries[j].uri {
          SameUriSameRow(x, i, j);
          RowBind(x.rows, nextBind, i);
          RowBind(x.rows, nextBind, j);
          assert false;
        }
      }
    }
  }

  /** Then every entry gets the copy of its resource. */
  lemma {:induction false} CopyOfEntry(x: Loop, first: int, i: nat)
    requires Ran(x, first) && DistinctUris(x.entries, |x.entries|) && i < |x.entries|
    ensures x.entries[i].bind.res in x.f && x.copies[i] == x.f[x.entries[i].bind.res]
    decreases i
  {
    assert Turn(x, i) && LinkRight(x.src, x.entries, i);
    match x.entries[i].link {
      case Fresh =>
      case Start => MapAt(x, i, 0);
      case Earlier(j) =>
        MapAt(x, i, j);
        CopyOfEntry(x, first, j);
    }
  }

  /** Rows lie among the copies. */
  lemma RowInside(x: Loop, first: int, i: nat)
    requires Ran(x, first) && DistinctUris(x.entries, |x.entries|) && i < |x.entries|
    ensures x.rows[i].0 in Images(x.f) && x.rows[i].2 in Images(x.f)
  {
    assert Turn(x, i);
    CopyOfEntry(x, first, i);
    var key, a := ParentUri(x.entries[i].uri), 0;
    MapHas(x.entries, x.base, x.dst, x.copies, i, key);
    if key != x.base {
      a :| 0 <= a < i && x.entries[a].uri == key;
      CopyOfEntry(x, first, a);
    }
    MapAt(x, i, a);
  }

  // ---------------------------------------------------------------- names the copy can bear

  /** Entry i is listed below a collection that was met first under an empty name. */
  ghost predicate BelowEmpty(entries: seq<Entry>, i: nat)
    requires i < |entries|
  {
    exists j :: 0 <= j < |entries| && entries[j].link.Fresh? && entries[j].bind.res == entries[i].bind.coll
      && entries[j].bind.name == ""
  }

  ghost predicate Copyable(entries: seq<Entry>) {
    NoSlashNames(entries) && forall i :: 0 <= i < |entries| ==> !BelowEmpty(entries, i)
  }

  /** What get_parent_uri leads to: the URI of a named ancestor, the nearest unless a
      collection without a name comes between. */
  lemma {:induction false} ParentKey(x: Loop, i: nat) returns (a: int)
    requires Started(x) && NoSlashNames(x.entries) && i < |x.entries|
    ensures -1 <= a < i && ParentUri(x.entries[i].uri) == (if a == -1 then x.base else x.entries[a].uri)
    ensures a >= 0 ==> x.entries[a].link.Fresh? && x.entries[a].bind.name != ""
    ensures BelowEmpty(x.entries, i) || ParentAt(x.base, x.src, x.entries, i, a)
    decreases i
  {
    a := ParentOf(x.g, x.base, x.src, x.entries, i);
    if a == -1 {
      ChildParts(x.base, x.entries[i].bind.name);
    } else {
      var b := ParentOf(x.g, x.base, x.src, x.entries, a);
      var t := if b == -1 then x.base else x.entries[b].uri;
      ChildParts(x.entries[a].uri, x.entries[i].bind.name);
      ChildEnd(t, x.entries[a].bind.name);
      if x.entries[a].bind.name == "" {
        ChildParts(t, "");
        a := ParentKey(x, a);
      }
    }
  }

  /** Without slashes in the names there is always a parent's copy. */
  lemma ParentFound(x: Loop, n: nat)
    requires Started(x) && n < |x.entries| && n <= |x.copies| && NoSlashNames(x.entries)
    ensures ParentUri(x.entries[n].uri) in MapAfter(x.entries, x.base, x.dst, x.copies, n)
  {
    var a := ParentKey(x, n);
    MapHas(x.entries, x.base, x.dst, x.copies, n, ParentUri(x.entries[n].uri));
  }

  /** Row i binds the copy of the right resource, in the copy of some named ancestor. */
  lemma RowOf(x: Loop, first: int, i: nat) returns (a: int)
    requires Ran(x, first) && DistinctUris(x.entries, |x.entries|) && NoSlashNames(x.entries) && i < |x.entries|
    ensures var e := x.entries[i];
      -1 <= a < i && e.bind.res in x.f && (a >= 0 ==> x.entries[a].bind.res in x.f) &&
      x.rows[i] == (if a == -1 then x.dst else x.f[x.entries[a].bind.res], e.bind.name, x.f[e.bind.res])
    ensures a >= 0 ==> x.entries[a].link.Fresh? && x.entries[a].bind.name != ""
    ensures BelowEmpty(x.entries, i) || ParentAt(x.base, x.src, x.entries, i, a)
  {
    a := ParentKey(x, i);
    assert Turn(x, i);
    CopyOfEntry(x, first, i);
    if a == -1 {
      MapAt(x, i, 0);
    } else {
      MapAt(x, i, a);
      CopyOfEntry(x, first, a);
    }
    var b := ParentOf(x.g, x.base, x.src, x.entries, i);
    ChildParts(if b == -1 then x.base else x.entries[b].uri, x.entries[i].bind.name);
  }

  lemma RowRight(x: Loop, first: int, i: nat)
    requires Ran(x, first) && DistinctUris(x.entries, |x.entries|) && NoSlashNames(x.entries) && i < |x.entries|
    requires !BelowEmpty(x.entries, i)
    ensures var b := x.entries[i].bind;
      b.coll in x.f && b.res in x.f && x.rows[i] == (x.f[b.coll], b.name, x.f[b.res])
  {
    var a := RowOf(x, first, i);
  }

  lemma CopyableDistinct(x: Loop)
    requires Started(x) && Copyable(x.entries)
    ensures DistinctUris(x.entries, |x.entries|)
  {
    forall i, j | 0 <= i < |x.entries| && 0 <= j < |x.entries| && x.entries[j].link.Fresh?
        && x.entries[j].bind.res == x.entries[i].bind.coll
      ensures x.entries[j].uri != "/"
    {
      assert !BelowEmpty(x.entries, i);
      var k := ParentOf(x.g, x.base, x.src, x.entries, j);
    }
    forall i: nat, j: nat | i < j < |x.entries|
      ensures x.entries[i].uri != x.entries[j].uri
    {
      if x.entries[i].uri == x.entries[j].uri {
        UrisUnique(x.g, x.base, x.src, x.entries, i, j);
        assert false;
      }
    }
  }

  lemma CopyableRows(x: Loop, first: int)
    requires Ran(x, first) && Copyable(x.entries)
    ensures RowsFor(x.entries, |x.entries|, x.f, x.rows)
  {
    CopyableDistinct(x);
    forall i: nat | i < |x.entries|
      ensures var b := x.entries[i].bind;
        b.coll in x.f && b.res in x.f && x.rows[i] == (x.f[b.coll], b.name, x.f[b.res])
    {
      RowRight(x, first, i);
    }
  }

  // ---------------------------------------------------------------- what a copy shows of its source

  /** From dst the binds look the same as what is listed below src. */
  ghost predicate Mirrors(g: set<Bind>, src: int, dst: int, binds: set<Bind>) {
    exists h: Copies :: src in h && h[src] == dst && SameShape(g, src, h, binds)
  }

  /** A bind of the destination or a new resource is one of the rows. */
  lemma NewRow(x: Loop, first: int, live: set<int>, nextBind: int, binds: set<Bind>, b: Bind) returns (k: nat)
    requires Ran(x, first) && FreshBelow(live, binds, first) && forall d :: d in binds ==> d.coll != x.dst
    requires b in binds + NewBinds(x.rows, nextBind) && (b.coll == x.dst || b.coll >= first)
    ensures k < |x.rows| && (b.coll, b.name, b.res) == x.rows[k]
  {
    NewBindAt(x.rows, nextBind, b);
    k := b.id - nextBind;
  }

  lemma {:induction false} WalkStaysNew(x: Loop, first: int, live: set<int>, nextBind: int, binds: set<Bind>,
                                        c: int, q: seq<Bind>, r: int)
    requires Ran(x, first) && FreshBelow(live, binds, first) && forall d :: d in binds ==> d.coll != x.dst
    requires DistinctUris(x.entries, |x.entries|)
    requires IsWalk(binds + NewBinds(x.rows, nextBind), c, q, r) && (c == x.dst || c >= first)
    ensures r == x.dst || r >= first
    decreases |q|
  {
    if q != [] {
      var k := NewRow(x, first, live, nextBind, binds, q[0]);
      assert Turn(x, k);
      CopyOfEntry(x, first, k);
      WalkStaysNew(x, first, live, nextBind, binds, q[0].res, q[1..], r);
    }
  }

  /** A listed name with a slash is not found below the destination. */
  lemma MirroredNoSlash(x: Loop, first: int, live: set<int>, nextBind: int, binds: set<Bind>, i: nat)
    requires Ran(x, first) && FreshBelow(live, binds, first) && forall d :: d in binds ==> d.coll != x.dst
    requires DistinctUris(x.entries, |x.entries|) && i < |x.entries|
    requires Mirrors(x.g, x.src, x.dst, binds + NewBinds(x.rows, nextBind))
    ensures NoSlash(x.entries[i].bind.name)
  {
    var all, b := binds + NewBinds(x.rows, nextBind), x.entries[i].bind;
    assert Holds(x.entries, b);
    var h: Copies :| x.src in h && h[x.src] == x.dst && SameShape(x.g, x.src, h, all);
    ReachSelf(x.g, x.src);
    var p :| IsWalk(x.g, x.src, p, b.coll);
    CopyResolves(x.g, x.src, h, all, x.src, p, b.coll);
    var q :| IsWalk(all, h[x.src], q, h[b.coll]) && Names(q) == Names(p);
    WalkStaysNew(x, first, live, nextBind, binds, x.dst, q, h[b.coll]);
    assert BindAt(x.g, b.coll, b.name, b.res);
    var d: Bind :| d in all && d.coll == h[b.coll] && d.name == b.name && d.res == h[b.res];
    var k := NewRow(x, first, live, nextBind, binds, d);
    assert Turn(x, k);
  }

  /** The walk to the first entry of a collection, and the same names among the copies,
      as long as nothing on it is listed below an empty name. */
  lemma {:induction false} ChainCopied(x: Loop, first: int, nextBind: int, binds: set<Bind>, j: nat)
    returns (p: seq<Bind>, q: seq<Bind>)
    requires Ran(x, first) && DistinctUris(x.entries, |x.entries|) && NoSlashNames(x.entries) && j < |x.entries|
    requires forall k :: 0 <= k <= j ==> !BelowEmpty(x.entries, k)
    ensures x.entries[j].bind.res in x.f && Names(p) == Names(q)
    ensures IsWalk(x.g, x.src, p, x.entries[j].bind.res)
    ensures IsWalk(binds + NewBinds(x.rows, nextBind), x.dst, q, x.f[x.entries[j].bind.res])
    decreases j
  {
    var all, b := binds + NewBinds(x.rows, nextBind), x.entries[j].bind;
    assert Holds(x.entries, b);
    OneBind(x.g, b);
    RowRight(x, first, j);
    RowBind(x.rows, nextBind, j);
    var d := Bind(nextBind + j, x.f[b.coll], b.name, x.f[b.res]);
    OneBind(all, d);
    p, q := [], [];
    var a := ParentOf(x.g, x.base, x.src, x.entries, j);
    if a >= 0 {
      p, q := ChainCopied(x, first, nextBind, binds, a);
    }
    WalkConcat(x.g, x.src, p, b.coll, [b], b.res);
    WalkConcat(all, x.dst, q, x.f[b.coll], [d], x.f[b.res]);
    NamesConcat(p, [b]);
    NamesConcat(q, [d]);
    assert Names([b]) == [b.name] == Names([d]);
    p, q := p + [b], q + [d];
  }

  /** Nothing is inserted below the copy of a collection met first under an empty name. */
  lemma NoRowBelowEmpty(x: Loop, first: int, j: nat, k: nat)
    requires Ran(x, first) && DistinctUris(x.entries, |x.entries|) && NoSlashNames(x.entries)
    requires j < |x.entries| && k < |x.entries| && x.entries[j].link.Fresh? && x.entries[j].bind.name == ""
    ensures x.entries[j].bind.res in x.f && x.rows[k].0 != x.f[x.entries[j].bind.res]
  {
    var c := x.entries[j].bind.res;
    assert LinkRight(x.src, x.entries, j);
    CopyOfEntry(x, first, j);
    var a := RowOf(x, first, k);
    assert a >= 0 ==> LinkRight(x.src, x.entries, a);
  }

  /** What is listed below such a collection is missing from the copy. */
  lemma MirroredNotBelow(x: Loop, first: int, live: set<int>, nextBind: int, binds: set<Bind>, i: nat)
    requires Ran(x, first) && FreshBelow(live, binds, first) && forall d :: d in binds ==> d.coll != x.dst
    requires NamesUnique(binds + NewBinds(x.rows, nextBind)) && NoSlashNames(x.entries) && i < |x.entries|
    requires Mirrors(x.g, x.src, x.dst, binds + NewBinds(x.rows, nextBind))
    requires forall k :: 0 <= k < i ==> !BelowEmpty(x.entries, k)
    ensures !BelowEmpty(x.entries, i)
  {
    InsertedDistinct(x, nextBind, binds, |x.entries|);
    if BelowEmpty(x.entries, i) {
      var all, b := binds + NewBinds(x.rows, nextBind), x.entries[i].bind;
      var a := ParentOf(x.g, x.base, x.src, x.entries, i);
      var j := NamelessParent(x, i, a);
      var p, q := ChainCopied(x, first, nextBind, binds, j);
      var h: Copies :| x.src in h && h[x.src] == x.dst && SameShape(x.g, x.src, h, all);
      ReachSelf(x.g, x.src);
      CopyResolves(x.g, x.src, h, all, x.src, p, b.coll);
      var w :| IsWalk(all, h[x.src], w, h[b.coll]) && Names(w) == Names(p);
      OneWalk(all, x.dst, q, w, x.f[b.coll], h[b.coll]);
      assert Holds(x.entries, b) && BindAt(x.g, b.coll, b.name, b.res);
      var d: Bind :| d in all && d.coll == h[b.coll] && d.name == b.name && d.res == h[b.res];
      NoRowBelowEmpty(x, first, j, j);
      var k := NewRow(x, first, live, nextBind, binds, d);
      NoRowBelowEmpty(x, first, j, k);
      assert false;
    }
  }

  lemma NamelessParent(x: Loop, i: nat, a: int) returns (j: nat)
    requires Started(x) && i < |x.entries| && BelowEmpty(x.entries, i) && ParentAt(x.base, x.src, x.entries, i, a)
    ensures j < i && x.entries[j].link.Fresh? && x.entries[j].bind.name == ""
    ensures x.entries[j].bind.res == x.entries[i].bind.coll != x.src
  {
    j :| 0 <= j < |x.entries| && x.entries[j].link.Fresh? && x.entries[j].bind.res == x.entries[i].bind.coll
      && x.entries[j].bind.name == "";
    assert LinkRight(x.src, x.entries, j);
    assert a >= 0 && LinkRight(x.src, x.entries, a);
    assert a == j;
  }

  lemma {:induction false} MirroredNeverBelow(x: Loop, first: int, live: set<int>, nextBind: int, binds: set<Bind>,
                                              n: nat)
    requires Ran(x, first) && FreshBelow(live, binds, first) && forall d :: d in binds ==> d.coll != x.dst
    requires NamesUnique(binds + NewBinds(x.rows, nextBind)) && NoSlashNames(x.entries) && n <= |x.entries|
    requires Mirrors(x.g, x.src, x.dst, binds + NewBinds(x.rows, nextBind))
    ensures forall k :: 0 <= k < n ==> !BelowEmpty(x.entries, k)
  {
    if n > 0 {
      MirroredNeverBelow(x, first, live, nextBind, binds, n - 1);
      MirroredNotBelow(x, first, live, nextBind, binds, n - 1);
    }
  }

  /** When the rows are inserted, the destination mirrors the source exactly if no listed
      name has a slash and nothing is listed below a collection met first without a name. */
  lemma MirrorsIff(x: Loop, first: int, next: int, live: set<int>, live': set<int>, nextBind: int, binds: set<Bind>)
    requires Ran(x, first) && CopiesOf(x.entries, |x.entries|, x.src, x.dst, live, first, next, live', x.f)
    requires FreshBelow(live, binds, first) && forall d :: d in binds ==> d.coll != x.dst
    requires NamesUnique(binds + NewBinds(x.rows, nextBind))
    ensures Mirrors(x.g, x.src, x.dst, binds + NewBinds(x.rows, nextBind)) <==> Copyable(x.entries)
    ensures Copyable(x.entries) ==> SameShape(x.g, x.src, x.f, binds + NewBinds(x.rows, nextBind))
  {
    var all := binds + NewBinds(x.rows, nextBind);
    if Copyable(x.entries) {
      CopyableRows(x, first);
      NewBindsInserted(x.rows, nextBind, binds);
      CopyHasShape(x.g, x.base, x.src, x.dst, x.entries, live, first, next, live', x.f, x.rows, binds, all);
    }
    if Mirrors(x.g, x.src, x.dst, all) {
      InsertedDistinct(x, nextBind, binds, |x.entries|);
      forall i: nat | i < |x.entries|
        ensures NoSlash(x.entries[i].bind.name)
      {
        MirroredNoSlash(x, first, live, nextBind, binds, i);
      }
      MirroredNeverBelow(x, first, live, nextBind, binds, |x.entries|);
    }
  }

  /** A row whose name is taken, in the table or by an earlier row. */
  lemma TakenTwice(rows: seq<(int, string, int)>, first: int, i: nat, binds: set<Bind>, b: Bind)
    requires i < |rows| && b in binds + NewBinds(rows[..i], first) && b.coll == rows[i].0 && b.name == rows[i].1
    requires forall d :: d in binds ==> d.id < first
    ensures !NamesUnique(binds + NewBinds(rows, first))
  {
    NewBindAt(rows[..i], first, b);
    NewBindAt(rows, first, b);
    RowBind(rows, first, i);
    assert b.id < first + i;
  }

  /** With such names the INSERT is accepted. */
  lemma CopyableInserted(x: Loop, first: int, live: set<int>, nextBind: int, binds: set<Bind>)
    requires Ran(x, first) && Copyable(x.entries) && NamesUnique(binds) && x.dst in live
    requires FreshBelow(live, binds, first) && forall d :: d in binds ==> d.coll != x.dst
    ensures NamesUnique(binds + NewBinds(x.rows, nextBind))
  {
    CopyableRows(x, first);
    NamesStayUnique(x.g, x.base, x.src, x.dst, x.entries, x.f, live, x.rows, nextBind, binds);
  }

  /** What holds after the INSERT, whatever the names. */
  lemma InsertedRight(x: Loop, first: int, next: int, live: set<int>, live': set<int>, nextBind: int, binds: set<Bind>)
    requires Ran(x, first) && CopiesOf(x.entries, |x.entries|, x.src, x.dst, live, first, next, live', x.f)
    requires FreshBelow(live, binds, first) && x.dst in live && NamesUnique(binds + NewBinds(x.rows, nextBind))
    requires forall b :: b in binds ==> b.id < nextBind
    ensures live' == live + Images(x.f) && FreshBelow(live', binds + NewBinds(x.rows, nextBind), next)
    ensures forall r :: r in x.f <==> Listed(x.g, x.src, r)
    ensures forall b :: b in NewBinds(x.rows, nextBind) ==> b.coll in Images(x.f) && b.id < nextBind + |x.rows|
    ensures forall b :: b in binds ==> b.id < nextBind + |x.rows|
  {
    InsertedDistinct(x, nextBind, binds, |x.entries|);
    LiveAfter(x.entries, |x.entries|, x.src, x.dst, live, first, next, live', x.f);
    forall r
      ensures r in x.f <==> Listed(x.g, x.src, r)
    {
      MetIsListed(x.g, x.base, x.src, x.entries, r);
    }
    forall b | b in NewBinds(x.rows, nextBind)
      ensures b.coll in Images(x.f) && b.res in Images(x.f) && b.id < nextBind + |x.rows|
    {
      NewBindAt(x.rows, nextBind, b);
      RowInside(x, first, b.id - nextBind);
    }
  }

  // ---------------------------------------------------------------- the tables and the copy

  class Tree {
    var live: set<int>
    var colls: set<int>
    var binds: set<Bind>
    var nextRes: int
    var nextBind: int

    ghost predicate Valid()
      reads this
    {
      && NamesUnique(binds) && FreshBelow(live, binds, nextRes)
      && colls <= live && forall b :: b in binds ==> b.id < nextBind
    }

    constructor (live: set<int>, colls: set<int>, binds: set<Bind>, nextRes: int, nextBind: int)
      requires NamesUnique(binds) && FreshBelow(live, binds, nextRes)
      requires colls <= live && forall b :: b in binds ==> b.id < nextBind
      ensures Valid() && this.live == live && this.colls == colls && this.binds == binds
    {
      this.live, this.colls, this.binds, this.nextRes, this.nextBind := live, colls, binds, nextRes, nextBind;
    }

    /** sabridge_create_copy: a new resource of the same kind, not yet bound. */
    method CreateCopy(r: int) returns (copy: int)
      modifies this`live, this`colls, this`nextRes
      ensures copy == old(nextRes) && nextRes == copy + 1 && live == old(live) + {copy}
      ensures colls == if r in old(colls) then old(colls) + {copy} else old(colls)
    {
      copy, nextRes, live := nextRes, nextRes + 1, live + {nextRes};
      if r in colls {
        colls := colls + {copy};
      }
    }

    /** dbms_insert_bind_list: one INSERT, refused as a whole when a name is taken; or one new
        bind for each row. */
    method InsertBindList(rows: seq<(int, string, int)>) returns (ok: bool)
      requires NamesUnique(binds) && forall b :: b in binds ==> b.id < nextBind
      modifies this`binds, this`nextBind
      ensures ok <==> NamesUnique(old(binds) + NewBinds(rows, old(nextBind)))
      ensures ok ==> binds == old(binds) + NewBinds(rows, old(nextBind)) && nextBind == old(nextBind) + |rows|
      ensures !ok ==> binds == old(binds) && nextBind == old(nextBind)
    {
      var i, added := 0, binds;
      while i < |rows|
        invariant 0 <= i <= |rows| && added == binds + NewBinds(rows[..i], nextBind) && NamesUnique(added)
        invariant binds == old(binds) && nextBind == old(nextBind)
        decreases |rows| - i
      {
        NewBindsNext(rows, nextBind, i);
        if b: Bind :| b in added && b.coll == rows[i].0 && b.name == rows[i].1 {
          TakenTwice(rows, nextBind, i, binds, b);
          return false;
        }
        added := added + {Bind(nextBind + i, rows[i].0, rows[i].1, rows[i].2)};
        i := i + 1;
      }
      assert rows[..i] == rows;
      binds, nextBind, ok := added, nextBind + |rows|, true;
    }

    /** The copy of an entry's resource: that of its link, or a new one. */
    method CopyOf(entries: seq<Entry>, base: string, i: nat, m: map<string, int>,
                  ghost x: Loop, ghost live0: set<int>, ghost colls0: set<int>, ghost first: int)
      returns (copy: int, ghost f: Copies)
      requires Started(x) && x.entries == entries && x.base == base && i < |entries| && Traced(x, i)
      requires m == MapAfter(entries, base, x.dst, x.copies, i) && entries[i].bind.res < first
      requires CopiesOf(entries, i, x.src, x.dst, live0, first, nextRes, live, x.f)
      requires KindsOf(x.f, x.src, first, nextRes, colls0, colls)
      modifies this`live, this`colls, this`nextRes
      ensures CopiesOf(entries, i + 1, x.src, x.dst, live0, first, nextRes, live, f)
      ensures KindsOf(f, x.src, first, nextRes, colls0, colls)
      ensures CopyRight(x, f, m, i, copy) && forall r :: r in x.f ==> r in f && f[r] == x.f[r]
    {
      var e := entries[i];
      f := x.f;
      assert LinkRight(x.src, entries, i);
      match e.link {
        case Fresh =>
          NewCopy(entries, i, x.src, x.dst, live0, first, nextRes, live, x.f);
          copy := CreateCopy(e.bind.res);
          f := f[e.bind.res := copy];
        case Start =>
          MapHas(entries, base, x.dst, x.copies, i, base);
          copy := m[base];
          OldCopy(entries, i, x.src, x.dst, live0, first, nextRes, live, x.f);
        case Earlier(j) =>
          MapHas(entries, base, x.dst, x.copies, i, entries[j].uri);
          copy := m[entries[j].uri];
          OldCopy(entries, i, x.src, x.dst, live0, first, nextRes, live, x.f);
      }
    }

    /** One turn of the loop: the copy of an entry, and the row that will bind it; nothing
        when there is no copy under the URI of its parent, which the C code relies on. */
    method CopyEntry(entries: seq<Entry>, base: string, i: nat, m: map<string, int>,
                     ghost x: Loop, ghost live0: set<int>, ghost colls0: set<int>, ghost first: int)
      returns (found: bool, m': map<string, int>, row: (int, string, int), ghost y: Loop)
      requires Started(x) && x.entries == entries && x.base == base && i < |entries| && Traced(x, i)
      requires m == MapAfter(entries, base, x.dst, x.copies, i) && entries[i].bind.res < first
      requires CopiesOf(entries, i, x.src, x.dst, live0, first, nextRes, live, x.f)
      requires KindsOf(x.f, x.src, first, nextRes, colls0, colls)
      modifies this`live, this`colls, this`nextRes
      ensures !found ==> !NoSlashNames(entries)
      ensures found ==> y == x.(f := y.f, copies := y.copies, rows := x.rows + [row]) && Started(y)
      ensures found ==> Traced(y, i + 1) && m' == MapAfter(entries, base, x.dst, y.copies, i + 1)
      ensures found ==> CopiesOf(entries, i + 1, x.src, x.dst, live0, first, nextRes, live, y.f)
      ensures found ==> KindsOf(y.f, x.src, first, nextRes, colls0, colls)
    {
      found, m', row, y := false, m, (0, "", 0), x;
      if NoSlashNames(entries) {
        ParentFound(x, i);
      }
      var parent := GetParentUri(entries[i].uri);
      if parent !in m {
        return;
      }
      var copy;
      ghost var f;
      copy, f := CopyOf(entries, base, i, m, x, live0, colls0, first);
      found, m', row := true, m[entries[i].uri := copy], (m[parent], BaseName(entries[i].uri), copy);
      y := x.(f := f, copies := x.copies + [copy], rows := x.rows + [row]);
      TurnAdded(x, i, f, copy, row);
    }

    method CopyEntries(entries: seq<Entry>, base: string, ghost g: set<Bind>, src: int, dst: int)
      returns (found: bool, rows: seq<(int, string, int)>, ghost x: Loop)
      requires IsListing(g, base, src, entries) && NamesUnique(g) && Chomped(base) == base
      requires FreshBelow(live, binds, nextRes) && dst in live && g <= binds && colls <= live
      modifies this`live, this`colls, this`nextRes
      ensures !found ==> !NoSlashNames(entries)
      ensures found ==> x == Loop(g, base, src, dst, entries, x.f, x.copies, rows) && Ran(x, old(nextRes))
      ensures found ==> KindsOf(x.f, src, old(nextRes), nextRes, old(colls), colls)
      ensures found ==> CopiesOf(entries, |entries|, src, dst, old(live), old(nextRes), nextRes, live, x.f)
    {
      var m: map<string, int> := map[base := dst];
      found, rows, x := true, [], Loop(g, base, src, dst, entries, map[src := dst], [], []);
      var i := 0;
      while i < |entries|
        invariant 0 <= i <= |entries|
        invariant x == Loop(g, base, src, dst, entries, x.f, x.copies, rows) && Started(x) && Traced(x, i)
        invariant m == MapAfter(entries, base, dst, x.copies, i)
        invariant CopiesOf(entries, i, src, dst, old(live), old(nextRes), nextRes, live, x.f)
        invariant KindsOf(x.f, src, old(nextRes), nextRes, old(colls), colls)
        decreases |entries| - i
      {
        var row;
        assert Holds(entries, entries[i].bind);
        found, m, row, x := CopyEntry(entries, base, i, m, x, old(live), old(colls), old(nextRes));
        if !found {
          return;
        }
        rows := rows + [row];
        i := i + 1;
      }
    }

    /** The end of the copy: the INSERT, unless there is nothing to insert. */
    method InsertCopies(rows: seq<(int, string, int)>, ghost x: Loop, ghost first: int, ghost live0: set<int>)
      returns (done: bool)
      requires Ran(x, first) && x.rows == rows && FreshBelow(live0, binds, first)
      requires NamesUnique(binds) && forall b :: b in binds ==> b.id < nextBind && b.coll != x.dst
      requires x.dst in live0 && CopiesOf(x.entries, |x.entries|, x.src, x.dst, live0, first, nextRes, live, x.f)
      modifies this`binds, this`nextBind
      ensures done && Mirrors(x.g, x.src, x.dst, binds) <==> Copyable(x.entries)
      ensures Copyable(x.entries) ==> SameShape(x.g, x.src, x.f, binds)
      ensures !done ==> binds == old(binds)
      ensures done ==> NamesUnique(binds) && FreshBelow(live, binds, nextRes) && live == live0 + Images(x.f)
      ensures done ==> forall b :: b in binds ==> b.id < nextBind && (b in old(binds) || b.coll in Images(x.f))
      ensures done ==> old(binds) <= binds && forall r :: r in x.f <==> Listed(x.g, x.src, r)
    {
      if Copyable(x.entries) {
        CopyableInserted(x, first, live0, nextBind, binds);
      }
      done := InsertBindList(rows);
      if done {
        MirrorsIff(x, first, nextRes, live0, live, old(nextBind), old(binds));
        InsertedRight(x, first, nextRes, live0, live, old(nextBind), old(binds));
      }
    }

    /** The copy of what is listed. */
    method CopyListed(entries: seq<Entry>, base: string, ghost g: set<Bind>, src: int, dst: int)
      returns (done: bool, ghost f: Copies)
      requires Valid() && dst in live && Chomped(base) == base && forall b :: b in binds ==> b.coll != dst
      requires g <= binds && IsListing(g, base, src, entries)
      modifies this
      ensures done && Mirrors(g, src, dst, binds) <==> Copyable(entries)
      ensures Copyable(entries) ==> SameShape(g, src, f, binds)
      ensures !done ==> binds == old(binds)
      ensures done ==> Valid() && src in f && f[src] == dst && Injective(f) && live == old(live) + Images(f)
      ensures done ==> forall r :: r in f <==> Listed(g, src, r)
      ensures done ==> forall r :: r in f && r != src ==> f[r] !in old(live)
      ensures done ==> forall r :: r in f && r != src ==> (f[r] in colls <==> r in old(colls))
      ensures done ==> forall r :: r in old(live) ==> (r in colls <==> r in old(colls))
      ensures done ==> old(binds) <= binds && forall b :: b in binds && b !in old(binds) ==> b.coll in Images(f)
    {
      var rows;
      ghost var x;
      done, rows, x := CopyEntries(entries, base, g, src, dst);
      f := x.f;
      if done {
        done := InsertCopies(rows, x, old(nextRes), old(live));
        LiveAfter(entries, |entries|, src, dst, old(live), old(nextRes), nextRes, live, f);
        KindsLive(entries, src, dst, old(live), old(nextRes), nextRes, live, f, old(colls), colls);
      }
    }

    /** The copy: everything listed below src, with `shown` what the principal may read.  It
        is not done when a parent's copy is missing or the INSERT is refused. */
    method DepthInfCopy(src: int, base: string, dst: int, shown: set<int>)
      returns (done: bool, ghost entries: seq<Entry>, ghost f: Copies)
      requires Valid() && dst in live && Chomped(base) == base && forall b :: b in binds ==> b.coll != dst
      modifies this
      ensures IsListing(Listable(old(binds), old(colls), shown), base, src, entries)
      ensures done && Mirrors(Listable(old(binds), old(colls), shown), src, dst, binds) <==> Copyable(entries)
      ensures Copyable(entries) ==> SameShape(Listable(old(binds), old(colls), shown), src, f, binds)
      ensures !done ==> binds == old(binds)
      ensures done ==> Valid() && src in f && f[src] == dst && Injective(f) && live == old(live) + Images(f)
      ensures done ==> forall r :: r in f <==> Listed(Listable(old(binds), old(colls), shown), src, r)
      ensures done ==> forall r :: r in f && r != src ==> (f[r] in colls <==> r in old(colls)) && f[r] !in old(live)
      ensures done ==> forall r :: r in old(live) ==> (r in colls <==> r in old(colls))
      ensures done ==> old(binds) <= binds && forall b :: b in binds && b !in old(binds) ==> b.coll in Images(f)
    {
      var listing := ListInfinity(binds, colls, shown, base, src);
      entries := listing;
      done, f := CopyListed(listing, base, Listable(binds, colls, shown), src, dst);
    }
  }
}
