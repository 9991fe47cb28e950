/** Depth-infinity listing of a collection (sabridge_get_collection_children in
    limestone/bridge.c over dbms_get_collection_resource in limestone/dbms.c). */
module Listing {
  import opened Common
  import opened BindGraph
  import opened UriText

  /** The `bind` field of a listed resource: unset, the listed collection itself, or the
      entry listed before it for the same resource. */
  datatype Link = Fresh | Start | Earlier(index: nat)

  /** One listed bind, with the text of its URI. */
  datatype Entry = Entry(bind: Bind, uri: string, link: Link)

  /** The binds the query can return: under collections, to resources the principal may
      see (every resource, when no privilege is asked for). */
  function Listable(binds: set<Bind>, colls: set<int>, shown: set<int>): set<Bind> {
    set b | b in binds && b.coll in colls && b.res in shown
  }

  // ---------------------------------------------------------------- what a listing is

  ghost predicate Met(entries: seq<Entry>, n: nat, r: int)
    requires n <= |entries|
  {
    exists i :: 0 <= i < n && entries[i].bind.res == r
  }

  /** A link is unset on the first entry of a resource other than the listed collection,
      and otherwise leads to the last entry before it with the same resource. */
  ghost predicate LinkRight(start: int, entries: seq<Entry>, i: nat)
    requires i < |entries|
  {
    var r := entries[i].bind.res;
    match entries[i].link
    case Fresh => r != start && !Met(entries, i, r)
    case Start => r == start && !Met(entries, i, r)
    case Earlier(j) => j < i && entries[j].bind.res == r && forall k :: j < k < i ==> entries[k].bind.res != r
  }

  /** The URI of an entry extends that of the first entry of its collection. */
  ghost predicate UriRight(base: string, start: int, entries: seq<Entry>, n: nat, i: nat)
    requires i < |entries| && n <= |entries|
  {
    var e := entries[i];
    (e.bind.coll == start && e.uri == ChildUri(base, e.bind.name)) ||
    exists j :: 0 <= j < i && j < n && entries[j].link.Fresh? && entries[j].bind.res == e.bind.coll
      && e.uri == ChildUri(entries[j].uri, e.bind.name)
  }

  ghost predicate Distinct(entries: seq<Entry>) {
    forall i, j :: 0 <= i < j < |entries| ==> entries[i].bind != entries[j].bind
  }

  ghost predicate Holds(entries: seq<Entry>, b: Bind) {
    exists i :: 0 <= i < |entries| && entries[i].bind == b
  }

  /** Every listable bind whose collection can be reached is listed, once, and nothing
      else; links and URIs are right, `base` being the URI of the listed collection. */
  ghost predicate IsListing(g: set<Bind>, base: string, start: int, entries: seq<Entry>) {
    && Distinct(entries)
    && (forall b :: Holds(entries, b) <==> b in g && Reach(g, start, b.coll))
    && (forall i :: 0 <= i < |entries| ==> LinkRight(start, entries, i))
    && (forall i :: 0 <= i < |entries| ==> UriRight(base, start, entries, |entries|, i))
  }

  // ---------------------------------------------------------------- the state of the loop

  /** The collections whose binds are listed, once the first n entries are linked. */
  ghost predicate Expanded(start: int, colls: set<int>, entries: seq<Entry>, n: nat, x: set<int>)
    requires n <= |entries|
  {
    forall c :: c in x <==>
      c in colls && (c == start || exists i :: 0 <= i < n && entries[i].bind.res == c && entries[i].link.Fresh?)
  }

  ghost predicate RowsOf(g: set<Bind>, x: set<int>, entries: seq<Entry>) {
    && Distinct(entries)
    && forall b :: Holds(entries, b) <==> b in g && b.coll in x
  }

  ghost predicate Progress(g: set<Bind>, colls: set<int>, base: string, start: int, entries: seq<Entry>, n: nat,
      x: set<int>) {
    && n <= |entries|
    && RowsOf(g, x, entries)
    && Expanded(start, colls, entries, n, x)
    && (forall i :: 0 <= i < n ==> LinkRight(start, entries, i))
    && (forall i :: 0 <= i < |entries| ==> UriRight(base, start, entries, n, i))
  }

  /** The hash of retrieved resources after n entries. */
  ghost predicate HashRight(start: int, entries: seq<Entry>, n: nat, retrieved: map<int, Link>)
    requires n <= |entries|
  {
    (forall r :: r in retrieved <==> r == start || Met(entries, n, r)) &&
    forall r :: r in retrieved ==>
      match retrieved[r]
      case Fresh => false
      case Start => r == start && !Met(entries, n, r)
      case Earlier(j) => j < n && entries[j].bind.res == r && forall k :: j < k < n ==> entries[k].bind.res != r
  }

  // ---------------------------------------------------------------- what a finished listing covers

  lemma {:induction false} EntryReached(g: set<Bind>, base: string, start: int, entries: seq<Entry>, n: nat, i: nat)
    requires n <= |entries| && i < |entries|
    requires forall k :: 0 <= k < |entries| ==> entries[k].bind in g && UriRight(base, start, entries, n, k)
    ensures Reach(g, start, entries[i].bind.coll)
    decreases i
  {
    var e := entries[i];
    if e.bind.coll == start {
      ReachSelf(g, start);
    } else {
      var j :| 0 <= j < i && entries[j].bind.res == e.bind.coll;
      EntryReached(g, base, start, entries, n, j);
      ReachStep(g, start, entries[j].bind);
    }
  }

  /** Some entry of a resource that is met has its link unset. */
  lemma {:induction false} FirstOf(start: int, entries: seq<Entry>, i: nat) returns (j: nat)
    requires i < |entries| && forall k :: 0 <= k < |entries| ==> LinkRight(start, entries, k)
    requires entries[i].bind.res != start
    ensures j <= i && entries[j].bind.res == entries[i].bind.res && entries[j].link.Fresh?
    decreases i
  {
    assert LinkRight(start, entries, i);
    if entries[i].link.Earlier? {
      j := FirstOf(start, entries, entries[i].link.index);
    } else {
      j := i;
    }
  }

  lemma {:induction false} ClosedWalk(g: set<Bind>, colls: set<int>, x: set<int>, c: int, p: seq<Bind>, r: int)
    requires IsWalk(g, c, p, r) && c in x && r in colls
    requires forall b :: b in g ==> b.coll in colls
    requires forall b :: b in g && b.coll in x && b.res in colls ==> b.res in x
    ensures r in x
    decreases |p|
  {
    if p != [] {
      var b: Bind := p[0];
      if |p| > 1 {
        var d: Bind := p[1..][0];
        assert d in g;
      }
      ClosedWalk(g, colls, x, b.res, p[1..], r);
    }
  }

  lemma Finished(g: set<Bind>, colls: set<int>, base: string, start: int, entries: seq<Entry>, n: nat, x: set<int>)
    requires Progress(g, colls, base, start, entries, n, x) && n >= |entries|
    requires forall b :: b in g ==> b.coll in colls
    ensures IsListing(g, base, start, entries)
  {
    forall b | b in g && b.coll in x && b.res in colls
      ensures b.res in x
    {
      assert Holds(entries, b);
      var i :| 0 <= i < |entries| && entries[i].bind == b;
      if b.res != start {
        var j := FirstOf(start, entries, i);
      }
    }
    forall b
      ensures Holds(entries, b) <==> b in g && Reach(g, start, b.coll)
    {
      if Holds(entries, b) {
        var i :| 0 <= i < |entries| && entries[i].bind == b;
        forall k | 0 <= k < |entries|
          ensures entries[k].bind in g
        {
          assert Holds(entries, entries[k].bind);
        }
        EntryReached(g, base, start, entries, |entries|, i);
      }
      if b in g && Reach(g, start, b.coll) {
        var p :| IsWalk(g, start, p, b.coll);
        if p != [] {
          var d: Bind := p[0];
          assert d in g && d.coll == start;
        }
        assert start in x;
        ClosedWalk(g, colls, x, start, p, b.coll);
      }
    }
  }

  lemma {:induction false} DistinctBound(g: set<Bind>, entries: seq<Entry>)
    requires Distinct(entries) && forall i :: 0 <= i < |entries| ==> entries[i].bind in g
    ensures |entries| <= |g|
  {
    if entries != [] {
      var n := |entries| - 1;
      var b := entries[n].bind;
      DistinctBound(g - {b}, entries[..n]);
    }
  }

  // ---------------------------------------------------------------- steps of the loop

  lemma MetNext(entries: seq<Entry>, n: nat, r: int)
    requires n < |entries|
    ensures Met(entries, n + 1, r) <==> Met(entries, n, r) || entries[n].bind.res == r
  {
  }

  /** Setting the link of entry n changes neither binds nor URIs. */
  ghost predicate SameRows(a: seq<Entry>, b: seq<Entry>) {
    |a| == |b| && forall i :: 0 <= i < |a| ==> a[i].bind == b[i].bind && a[i].uri == b[i].uri
  }

  /** Entries before n linked, the hash right, the rest as it was. */
  ghost predicate LinkedTo(start: int, before: seq<Entry>, entries: seq<Entry>, lo: nat, n: nat,
      retrieved: map<int, Link>) {
    && lo <= n <= |entries| && SameRows(before, entries) && entries[..lo] == before[..lo]
    && (forall i :: 0 <= i < n ==> LinkRight(start, entries, i))
    && HashRight(start, entries, n, retrieved)
  }

  lemma LinkOne(start: int, before: seq<Entry>, entries: seq<Entry>, lo: nat, n: nat, retrieved: map<int, Link>)
    requires LinkedTo(start, before, entries, lo, n, retrieved) && n < |entries|
    ensures var r := entries[n].bind.res;
      var link := if r in retrieved then retrieved[r] else Fresh;
      LinkedTo(start, before, entries[n := entries[n].(link := link)], lo, n + 1, retrieved[r := Earlier(n)])
  {
    var r := entries[n].bind.res;
    var link := if r in retrieved then retrieved[r] else Fresh;
    var after := entries[n := entries[n].(link := link)];
    forall i: nat, q | i <= n
      ensures Met(after, i, q) <==> Met(entries, i, q)
    {
      assert forall k :: 0 <= k < i ==> after[k].bind == entries[k].bind;
    }
    forall i: nat | i <= n
      ensures LinkRight(start, after, i)
    {
      if i < n {
        assert LinkRight(start, entries, i);
      }
    }
    forall q
      ensures Met(after, n + 1, q) <==> Met(entries, n, q) || q == r
    {
      MetNext(after, n, q);
    }
    assert after[..lo] == before[..lo];
  }

  /** The URIs of the unlinked collections of a level, by resource id. */
  ghost predicate LevelUris(colls: set<int>, entries: seq<Entry>, lo: nat, n: nat, uris: map<int, string>)
    requires lo <= n <= |entries|
  {
    forall c :: c in uris ==>
      c in colls &&
      exists i :: lo <= i < n && entries[i].bind.res == c && entries[i].link.Fresh? && uris[c] == entries[i].uri
  }

  ghost predicate LevelAll(colls: set<int>, entries: seq<Entry>, lo: nat, n: nat, uris: map<int, string>)
    requires lo <= n <= |entries|
  {
    forall i :: lo <= i < n && entries[i].link.Fresh? && entries[i].bind.res in colls ==> entries[i].bind.res in uris
  }

  /** The rows a query returns for a level: every listable bind under it, once. */
  ghost predicate IsLevel(g: set<Bind>, uris: map<int, string>, rows: seq<Entry>) {
    && Distinct(rows)
    && (forall b :: Holds(rows, b) <==> b in g && b.coll in uris)
    && forall i :: 0 <= i < |rows| ==>
      rows[i].bind.coll in uris && rows[i].uri == ChildUri(uris[rows[i].bind.coll], rows[i].bind.name)
  }

  lemma HoldsConcat(a: seq<Entry>, b: seq<Entry>, d: Bind)
    ensures Holds(a + b, d) <==> Holds(a, d) || Holds(b, d)
  {
    var c := a + b;
    if Holds(a, d) {
      var i :| 0 <= i < |a| && a[i].bind == d;
      assert c[i].bind == d;
    }
    if Holds(b, d) {
      var i :| 0 <= i < |b| && b[i].bind == d;
      assert c[|a| + i].bind == d;
    }
  }

  lemma LevelFirstTime(g: set<Bind>, colls: set<int>, base: string, start: int, entries: seq<Entry>, linked: seq<Entry>,
                       lo: nat, x: set<int>, uris: map<int, string>, retrieved: map<int, Link>)
    requires Progress(g, colls, base, start, entries, lo, x)
    requires LinkedTo(start, entries, linked, lo, |entries|, retrieved)
    requires LevelUris(colls, linked, lo, |linked|, uris) && LevelAll(colls, linked, lo, |linked|, uris)
    ensures uris.Keys !! x && Expanded(start, colls, linked, |linked|, x + uris.Keys)
  {
    forall i | 0 <= i < lo
      ensures linked[i] == entries[i]
    {
      assert linked[..lo][i] == entries[..lo][i];
    }
    forall c | c in uris
      ensures c !in x
    {
      var i :| lo <= i < |linked| && linked[i].bind.res == c && linked[i].link.Fresh?;
      assert LinkRight(start, linked, i);
      assert !Met(linked, i, c);
    }
  }

  lemma LevelLinks(start: int, linked: seq<Entry>, rows: seq<Entry>)
    requires forall i :: 0 <= i < |linked| ==> LinkRight(start, linked, i)
    ensures forall i :: 0 <= i < |linked| ==> LinkRight(start, linked + rows, i)
  {
    var all := linked + rows;
    assert forall i :: 0 <= i < |linked| ==> all[i] == linked[i];
    forall i: nat | i < |linked|
      ensures LinkRight(start, all, i)
    {
      assert LinkRight(start, linked, i);
      assert forall r :: Met(all, i, r) <==> Met(linked, i, r);
    }
  }

  /** The URIs of what was listed before still are right, ... */
  lemma OldUris(base: string, start: int, entries: seq<Entry>, linked: seq<Entry>, rows: seq<Entry>, lo: nat, i: nat)
    requires SameRows(entries, linked) && lo <= |linked| && entries[..lo] == linked[..lo]
    requires i < |linked| && UriRight(base, start, entries, lo, i)
    ensures UriRight(base, start, linked + rows, |linked|, i)
  {
    var all, e := linked + rows, entries[i];
    assert all[i] == linked[i];
    if !(e.bind.coll == start && e.uri == ChildUri(base, e.bind.name)) {
      var j :| 0 <= j < i && j < lo && entries[j].link.Fresh? && entries[j].bind.res == e.bind.coll
        && e.uri == ChildUri(entries[j].uri, e.bind.name);
      assert all[j] == linked[j] == linked[..lo][j] == entries[j];
    }
  }

  /** ... and so are those of the new level. */
  lemma NewUris(g: set<Bind>, colls: set<int>, base: string, start: int, linked: seq<Entry>, rows: seq<Entry>,
                lo: nat, uris: map<int, string>, i: nat)
    requires lo <= |linked| && LevelUris(colls, linked, lo, |linked|, uris) && IsLevel(g, uris, rows)
    requires |linked| <= i < |linked + rows|
    ensures UriRight(base, start, linked + rows, |linked|, i)
  {
    var all, c := linked + rows, rows[i - |linked|].bind.coll;
    assert all[i] == rows[i - |linked|];
    var j :| lo <= j < |linked| && linked[j].bind.res == c && linked[j].link.Fresh? && uris[c] == linked[j].uri;
    assert all[j] == linked[j];
  }

  lemma LevelKeeps(g: set<Bind>, colls: set<int>, base: string, start: int, entries: seq<Entry>, linked: seq<Entry>,
                   rows: seq<Entry>, lo: nat, x: set<int>, uris: map<int, string>, retrieved: map<int, Link>)
    requires Progress(g, colls, base, start, entries, lo, x)
    requires LinkedTo(start, entries, linked, lo, |entries|, retrieved)
    requires LevelUris(colls, linked, lo, |linked|, uris) && LevelAll(colls, linked, lo, |linked|, uris)
    requires IsLevel(g, uris, rows)
    ensures Progress(g, colls, base, start, linked + rows, |linked|, x + uris.Keys)
  {
    var all, n := linked + rows, |linked|;
    LevelFirstTime(g, colls, base, start, entries, linked, lo, x, uris, retrieved);
    LevelRows(g, entries, linked, rows, x, uris);
    LevelLinks(start, linked, rows);
    ExpandedMore(start, colls, linked, rows, x + uris.Keys);
    forall i: nat | i < |all|
      ensures UriRight(base, start, all, n, i)
    {
      if i < n {
        OldUris(base, start, entries, linked, rows, lo, i);
      } else {
        NewUris(g, colls, base, start, linked, rows, lo, uris, i);
      }
    }
  }

  lemma ExpandedMore(start: int, colls: set<int>, linked: seq<Entry>, rows: seq<Entry>, x: set<int>)
    requires Expanded(start, colls, linked, |linked|, x)
    ensures Expanded(start, colls, linked + rows, |linked|, x)
  {
    var all := linked + rows;
    assert forall i :: 0 <= i < |linked| ==> all[i] == linked[i];
  }

  lemma LevelRows(g: set<Bind>, entries: seq<Entry>, linked: seq<Entry>, rows: seq<Entry>, x: set<int>,
      uris: map<int, string>)
    requires RowsOf(g, x, entries) && SameRows(entries, linked) && IsLevel(g, uris, rows) && uris.Keys !! x
    ensures RowsOf(g, x + uris.Keys, linked + rows)
  {
    var all := linked + rows;
    forall b
      ensures Holds(all, b) <==> b in g && b.coll in x + uris.Keys
    {
      HoldsConcat(linked, rows, b);
      assert Holds(linked, b) <==> Holds(entries, b);
    }
    forall i, j | 0 <= i < j < |all|
      ensures all[i].bind != all[j].bind
    {
      if i < |linked| <= j {
        assert Holds(entries, entries[i].bind) && Holds(rows, rows[j - |linked|].bind);
      }
    }
  }

  // ---------------------------------------------------------------- the listing

  /** dbms_get_collection_resource: the rows come in any order. */
  method GetCollectionResource(binds: set<Bind>, shown: set<int>, uris: map<int, string>, ghost colls: set<int>)
    returns (rows: seq<Entry>)
    requires forall c :: c in uris ==> c in colls
    ensures IsLevel(Listable(binds, colls, shown), uris, rows)
  {
    rows := [];
    var todo := set b | b in binds && b.coll in uris && b.res in shown;
    ghost var all := todo;
    while todo != {}
      invariant todo <= all && Distinct(rows)
      invariant forall b :: Holds(rows, b) <==> b in all - todo
      invariant forall i :: 0 <= i < |rows| ==>
        rows[i].bind.coll in uris && rows[i].uri == ChildUri(uris[rows[i].bind.coll], rows[i].bind.name)
      decreases |todo|
    {
      var b: Bind :| b in todo;
      var row := Entry(b, ChildUri(uris[b.coll], b.name), Fresh);
      forall d
        ensures Holds(rows + [row], d) <==> Holds(rows, d) || d == b
      {
        HoldsConcat(rows, [row], d);
        assert Holds([row], d) <==> d == [row][0].bind;
      }
      forall i | 0 <= i < |rows|
        ensures rows[i].bind != b
      {
        assert Holds(rows, rows[i].bind);
      }
      todo := todo - {b};
      rows := rows + [row];
    }
  }

  /** Links the entries of a level and collects its unlinked collections. */
  method LinkLevel(start: int, colls: set<int>, entries: seq<Entry>, lo: nat, retrieved: map<int, Link>)
    returns (linked: seq<Entry>, retrieved': map<int, Link>, uris: map<int, string>)
    requires LinkedTo(start, entries, entries, lo, lo, retrieved)
    ensures LinkedTo(start, entries, linked, lo, |entries|, retrieved')
    ensures LevelUris(colls, linked, lo, |linked|, uris) && LevelAll(colls, linked, lo, |linked|, uris)
  {
    linked, retrieved', uris := entries, retrieved, map[];
    var n := lo;
    while n < |entries|
      invariant lo <= n <= |linked| == |entries|
      invariant LinkedTo(start, entries, linked, lo, n, retrieved')
      invariant LevelUris(colls, linked, lo, n, uris) && LevelAll(colls, linked, lo, n, uris)
      decreases |entries| - n
    {
      LinkOne(start, entries, linked, lo, n, retrieved');
      var r := linked[n].bind.res;
      var link := if r in retrieved' then retrieved'[r] else Fresh;
      ghost var was := linked;
      linked := linked[n := linked[n].(link := link)];
      assert forall i :: 0 <= i < n ==> linked[i] == was[i];
      retrieved' := retrieved'[r := Earlier(n)];
      if link.Fresh? && r in colls {
        uris := uris[r := linked[n].uri];
      }
      n := n + 1;
    }
  }

  lemma EmptyStart(g: set<Bind>, colls: set<int>, base: string, start: int, rows: seq<Entry>, uris: map<int, string>)
    requires uris == (if start in colls then map[start := base] else map[]) && IsLevel(g, uris, rows)
    ensures Progress(g, colls, base, start, rows, 0, uris.Keys)
    ensures LinkedTo(start, rows, rows, 0, 0, map[start := Start])
  {
  }

  /** sabridge_get_collection_children with depth 1: the binds of one collection, linked. */
  method ListOne(binds: set<Bind>, shown: set<int>, base: string, start: int) returns (entries: seq<Entry>)
    ensures Distinct(entries)
    ensures forall b :: Holds(entries, b) <==> b in binds && b.coll == start && b.res in shown
    ensures forall i :: 0 <= i < |entries| ==> LinkRight(start, entries, i)
    ensures forall i :: 0 <= i < |entries| ==> entries[i].uri == ChildUri(base, entries[i].bind.name)
  {
    var rows := GetCollectionResource(binds, shown, map[start := base], {start});
    EmptyStart(Listable(binds, {start}, shown), {start}, base, start, rows, map[start := base]);
    var retrieved, uris;
    entries, retrieved, uris := LinkLevel(start, {}, rows, 0, map[start := Start]);
    forall b
      ensures Holds(entries, b) <==> Holds(rows, b)
    {
      if i :| 0 <= i < |rows| && rows[i].bind == b {
        assert entries[i].bind == b;
      }
    }
  }

  lemma HashKept(start: int, entries: seq<Entry>, linked: seq<Entry>, rows: seq<Entry>, lo: nat,
      retrieved: map<int, Link>)
    requires LinkedTo(start, entries, linked, lo, |entries|, retrieved)
    ensures LinkedTo(start, linked + rows, linked + rows, |linked|, |linked|, retrieved)
  {
    var all, n := linked + rows, |linked|;
    assert forall i :: 0 <= i < n ==> all[i] == linked[i];
    forall i: nat, r | i <= n
      ensures Met(all, i, r) <==> Met(linked, i, r)
    {
    }
    forall i: nat | i < n
      ensures LinkRight(start, all, i)
    {
      assert LinkRight(start, linked, i);
    }
  }

  lemma LevelStep(g: set<Bind>, colls: set<int>, base: string, start: int, entries: seq<Entry>, linked: seq<Entry>,
                  rows: seq<Entry>, lo: nat, x: set<int>, uris: map<int, string>, retrieved: map<int, Link>)
    requires Progress(g, colls, base, start, entries, lo, x)
    requires LinkedTo(start, entries, linked, lo, |entries|, retrieved)
    requires LevelUris(colls, linked, lo, |linked|, uris) && LevelAll(colls, linked, lo, |linked|, uris)
    requires IsLevel(g, uris, rows)
    ensures Progress(g, colls, base, start, linked + rows, |linked|, x + uris.Keys)
    ensures LinkedTo(start, linked + rows, linked + rows, |linked|, |linked|, retrieved)
    ensures |linked| + |rows| <= |g|
  {
    LevelKeeps(g, colls, base, start, entries, linked, rows, lo, x, uris, retrieved);
    HashKept(start, entries, linked, rows, lo, retrieved);
    var all := linked + rows;
    forall i | 0 <= i < |all|
      ensures all[i].bind in g
    {
      assert Holds(all, all[i].bind);
    }
    DistinctBound(g, all);
  }

  /** sabridge_get_collection_children with depth infinity. */
  method ListInfinity(binds: set<Bind>, colls: set<int>, shown: set<int>, base: string, start: int)
    returns (entries: seq<Entry>)
    ensures IsListing(Listable(binds, colls, shown), base, start, entries)
    ensures forall i :: 0 <= i < |entries| ==> entries[i].bind in binds && entries[i].bind.coll in colls
    ensures forall i :: 0 <= i < |entries| ==> entries[i].bind.res in shown
    ensures forall b :: b in binds && b.coll in colls && b.res in shown ==>
      (Holds(entries, b) <==> b.coll == start || Met(entries, |entries|, b.coll))
  {
    ghost var g := Listable(binds, colls, shown);
    var uris: map<int, string> := if start in colls then map[start := base] else map[];
    entries := GetCollectionResource(binds, shown, uris, colls);
    EmptyStart(g, colls, base, start, entries, uris);
    var retrieved := map[start := Start];
    var lo: nat := 0;
    ghost var x := uris.Keys;
    while lo < |entries|
      invariant Progress(g, colls, base, start, entries, lo, x)
      invariant LinkedTo(start, entries, entries, lo, lo, retrieved)
      decreases |g| - |entries|, |entries| - lo
    {
      var linked, hash;
      linked, hash, uris := LinkLevel(start, colls, entries, lo, retrieved);
      var rows := GetCollectionResource(binds, shown, uris, colls);
      LevelStep(g, colls, base, start, entries, linked, rows, lo, x, uris, hash);
      retrieved, lo, entries, x := hash, |linked|, linked + rows, x + uris.Keys;
    }
    Finished(g, colls, base, start, entries, lo, x);
    forall i | 0 <= i < |entries|
      ensures entries[i].bind in g
    {
      assert Holds(entries, entries[i].bind);
    }
    forall b | b in g
      ensures Holds(entries, b) <==> b.coll == start || Met(entries, |entries|, b.coll)
    {
      HeldIffMet(g, base, start, entries, b);
    }
  }

  // ---------------------------------------------------------------- what a listing gives

  /** Listed are the binds of the collection itself and of what is listed, and no others. */
  lemma HeldIffMet(g: set<Bind>, base: string, start: int, entries: seq<Entry>, b: Bind)
    requires IsListing(g, base, start, entries) && b in g
    ensures Holds(entries, b) <==> b.coll == start || Met(entries, |entries|, b.coll)
  {
    ReachSelf(g, start);
    if i :| 0 <= i < |entries| && entries[i].bind.res == b.coll {
      assert Holds(entries, entries[i].bind);
      ReachStep(g, start, entries[i].bind);
    }
    if Holds(entries, b) && b.coll != start {
      var i :| 0 <= i < |entries| && entries[i].bind == b;
      assert UriRight(base, start, entries, |entries|, i);
    }
  }

  /** Exactly one entry of every listed resource other than the start has no link. */
  lemma OneUnlinked(g: set<Bind>, base: string, start: int, entries: seq<Entry>, r: int)
    requires IsListing(g, base, start, entries) && Met(entries, |entries|, r) && r != start
    ensures exists i :: 0 <= i < |entries| && entries[i].bind.res == r && entries[i].link.Fresh?
    ensures forall i, j | 0 <= i < |entries| && 0 <= j < |entries| && entries[i].bind.res == entries[j].bind.res == r ::
      entries[i].link.Fresh? && entries[j].link.Fresh? ==> i == j
  {
    var k :| 0 <= k < |entries| && entries[k].bind.res == r;
    var f := FirstOf(start, entries, k);
    forall i: nat, j: nat | i < j < |entries| && entries[i].bind.res == entries[j].bind.res == r
      ensures !entries[j].link.Fresh?
    {
      assert LinkRight(start, entries, j);
      assert Met(entries, j, r);
    }
  }

  // ---------------------------------------------------------------- texts

  /** Nothing is listed below a URI that is just a slash, other than the listed collection's. */
  ghost predicate NothingBelowSlash(entries: seq<Entry>) {
    forall i, j :: 0 <= i < |entries| && 0 <= j < |entries| ==>
      entries[j].link.Fresh? && entries[j].bind.res == entries[i].bind.coll ==> entries[j].uri != "/"
  }

  ghost predicate NoSlashNames(entries: seq<Entry>) {
    forall i :: 0 <= i < |entries| ==> NoSlash(entries[i].bind.name)
  }

  /** Where the URI of entry i comes from: entry j, or (-1) the listed collection. */
  ghost predicate ParentAt(base: string, start: int, entries: seq<Entry>, i: nat, j: int)
    requires i < |entries|
  {
    var e := entries[i];
    -1 <= j < i &&
    if j == -1 then e.bind.coll == start && e.uri == ChildUri(base, e.bind.name)
    else entries[j].link.Fresh? && entries[j].bind.res == e.bind.coll && e.uri == ChildUri(entries[j].uri, e.bind.name)
  }

  lemma ParentOf(g: set<Bind>, base: string, start: int, entries: seq<Entry>, i: nat) returns (j: int)
    requires IsListing(g, base, start, entries) && i < |entries|
    ensures ParentAt(base, start, entries, i, j)
  {
    assert UriRight(base, start, entries, |entries|, i);
    var e := entries[i];
    if e.bind.coll == start && e.uri == ChildUri(base, e.bind.name) {
      j := -1;
    } else {
      j :| 0 <= j < i && entries[j].link.Fresh? && entries[j].bind.res == e.bind.coll
        && e.uri == ChildUri(entries[j].uri, e.bind.name);
    }
  }

  /** Every URI is longer than what it starts with. */
  lemma {:induction false} UriLonger(g: set<Bind>, base: string, start: int, entries: seq<Entry>, i: nat)
    requires IsListing(g, base, start, entries) && i < |entries|
    ensures |entries[i].uri| > |Stem(base)|
    decreases i
  {
    var j := ParentOf(g, base, start, entries, i);
    if j >= 0 {
      UriLonger(g, base, start, entries, j);
    }
  }

  /** Below a collection other than the root, and without empty names, there is no such URI. */
  lemma NoSlashUri(g: set<Bind>, base: string, start: int, entries: seq<Entry>)
    requires IsListing(g, base, start, entries)
    requires Stem(base) != "" || forall i :: 0 <= i < |entries| ==> entries[i].bind.name != ""
    ensures NothingBelowSlash(entries)
  {
    forall j: nat | j < |entries|
      ensures entries[j].uri != "/"
    {
      UriLonger(g, base, start, entries, j);
      var k := ParentOf(g, base, start, entries, j);
    }
  }

  /** The URI of an entry renders the names on a walk that ends in its bind. */
  lemma {:induction false} UriWalk(g: set<Bind>, base: string, start: int, entries: seq<Entry>, i: nat)
    returns (p: seq<Bind>)
    requires IsListing(g, base, start, entries) && i < |entries|
    ensures IsWalk(g, start, p, entries[i].bind.res) && p != [] && p[|p| - 1] == entries[i].bind
    ensures NothingBelowSlash(entries) ==> entries[i].uri == Stem(base) + Render(Names(p))
    decreases i
  {
    var b := entries[i].bind;
    assert Holds(entries, b);
    OneBind(g, b);
    var j := ParentOf(g, base, start, entries, i);
    if j == -1 {
      p := [b];
      RenderNext([], b);
    } else {
      var q := UriWalk(g, base, start, entries, j);
      WalkConcat(g, start, q, b.coll, [b], b.res);
      p := q + [b];
      RenderNext(q, b);
    }
  }

  lemma {:induction false} RenderNext(q: seq<Bind>, b: Bind)
    ensures Render(Names(q + [b])) == Render(Names(q)) + ("/" + b.name)
  {
    if q == [] {
      assert Names([b])[1..] == [];
    } else {
      assert (q + [b])[1..] == q[1..] + [b];
      RenderNext(q[1..], b);
      assert Names(q)[1..] == Names(q[1..]) && Names(q + [b])[1..] == Names(q[1..] + [b]);
    }
  }

  /** Without slashes in the names no two entries share the text of their URI. */
  lemma {:induction false} UrisUnique(g: set<Bind>, base: string, start: int, entries: seq<Entry>, i: nat, j: nat)
    requires IsListing(g, base, start, entries) && NamesUnique(g) && i < |entries| && j < |entries|
    requires NoSlashNames(entries) && NothingBelowSlash(entries) && entries[i].uri == entries[j].uri
    ensures i == j
    decreases i
  {
    var a := ParentOf(g, base, start, entries, i);
    var b := ParentOf(g, base, start, entries, j);
    var s, t := if a == -1 then base else entries[a].uri, if b == -1 then base else entries[b].uri;
    ChildParts(s, entries[i].bind.name);
    ChildParts(t, entries[j].bind.name);
    assert Stem(s) == (Stem(s) + "/")[..|Stem(s)|] == (Stem(t) + "/")[..|Stem(t)|] == Stem(t);
    if a >= 0 {
      UriLonger(g, base, start, entries, a);
    }
    if b >= 0 {
      UriLonger(g, base, start, entries, b);
    }
    if a >= 0 && b >= 0 {
      UrisUnique(g, base, start, entries, a, b);
    }
    assert Holds(entries, entries[i].bind) && Holds(entries, entries[j].bind);
    assert entries[i].bind == entries[j].bind;
  }

  lemma BelowStart(g: set<Bind>, base: string, start: int, entries: seq<Entry>, i: nat)
    requires IsListing(g, base, start, entries) && i < |entries| && entries[i].bind.coll == start
    ensures entries[i].uri == ChildUri(base, entries[i].bind.name)
  {
    var j := ParentOf(g, base, start, entries, i);
    assert j >= 0 ==> LinkRight(start, entries, j);
  }

  /** A bind from a collection to itself is not where the collection is met first. */
  lemma BoundOnce(g: set<Bind>, base: string, start: int, entries: seq<Entry>, j: nat, n: nat)
    requires IsListing(g, base, start, entries) && j < |entries| && n < |entries|
    requires ParentAt(base, start, entries, j, n)
    ensures entries[n].bind != entries[j].bind
  {
  }

  lemma SlashText(base: string, a: string, b: string)
    requires ChildUri(base, a) != "/"
    ensures ChildUri(base, a + ("/" + b)) == ChildUri(ChildUri(base, a), b)
  {
  }

  /** Any name with a slash: the table of x, y and z has two binds listed under one URI. */
  lemma SlashClash(x: Bind, y: Bind, z: Bind, base: string, c: int, entries: seq<Entry>)
    requires x.coll == c && y.coll == c && z.coll == y.res != c && x.res != y.res
    requires x.name == y.name + ("/" + z.name) && ChildUri(base, y.name) != "/"
    requires IsListing({x, y, z}, base, c, entries)
    ensures exists i, j :: 0 <= i < |entries| && 0 <= j < |entries| && i != j && entries[i].uri == entries[j].uri
  {
    var g := {x, y, z};
    ReachSelf(g, c);
    ReachStep(g, c, y);
    assert Holds(entries, x) && Holds(entries, z);
    var i :| 0 <= i < |entries| && entries[i].bind == x;
    var j :| 0 <= j < |entries| && entries[j].bind == z;
    BelowStart(g, base, c, entries, i);
    var n := ParentOf(g, base, c, entries, j);
    BoundOnce(g, base, c, entries, j, n);
    assert Holds(entries, entries[n].bind) && entries[n].bind == y;
    BelowStart(g, base, c, entries, n);
    SlashText(base, y.name, z.name);
    assert entries[i].uri == entries[j].uri;
  }
}
