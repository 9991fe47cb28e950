/** URI lookup in the bind graph and its inverse (dbms_lookup_uri in
    limestone/dbms_bind.c, sabridge_reverse_lookup in limestone/bridge.c,
    compact_uri in limestone/util.c). */
module Lookup {
  import opened Common
  import opened BindGraph
  import opened ShortestPath
  import opened UriText

  const ROOT: int := 2

  // ---------------------------------------------------------------- text

  function SegLen(u: string): (n: nat)
    ensures n <= |u| && (forall i :: 0 <= i < n ==> u[i] != '/') && (n < |u| ==> u[n] == '/')
  {
    if u == "" || u[0] == '/' then 0 else 1 + SegLen(u[1..])
  }

  /** The tokens apr_strtok finds between slashes. */
  function Segments(u: string): seq<string>
    decreases |u|
  {
    if u == "" then []
    else if u[0] == '/' then Segments(u[1..])
    else [u[..SegLen(u)]] + Segments(u[SegLen(u)..])
  }

  predicate NoDoubleSlash(u: string) {
    forall i :: 0 <= i < |u| - 1 ==> u[i] != '/' || u[i + 1] != '/'
  }

  lemma {:induction false} SegLenIs(u: string, n: nat)
    requires n <= |u| && (forall i :: 0 <= i < n ==> u[i] != '/') && (n < |u| ==> u[n] == '/')
    ensures SegLen(u) == n
  {
  }

  /** A segment, then whatever follows its slash. */
  lemma SegmentThen(a: string, u: string)
    requires NoSlash(a) && a != "" && (u == "" || u[0] == '/')
    ensures Segments(a + u) == [a] + Segments(u)
  {
    assert forall i :: 0 <= i < |a| ==> (a + u)[i] == a[i];
    SegLenIs(a + u, |a|);
    assert (a + u)[..|a|] == a && (a + u)[|a|..] == u;
    assert (a + u)[0] == a[0];
  }

  lemma ConcatAfterSegment(a: string, w: string, v: string)
    requires NoSlash(a) && a != ""
    requires (w == "" || w[0] == '/') && (w != "" || v == "" || v[0] == '/')
    requires Segments(w + v) == Segments(w) + Segments(v)
    ensures Segments(a + w + v) == Segments(a + w) + Segments(v)
  {
    SegmentThen(a, w);
    SegmentThen(a, w + v);
    Assoc(a, w, v);
    Assoc([a], Segments(w), Segments(v));
  }

  /** Only slashes at a boundary: cutting there cuts the list of segments. */
  lemma {:induction false} SegmentsConcat(u: string, v: string)
    requires u == "" || u[|u| - 1] == '/' || v == "" || v[0] == '/'
    ensures Segments(u + v) == Segments(u) + Segments(v)
    decreases |u|
  {
    if u == "" {
      assert u + v == v;
    } else if u[0] == '/' {
      assert (u + v)[1..] == u[1..] + v;
      SegmentsConcat(u[1..], v);
    } else {
      var w := u[SegLen(u)..];
      assert w != "" ==> w[|w| - 1] == u[|u| - 1];
      SegmentsConcat(w, v);
      ConcatAfterSegment(u[..SegLen(u)], w, v);
      assert u == u[..SegLen(u)] + w;
    }
  }

  lemma SlashAfterSlash(v: string, u: string)
    requires v != "" && v[|v| - 1] == '/' && u != "" && u[0] == '/'
    ensures Segments(v + u) == Segments(v + u[1..])
  {
    SegmentsConcat(v, u);
    SegmentsConcat(v, u[1..]);
  }

  lemma ShiftOne(v: string, u: string, i: nat)
    requires i < |u|
    ensures u[i..] != "" && u[i..][0] == u[i] && u[i..][1..] == u[i + 1..]
    ensures v + u[i..] == (v + [u[i]]) + u[i + 1..]
  {
  }

  lemma RenderFirst(a: string, ns: seq<string>)
    ensures Render([a] + ns) == "/" + a + Render(ns)
  {
    assert ([a] + ns)[1..] == ns;
  }

  /** A slash, a segment, and the rest from its slash on. */
  lemma FirstSegment(u: string) returns (a: string, w: string)
    requires NoDoubleSlash(u) && u != "" && u[0] == '/' && u[|u| - 1] != '/'
    ensures u == "/" + (a + w) && Segments(u) == [a] + Segments(w) && |w| < |u|
    ensures NoDoubleSlash(w) && (w == "" || (w[0] == '/' && w[|w| - 1] != '/'))
  {
    var v := u[1..];
    var n := SegLen(v);
    a, w := v[..n], v[n..];
    assert v == a + w && v[0] == u[1];
    assert w == "" || w[|w| - 1] == u[|u| - 1];
    assert forall i :: 0 <= i < |w| ==> w[i] == u[1 + n + i];
    SegmentThen(a, w);
  }

  /** In a compact URI with a slash in front and none behind, nothing but the segments is left. */
  lemma {:induction false} RenderOfSegments(u: string)
    requires NoDoubleSlash(u) && (u == "" || (u[0] == '/' && u[|u| - 1] != '/'))
    ensures Render(Segments(u)) == u
    decreases |u|
  {
    if u != "" {
      var a, w := FirstSegment(u);
      RenderOfSegments(w);
      RenderFirst(a, Segments(w));
    }
  }

  method CompactUri(u: string) returns (v: string)
    ensures NoDoubleSlash(v) && Segments(v) == Segments(u)
    ensures (v == "" <==> u == "") && (u != "" ==> v[0] == u[0])
  {
    if u == "" {
      return "";
    }
    v := [u[0]];
    var i := 1;
    ShiftOne("", u, 0);
    assert v + u[1..] == u;
    while i < |u|
      invariant 1 <= i <= |u| && v != "" && v[0] == u[0]
      invariant v[|v| - 1] == u[i - 1]
      invariant NoDoubleSlash(v)
      invariant Segments(v + u[i..]) == Segments(u)
      decreases |u| - i
    {
      var j := |v| - 1;
      ShiftOne(v, u, i);
      if v[j] != '/' || u[i] != '/' {
        v := v + [u[i]];
      } else {
        SlashAfterSlash(v, u[i..]);
      }
      i := i + 1;
    }
    assert v + u[|u|..] == v;
  }

  // ---------------------------------------------------------------- cutting

  function Slashes(u: string): nat {
    if u == "" then 0 else (if u[0] == '/' then 1 else 0) + Slashes(u[1..])
  }

  lemma {:induction false} SlashesConcat(u: string, v: string)
    ensures Slashes(u + v) == Slashes(u) + Slashes(v)
  {
    if u == "" {
      assert u + v == v;
    } else {
      assert (u + v)[1..] == u[1..] + v;
      SlashesConcat(u[1..], v);
    }
  }

  lemma {:induction false} SlashesNone(u: string)
    requires NoSlash(u)
    ensures Slashes(u) == 0
  {
    if u != "" {
      SlashesNone(u[1..]);
    }
  }

  /** In a text without double slashes, each slash but a trailing one starts a segment. */
  lemma {:induction false} CountSegments(u: string)
    requires NoDoubleSlash(u) && u != "" && u[|u| - 1] != '/'
    ensures |Segments(u)| == Slashes(u) + if u[0] == '/' then 0 else 1
    decreases |u|
  {
    if u[0] == '/' {
      CountSegments(u[1..]);
    } else {
      var n := SegLen(u);
      var a, w := u[..n], u[n..];
      assert u == a + w;
      SegmentThen(a, w);
      SlashesConcat(a, w);
      SlashesNone(a);
      if w != "" {
        CountSegments(w);
      } else {
        assert Segments(w) == [];
      }
    }
  }

  /** The loop of dbms_lookup_uri that cuts the URI before its n-th slash. */
  method CutBeforeSlash(uri: string, n: nat) returns (cut: string)
    requires n > 0
    ensures cut <= uri
    ensures if Slashes(uri) < n then cut == uri
            else |cut| < |uri| && uri[|cut|] == '/' && Slashes(cut) == n - 1
  {
    var offset, count := 0, 0;
    assert uri[..0] == "";
    while offset < |uri| && count < n
      invariant 0 <= offset <= |uri| && count <= n
      invariant Slashes(uri[..offset]) == count
      invariant count == n ==> offset > 0 && uri[offset - 1] == '/'
      decreases |uri| - offset
    {
      assert uri[..offset + 1] == uri[..offset] + [uri[offset]];
      SlashesConcat(uri[..offset], [uri[offset]]);
      if uri[offset] == '/' {
        count := count + 1;
      }
      offset := offset + 1;
    }
    SlashesConcat(uri[..offset], uri[offset..]);
    assert uri[..offset] + uri[offset..] == uri;
    if count == n {
      offset := offset - 1;
      assert uri[..offset + 1] == uri[..offset] + [uri[offset]];
      SlashesConcat(uri[..offset], [uri[offset]]);
    } else {
      assert uri[offset..] == "";
    }
    cut := uri[..offset];
  }

  /** What the cut leaves: whole segments, as many as it passed slashes, and one more
      when the text does not start with a slash. */
  lemma CutSegments(uri: string, cut: string)
    requires NoDoubleSlash(uri) && cut <= uri && |cut| < |uri| && uri[|cut|] == '/' && cut != ""
    ensures Segments(cut) <= Segments(uri)
    ensures |Segments(cut)| == Slashes(cut) + if uri[0] == '/' then 0 else 1
  {
    var rest := uri[|cut|..];
    assert uri == cut + rest;
    SegmentsConcat(cut, rest);
    assert cut[|cut| - 1] == uri[|cut| - 1] && cut[0] == uri[0];
    assert NoDoubleSlash(cut) by {
      forall i | 0 <= i < |cut| - 1
        ensures cut[i] != '/' || cut[i + 1] != '/'
      {
        assert cut[i] == uri[i] && cut[i + 1] == uri[i + 1];
      }
    }
    CountSegments(cut);
  }

  lemma SegmentsFewerThanSlashes(u: string)
    requires NoDoubleSlash(u) && u != ""
    ensures |Segments(u)| <= Slashes(u) + if u[0] == '/' then 0 else 1
  {
  }

  // ---------------------------------------------------------------- resolving

  ghost predicate Resolves(binds: set<Bind>, c: int, ns: seq<string>, r: int) {
    exists p :: IsWalk(binds, c, p, r) && Names(p) == ns
  }

  lemma ResolvesNext(binds: set<Bind>, c: int, ns: seq<string>, m: int, b: Bind)
    requires Resolves(binds, c, ns, m) && b in binds && b.coll == m
    ensures Resolves(binds, c, ns + [b.name], b.res)
  {
    var p :| IsWalk(binds, c, p, m) && Names(p) == ns;
    OneBind(binds, b);
    WalkConcat(binds, c, p, m, [b], b.res);
    NamesConcat(p, [b]);
    assert Names([b]) == [b.name];
  }

  lemma ResolvesLast(binds: set<Bind>, c: int, ns: seq<string>, r: int) returns (b: Bind)
    requires Resolves(binds, c, ns, r) && ns != []
    ensures b in binds && b.res == r && b.name == ns[|ns| - 1] && Resolves(binds, c, ns[..|ns| - 1], b.coll)
  {
    var p :| IsWalk(binds, c, p, r) && Names(p) == ns;
    var n := |p| - 1;
    var m := WalkSplit(binds, c, p, r, n);
    b := p[n];
    assert p[n..] == [b];
    NamesConcat(p[..n], p[n..]);
    assert p == p[..n] + p[n..];
    assert Names([b]) == [b.name];
    assert Names(p[..n]) == ns[..n];
  }

  lemma ResolvesPrefix(binds: set<Bind>, c: int, ns: seq<string>, r: int, k: nat) returns (m: int)
    requires Resolves(binds, c, ns, r) && k <= |ns|
    ensures Resolves(binds, c, ns[..k], m)
  {
    var p :| IsWalk(binds, c, p, r) && Names(p) == ns;
    m := WalkSplit(binds, c, p, r, k);
    NamesConcat(p[..k], p[k..]);
    assert p == p[..k] + p[k..];
    assert Names(p[..k]) == ns[..k];
  }

  /** The columns b1.resource_id, b2.resource_id, ... of the one row of the LEFT JOIN. */
  ghost predicate IsRow(binds: set<Bind>, ns: seq<string>, cols: seq<Option<int>>) {
    |cols| <= |ns| &&
    forall i, r :: 0 <= i < |cols| ==> (cols[i] == Some(r) <==> Resolves(binds, ROOT, ns[..i + 1], r))
  }

  lemma NextColumn(binds: set<Bind>, ns: seq<string>, cols: seq<Option<int>>, prev: Option<int>, next: Option<int>)
    requires NamesUnique(binds) && IsRow(binds, ns, cols) && |cols| < |ns|
    requires forall r :: prev == Some(r) <==> Resolves(binds, ROOT, ns[..|cols|], r)
    requires next.Some? ==>
      exists b :: b in binds && prev == Some(b.coll) && b.name == ns[|cols|] && next.value == b.res
    requires next.None? ==> forall b :: b in binds && prev == Some(b.coll) ==> b.name != ns[|cols|]
    ensures IsRow(binds, ns, cols + [next])
    ensures forall r :: next == Some(r) <==> Resolves(binds, ROOT, ns[..|cols| + 1], r)
  {
    var k := |cols|;
    assert ns[..k + 1] == ns[..k] + [ns[k]];
    forall r
      ensures next == Some(r) <==> Resolves(binds, ROOT, ns[..k + 1], r)
    {
      if next == Some(r) {
        var b :| b in binds && prev == Some(b.coll) && b.name == ns[k] && next.value == b.res;
        ResolvesNext(binds, ROOT, ns[..k], b.coll, b);
      }
      if Resolves(binds, ROOT, ns[..k + 1], r) {
        var b := ResolvesLast(binds, ROOT, ns[..k + 1], r);
        assert ns[..k + 1][..k] == ns[..k];
        assert prev == Some(b.coll);
      }
    }
  }

  method JoinRow(binds: set<Bind>, ns: seq<string>) returns (cols: seq<Option<int>>)
    requires NamesUnique(binds)
    ensures |cols| == |ns| && IsRow(binds, ns, cols)
  {
    cols := [];
    var prev := Some(ROOT);
    assert IsWalk(binds, ROOT, [], ROOT) && Names([]) == [];
    assert forall r :: Resolves(binds, ROOT, ns[..0], r) <==> r == ROOT;
    while |cols| < |ns|
      invariant |cols| <= |ns| && IsRow(binds, ns, cols)
      invariant forall r :: prev == Some(r) <==> Resolves(binds, ROOT, ns[..|cols|], r)
      decreases |ns| - |cols|
    {
      var next: Option<int> := None;
      if b: Bind :| b in binds && prev == Some(b.coll) && b.name == ns[|cols|] {
        next := Some(b.res);
      }
      NextColumn(binds, ns, cols, prev, next);
      cols := cols + [next];
      prev := next;
    }
  }

  // ---------------------------------------------------------------- lookup

  /** What dbms_lookup_uri leaves in its result: nothing when the query has no row, the
      resource, or (resource_id -1) the last resource on the way and the text of the
      URI up to it. */
  datatype Found = NoRow | Resource(id: int) | Absent(parent: int, uri: string)

  ghost predicate LookupIs(binds: set<Bind>, uri: string, res: Found) {
    var ns := Segments(uri);
    match res
    case Resource(r) => Resolves(binds, ROOT, ns, r)
    case NoRow => ns != [] && Unbound(binds, ns[..1])
    case Absent(parent, prefix) =>
      exists k :: LongestPrefix(binds, ns, k, parent) &&
        Segments(prefix) == (if uri[0] == '/' then ns[..k] else ns[..k + 1])
  }

  ghost predicate Unbound(binds: set<Bind>, ns: seq<string>) {
    forall r :: !Resolves(binds, ROOT, ns, r)
  }

  /** ns[..k] resolves to r, and no longer prefix resolves. */
  ghost predicate LongestPrefix(binds: set<Bind>, ns: seq<string>, k: int, r: int) {
    1 <= k < |ns| && Resolves(binds, ROOT, ns[..k], r) &&
    forall j :: k < j <= |ns| ==> Unbound(binds, ns[..j])
  }

  lemma WholeUnbound(binds: set<Bind>, ns: seq<string>, k: int, r: int)
    requires LongestPrefix(binds, ns, k, r)
    ensures Unbound(binds, ns)
  {
    var n := |ns|;
    assert Unbound(binds, ns[..n]);
    assert ns[..n] == ns;
  }

  lemma NoLonger(binds: set<Bind>, ns: seq<string>, k: int)
    requires 0 <= k < |ns| && Unbound(binds, ns[..k + 1])
    ensures forall j :: k < j <= |ns| ==> Unbound(binds, ns[..j])
  {
    forall j, s | k < j <= |ns|
      ensures !Resolves(binds, ROOT, ns[..j], s)
    {
      assert ns[..j][..k + 1] == ns[..k + 1];
      if Resolves(binds, ROOT, ns[..j], s) {
        var m := ResolvesPrefix(binds, ROOT, ns[..j], s, k + 1);
        assert false;
      }
    }
  }

  lemma NoColumn(binds: set<Bind>, ns: seq<string>, cols: seq<Option<int>>, i: int)
    requires IsRow(binds, ns, cols) && 0 <= i < |cols| && cols[i] == None
    ensures Unbound(binds, ns[..i + 1])
  {
    var w := ns[..i + 1];
    forall r
      ensures !Resolves(binds, ROOT, w, r)
    {
      assert cols[i] != Some(r);
    }
  }

  method LookupUri(binds: set<Bind>, uri: string) returns (res: Found)
    requires NamesUnique(binds)
    ensures uri != "" ==> LookupIs(binds, uri, res)
    ensures uri == "" ==> res == Resource(ROOT)
  {
    var u := CompactUri(uri);
    var ns := Segments(u);
    if ns == [] {
      assert IsWalk(binds, ROOT, [], ROOT) && Names([]) == [];
      return Resource(ROOT);
    }
    var row := JoinRow(binds, ns);
    if row[0].None? {
      NoColumn(binds, ns, row, 0);
      return NoRow;
    }
    var j := 0;
    while j < |row| && row[j].Some?
      invariant 0 <= j <= |row| && forall i :: 0 <= i < j ==> row[i].Some?
      decreases |row| - j
    {
      j := j + 1;
    }
    if j == |row| {
      assert ns[..j] == ns;
      assert row[j - 1] == Some(row[j - 1].value);
      return Resource(row[j - 1].value);
    }
    var cut := CutBeforeSlash(u, j + 1);
    SegmentsFewerThanSlashes(u);
    if Slashes(u) >= j + 1 {
      CutSegments(u, cut);
    } else {
      assert ns[..j + 1] == ns;
    }
    NoColumn(binds, ns, row, j);
    NoLonger(binds, ns, j);
    assert row[j - 1] == Some(row[j - 1].value);
    assert LongestPrefix(binds, ns, j, row[j - 1].value);
    res := Absent(row[j - 1].value, cut);
  }

  // ---------------------------------------------------------------- reverse lookup

  /** A name that can be a segment of a URI. */
  predicate Plain(n: string) {
    n != "" && NoSlash(n)
  }

  ghost predicate AllPlain(ns: seq<string>) {
    forall k :: 0 <= k < |ns| ==> Plain(ns[k])
  }

  ghost predicate PlainNames(binds: set<Bind>) {
    forall b :: b in binds ==> Plain(b.name)
  }

  lemma {:induction false} SegmentsOfRender(ns: seq<string>)
    requires AllPlain(ns)
    ensures Segments(Render(ns)) == ns
    ensures Render(ns) == "" || Render(ns)[0] == '/'
  {
    if ns != [] {
      SegmentsOfRender(ns[1..]);
      SegmentThen(ns[0], Render(ns[1..]));
      assert Render(ns)[1..] == ns[0] + Render(ns[1..]);
    }
  }

  lemma {:induction false} SegmentsArePlain(u: string)
    ensures AllPlain(Segments(u))
    decreases |u|
  {
    if u != "" {
      var n := SegLen(u);
      if n == 0 {
        SegmentsArePlain(u[1..]);
      } else {
        SegmentsArePlain(u[n..]);
      }
    }
  }

  /** A text of names is cut into them again exactly when none is empty or has a slash. */
  lemma RenderBackIff(ns: seq<string>)
    ensures Segments(Render(ns)) == ns <==> AllPlain(ns)
  {
    SegmentsArePlain(Render(ns));
    if AllPlain(ns) {
      SegmentsOfRender(ns);
    }
  }

  lemma WalkIsPlain(binds: set<Bind>, c: int, p: seq<Bind>, r: int)
    requires PlainNames(binds) && IsWalk(binds, c, p, r)
    ensures AllPlain(Names(p))
  {
    WalkBinds(binds, c, p, r);
    forall k | 0 <= k < |p|
      ensures Plain(Names(p)[k])
    {
      NamesAt(p, k);
      var b: Bind := p[k];
      assert b in binds;
    }
  }

  /** The URI of a walk from the root, "/" for the root itself. */
  ghost predicate Spells(binds: set<Bind>, r: int, uri: string, walk: seq<Bind>) {
    IsWalk(binds, ROOT, walk, r) && uri == if walk == [] then "/" else Render(Names(walk))
  }

  ghost predicate Minimal(binds: set<Bind>, r: int, walk: seq<Bind>) {
    forall p: seq<Bind> :: IsWalk(binds, ROOT, p, r) ==> |walk| <= |p|
  }

  /** sabridge_reverse_lookup, without the root path it puts in front.  For a resource that
      the root does not reach there is no path, which the C code does not look for. */
  method ReverseLookup(binds: set<Bind>, r: int) returns (uri: Option<string>)
    ensures uri.Some? <==> Reach(binds, ROOT, r)
    ensures uri.Some? ==> exists walk :: Spells(binds, r, uri.value, walk) && Minimal(binds, r, walk)
  {
    var path;
    ghost var walk;
    path, walk := FindShortestPathExclBinds(binds, ROOT, r, {});
    if path.None? {
      ReachSelf(binds, ROOT);
      return None;
    }
    var text := path.value;
    if text == "" {
      text := "/";
    }
    assert walk == [] <==> |Names(walk)| == 0;
    assert |Names(walk)| > 0 ==> |Render(Names(walk))| > 0;
    assert |Names(walk)| == 0 ==> Render(Names(walk)) == "";
    assert Spells(binds, r, text, walk) && Minimal(binds, r, walk);
    if r == ROOT {
      ReachSelf(binds, ROOT);
    }
    uri := Some(text);
  }

  /** Lookup has one answer when names lead one way. */
  lemma OneAnswer(binds: set<Bind>, uri: string, r: int, res: Found)
    requires NamesUnique(binds) && LookupIs(binds, uri, Resource(r)) && LookupIs(binds, uri, res)
    ensures res == Resource(r)
  {
    var ns := Segments(uri);
    match res {
      case Resource(s) =>
        var p :| IsWalk(binds, ROOT, p, r) && Names(p) == ns;
        var q :| IsWalk(binds, ROOT, q, s) && Names(q) == ns;
        OneWalk(binds, ROOT, p, q, r, s);
      case NoRow =>
        var m := ResolvesPrefix(binds, ROOT, ns, r, 1);
        assert false;
      case Absent(parent, prefix) =>
        var k :| LongestPrefix(binds, ns, k, parent);
        WholeUnbound(binds, ns, k, parent);
        assert false;
    }
  }

  /** Whatever lookup gives for the text of a walk from the root is where the walk ends,
      when its names are plain. */
  lemma LookupUndoesReverse(binds: set<Bind>, walk: seq<Bind>, r: int, uri: string, res: Found)
    requires NamesUnique(binds) && AllPlain(Names(walk)) && Spells(binds, r, uri, walk)
    requires LookupIs(binds, uri, res)
    ensures res == Resource(r)
  {
    SegmentsOfRender(Names(walk));
    assert Segments("/"[1..]) == [];
    assert Segments(uri) == Names(walk) && Resolves(binds, ROOT, Names(walk), r);
    OneAnswer(binds, uri, r, res);
  }

  /** In every table, the text of a walk that spells ns is looked up to where the walk ends. */
  ghost predicate FoundAgain(ns: seq<string>) {
    forall binds: set<Bind>, walk: seq<Bind>, r: int, uri: string ::
      NamesUnique(binds) && Spells(binds, r, uri, walk) && Names(walk) == ns ==> LookupIs(binds, uri, Resource(r))
  }

  /** The binds of a line of collections from the root, with these names. */
  function Line(ns: seq<string>): set<Bind> {
    set i | 0 <= i < |ns| :: Bind(i, ROOT + i, ns[i], ROOT + i + 1)
  }

  lemma LineBind(ns: seq<string>, i: nat)
    requires i < |ns|
    ensures Bind(i, ROOT + i, ns[i], ROOT + i + 1) in Line(ns)
  {
  }

  lemma {:induction false} LineWalk(ns: seq<string>, i: nat) returns (p: seq<Bind>)
    requires i <= |ns|
    ensures IsWalk(Line(ns), ROOT + i, p, ROOT + |ns|) && Names(p) == ns[i..]
    decreases |ns| - i
  {
    if i == |ns| {
      p := [];
    } else {
      var b := Bind(i, ROOT + i, ns[i], ROOT + i + 1);
      var q := LineWalk(ns, i + 1);
      LineBind(ns, i);
      p := [b] + q;
      assert p[1..] == q;
    }
  }

  /** There is no other way to its end. */
  lemma {:induction false} LineOnly(ns: seq<string>, i: nat, p: seq<Bind>)
    requires i <= |ns| && IsWalk(Line(ns), ROOT + i, p, ROOT + |ns|)
    ensures Names(p) == ns[i..]
    decreases |p|
  {
    if p != [] {
      LineOnly(ns, i + 1, p[1..]);
    }
  }

  /** Names are found again in every table exactly when they are plain. */
  lemma FoundAgainIff(ns: seq<string>)
    ensures FoundAgain(ns) <==> AllPlain(ns)
  {
    if AllPlain(ns) {
      SegmentsOfRender(ns);
      assert Segments("/"[1..]) == [];
      forall binds: set<Bind>, walk: seq<Bind>, r: int, uri: string |
          NamesUnique(binds) && Spells(binds, r, uri, walk) && Names(walk) == ns
        ensures LookupIs(binds, uri, Resource(r))
      {
        assert Resolves(binds, ROOT, Segments(uri), r);
      }
    }
    if FoundAgain(ns) && ns != [] {
      var p := LineWalk(ns, 0);
      var uri, r := Render(ns), ROOT + |ns|;
      assert Spells(Line(ns), r, uri, p) && NamesUnique(Line(ns));
      assert LookupIs(Line(ns), uri, Resource(r));
      var q :| IsWalk(Line(ns), ROOT, q, r) && Names(q) == Segments(uri);
      LineOnly(ns, 0, q);
      RenderBackIff(ns);
    }
  }

  method ReverseThenLookup(binds: set<Bind>, r: int) returns (res: Option<Found>)
    requires NamesUnique(binds)
    ensures res.Some? <==> Reach(binds, ROOT, r)
    ensures res.Some? && PlainNames(binds) ==> res.value == Resource(r)
  {
    var uri := ReverseLookup(binds, r);
    if uri.None? {
      return None;
    }
    var found := LookupUri(binds, uri.value);
    ghost var walk :| Spells(binds, r, uri.value, walk) && Minimal(binds, r, walk);
    if |walk| > 0 {
      assert Render(Names(walk)) != "";
    }
    if PlainNames(binds) {
      WalkIsPlain(binds, ROOT, walk, r);
      LookupUndoesReverse(binds, walk, r, uri.value, found);
    }
    res := Some(found);
  }

  lemma TwoSegments(a: string, b: string)
    requires Plain(a) && Plain(b)
    ensures Segments(a + ("/" + b)) == [a, b]
  {
    SegmentThen(a, "/" + b);
    assert ("/" + b)[1..] == b && b + "" == b;
    SegmentThen(b, "");
    assert Segments(b) == [b];
  }

  /** A walk that spells a as its first name starts with a bind of that name. */
  lemma FirstName(binds: set<Bind>, p: seq<Bind>, r: int, ns: seq<string>)
    requires IsWalk(binds, ROOT, p, r) && Names(p) == ns && ns != []
    ensures exists d :: d in binds && d.name == ns[0]
  {
    WalkBinds(binds, ROOT, p, r);
    NamesAt(p, 0);
    var d: Bind := p[0];
    assert d in binds && d.name == ns[0];
  }

  /** A bind with a slash in its name is not found again. */
  lemma SlashInName(d: Bind, a: string, b: string, uri: string, res: Found)
    requires Plain(a) && Plain(b) && d.coll == ROOT && d.name == a + ("/" + b)
    requires uri == Render([d.name]) && LookupIs({d}, uri, res)
    ensures Spells({d}, d.res, uri, [d]) && res != Resource(d.res)
  {
    OneBind({d}, d);
    NamesAt([d], 0);
    assert Names([d]) == [d.name];
    assert [d.name][1..] == [] && uri[1..] == d.name;
    TwoSegments(a, b);
    assert Segments(uri) == [a, b];
    assert |d.name| > |a|;
    if Resolves({d}, ROOT, [a, b], d.res) {
      var p :| IsWalk({d}, ROOT, p, d.res) && Names(p) == [a, b];
      FirstName({d}, p, d.res, [a, b]);
    }
  }
}
