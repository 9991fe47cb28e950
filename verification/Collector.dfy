/** Deleting resources: unbind, the queue-driven collector of limestone/gc.c and the
    synchronous loop of sabridge_unbind_resource (limestone/bridge.c), with the other
    requests that change binds.  Sessions are SERIALIZABLE, so one request, or one turn
    of the collector, is one step. */
module Collector {
  import opened Common
  import opened BindGraph
  import opened ShortestPath
  import Listing
  import Lookup

  const ROOT: int := Lookup.ROOT

  /** The system principals 3, 4 and 5 of the seed, which no bind ever names. */
  const PINNED: set<int> := {3, 4, 5}

  /** resources.id, binds, and cleanup in the order of its ids. */
  datatype Store = Store(live: set<int>, binds: set<Bind>, queue: seq<int>)

  ghost predicate WellFormed(s: Store) {
    && ROOT in s.live
    && NamesUnique(s.binds)
    && (forall b :: b in s.binds ==> b.coll in s.live - PINNED && b.res in s.live - PINNED)
    && (forall q :: q in s.queue ==> q in s.live - PINNED)
  }

  // ---------------------------------------------------------------- coverage

  /** x can be reached from one of the sources. */
  ghost predicate Covered(binds: set<Bind>, sources: set<int>, x: int) {
    exists q :: q in sources && Reach(binds, q, x)
  }

  ghost predicate AllCovered(live: set<int>, binds: set<Bind>, sources: set<int>) {
    forall x :: x in live && x !in PINNED ==> Covered(binds, sources, x)
  }

  ghost function Queued(q: seq<int>): set<int> {
    set x | x in q
  }

  /** Every live, unpinned resource is reachable from the root or from the queue. */
  ghost predicate NothingLost(s: Store) {
    AllCovered(s.live, s.binds, {ROOT} + Queued(s.queue))
  }

  lemma CoverMonotone(small: set<Bind>, big: set<Bind>, s: set<int>, t: set<int>, x: int)
    requires Covered(small, s, x) && small <= big && s <= t
    ensures Covered(big, t, x)
  {
    var q :| q in s && Reach(small, q, x);
    ReachMonotone(small, big, q, x);
  }

  /** A source that is itself covered by the others is not needed. */
  lemma CoverShift(binds: set<Bind>, s: set<int>, d: int, x: int)
    requires Covered(binds, s + {d}, x) && Covered(binds, s, d)
    ensures Covered(binds, s, x)
  {
    var q :| q in s + {d} && Reach(binds, q, x);
    if q !in s {
      var p :| p in s && Reach(binds, p, d);
      ReachTrans(binds, p, d, x);
    }
  }

  // ---------------------------------------------------------------- cutting binds

  /** Walks that used removed binds, all into d, still lead from d. */
  lemma {:induction false} CutWalk(binds: set<Bind>, gone: set<Bind>, d: int, q: int, p: seq<Bind>, x: int)
    requires IsWalk(binds, q, p, x) && forall b :: b in gone ==> b.res == d
    ensures Reach(binds - gone, q, x) || Reach(binds - gone, d, x)
    decreases |p|
  {
    if p == [] {
      ReachSelf(binds - gone, q);
    } else {
      var b: Bind := p[0];
      CutWalk(binds, gone, d, b.res, p[1..], x);
      if !Reach(binds - gone, d, x) {
        assert b !in gone;
        OneBind(binds - gone, b);
        ReachTrans(binds - gone, q, b.res, x);
      }
    }
  }

  lemma CutCover(live: set<int>, binds: set<Bind>, gone: set<Bind>, d: int, s: set<int>)
    requires AllCovered(live, binds, s) && forall b :: b in gone ==> b.res == d
    ensures AllCovered(live, binds - gone, s + {d})
  {
    forall x | x in live && x !in PINNED
      ensures Covered(binds - gone, s + {d}, x)
    {
      var q :| q in s && Reach(binds, q, x);
      var p :| IsWalk(binds, q, p, x);
      CutWalk(binds, gone, d, q, p, x);
    }
  }

  // ---------------------------------------------------------------- deleting a resource

  /** ON DELETE CASCADE on binds. */
  function Cascade(binds: set<Bind>, r: int): set<Bind> {
    set b | b in binds && b.coll != r && b.res != r
  }

  /** dbms_get_child_binds with exclude_self, as the distinct resources enqueued. */
  function Children(binds: set<Bind>, r: int): set<int> {
    set b | b in binds && b.coll == r && b.res != r :: b.res
  }

  lemma {:induction false} LastVisit(binds: set<Bind>, r: int, q: int, p: seq<Bind>, x: int) returns (s: int)
    requires IsWalk(binds, q, p, x) && x != r
    ensures s in Children(binds, r) || (s == q && q != r)
    ensures Reach(Cascade(binds, r), s, x)
    decreases |p|
  {
    if p == [] {
      s := q;
      ReachSelf(Cascade(binds, r), q);
    } else {
      var b: Bind := p[0];
      s := LastVisit(binds, r, b.res, p[1..], x);
      if s !in Children(binds, r) {
        assert q != r;
        OneBind(Cascade(binds, r), b);
        ReachTrans(Cascade(binds, r), q, b.res, x);
        s := q;
      }
    }
  }

  /** Deleting r and making its children sources loses nothing. */
  lemma DeleteCover(live: set<int>, binds: set<Bind>, r: int, s: set<int>)
    requires AllCovered(live, binds, s)
    ensures AllCovered(live - {r}, Cascade(binds, r), s - {r} + Children(binds, r))
  {
    forall x | x in live - {r} && x !in PINNED
      ensures Covered(Cascade(binds, r), s - {r} + Children(binds, r), x)
    {
      var q :| q in s && Reach(binds, q, x);
      var p :| IsWalk(binds, q, p, x);
      var t := LastVisit(binds, r, q, p, x);
    }
  }

  lemma {:induction false} WalkAvoids(binds: set<Bind>, r: int, c: int, p: seq<Bind>, x: int)
    requires IsWalk(binds, c, p, x) && !Reach(binds, c, r)
    ensures IsWalk(Cascade(binds, r), c, p, x)
    decreases |p|
  {
    ReachSelf(binds, c);
    if p != [] {
      var b: Bind := p[0];
      OneBind(binds, b);
      if Reach(binds, b.res, r) {
        ReachTrans(binds, c, b.res, r);
      }
      ReachSelf(binds, b.res);
      WalkAvoids(binds, r, b.res, p[1..], x);
    }
  }

  // ---------------------------------------------------------------- what is left in the end

  /** (live, binds) comes from (live0, binds0) by deletions that spared whatever the root
      reached. */
  ghost predicate Trimmed(live0: set<int>, binds0: set<Bind>, live: set<int>, binds: set<Bind>) {
    && live <= live0
    && (forall b :: b in binds <==> b in binds0 && b.coll in live && b.res in live)
    && (forall x :: x in live0 && (x in PINNED || Reach(binds0, ROOT, x)) ==> x in live)
    && (forall b :: b in binds0 ==> b.coll in live0 && b.res in live0)
    && ROOT in live0
  }

  lemma {:induction false} WalkKept(live0: set<int>, binds0: set<Bind>, live: set<int>, binds: set<Bind>,
      c: int, p: seq<Bind>, x: int)
    requires Trimmed(live0, binds0, live, binds) && Reach(binds0, ROOT, c) && c in live0
    requires IsWalk(binds0, c, p, x)
    ensures IsWalk(binds, c, p, x)
    decreases |p|
  {
    if p != [] {
      var b: Bind := p[0];
      ReachStep(binds0, ROOT, b);
      assert b in binds0 && b in binds;
      WalkKept(live0, binds0, live, binds, b.res, p[1..], x);
    }
  }

  lemma TrimmedReach(live0: set<int>, binds0: set<Bind>, live: set<int>, binds: set<Bind>, x: int)
    requires Trimmed(live0, binds0, live, binds)
    ensures Reach(binds, ROOT, x) <==> Reach(binds0, ROOT, x)
  {
    if Reach(binds0, ROOT, x) {
      var p :| IsWalk(binds0, ROOT, p, x);
      ReachSelf(binds0, ROOT);
      WalkKept(live0, binds0, live, binds, ROOT, p, x);
    }
    if Reach(binds, ROOT, x) {
      ReachMonotone(binds, binds0, ROOT, x);
    }
  }

  lemma TrimmedDelete(live0: set<int>, binds0: set<Bind>, live: set<int>, binds: set<Bind>, r: int)
    requires Trimmed(live0, binds0, live, binds) && !Reach(binds, ROOT, r) && r !in PINNED
    ensures Trimmed(live0, binds0, live - {r}, Cascade(binds, r))
  {
    TrimmedReach(live0, binds0, live, binds, r);
  }

  /** What the root reaches, and the pinned resources; the binds of what it reaches. */
  ghost function PurgedLive(live: set<int>, binds: set<Bind>): set<int> {
    set x | x in live && (x in PINNED || Reach(binds, ROOT, x))
  }

  ghost function PurgedBinds(binds: set<Bind>): set<Bind> {
    set b | b in binds && Reach(binds, ROOT, b.coll)
  }

  /** Of these resources and binds, what the root reaches, and the pinned principals. */
  ghost predicate OnlyReached(live0: set<int>, binds0: set<Bind>, live: set<int>, binds: set<Bind>) {
    && (forall x :: x in live <==> x in live0 && (x in PINNED || Reach(binds0, ROOT, x)))
    && forall b :: b in binds <==> b in binds0 && Reach(binds0, ROOT, b.coll)
  }

  lemma TrimmedEnd(live0: set<int>, binds0: set<Bind>, live: set<int>, binds: set<Bind>)
    requires Trimmed(live0, binds0, live, binds) && AllCovered(live, binds, {ROOT})
    requires forall b :: b in binds0 ==> b.coll !in PINNED
    ensures live == PurgedLive(live0, binds0) && binds == PurgedBinds(binds0)
  {
    forall x | x in live0
      ensures x in live <==> x in PINNED || Reach(binds0, ROOT, x)
    {
      TrimmedReach(live0, binds0, live, binds, x);
    }
    forall b | b in binds0
      ensures b in binds <==> Reach(binds0, ROOT, b.coll)
    {
      TrimmedReach(live0, binds0, live, binds, b.coll);
      if Reach(binds0, ROOT, b.coll) {
        ReachStep(binds0, ROOT, b);
      }
    }
  }

  // ---------------------------------------------------------------- the requests

  /** UNIQUE (collection_id, name) would be violated. */
  predicate Taken(binds: set<Bind>, coll: int, name: string) {
    exists b :: b in binds && b.coll == coll && b.name == name
  }

  function Matching(binds: set<Bind>, coll: int, name: string, res: int): set<Bind> {
    set b | b in binds && b.coll == coll && b.name == name && b.res == res
  }

  /** With unique names, what an addressed bind is matched by is that bind. */
  lemma MatchingOne(binds: set<Bind>, d: Bind)
    requires NamesUnique(binds) && d in binds
    ensures Matching(binds, d.coll, d.name, d.res) == {d}
  {
  }

  lemma MatchingNone(binds: set<Bind>, coll: int, name: string, res: int)
    requires forall d :: d in binds ==> d != Bind(d.id, coll, name, res)
    ensures Matching(binds, coll, name, res) == {}
  {
    forall b | b in binds
      ensures b !in Matching(binds, coll, name, res)
    {
      assert b != Bind(b.id, coll, name, res);
    }
  }

  /** Unbinding in queue mode: delete the bind, ask for the resource to be looked at. */
  function AfterUnbind(s: Store, coll: int, name: string, res: int): Store {
    Store(s.live, s.binds - Matching(s.binds, coll, name, res), s.queue + [res])
  }

  /** A new bind, to a resource that is there or to a new one; refused when the name is
      taken. */
  function AfterBind(s: Store, b: Bind): Store {
    if Taken(s.binds, b.coll, b.name) then s else Store(s.live + {b.res}, s.binds + {b}, s.queue)
  }

  /** The binds once a MOVE has deleted the bind it overwrites. */
  function Cleared(binds: set<Bind>, dst: int, name: string, over: Option<int>): set<Bind> {
    if over.Some? then binds - Matching(binds, dst, name, over.value) else binds
  }

  /** The bind a MOVE moves; there is none when it was the one overwritten. */
  function Moving(binds: set<Bind>, src: int, name: string): set<Bind> {
    set b | b in binds && b.coll == src && b.name == name
  }

  function Moved(m: set<Bind>, dst: int, name: string): set<Bind> {
    set b | b in m :: b.(coll := dst, name := name)
  }

  function AfterMove(s: Store, src: int, srcName: string, dst: int, dstName: string, over: Option<int>): Store {
    var b1 := Cleared(s.binds, dst, dstName, over);
    var m := Moving(b1, src, srcName);
    if m != {} && Taken(b1 - m, dst, dstName) then s
    else Store(s.live, b1 - m + Moved(m, dst, dstName), if over.Some? then s.queue + [over.value] else s.queue)
  }

  function Dropped(q: seq<int>, r: int): seq<int> {
    if q == [] then [] else (if q[0] == r then [] else [q[0]]) + Dropped(q[1..], r)
  }

  ghost predicate IsListing(ord: seq<int>, s: set<int>) {
    (forall x :: x in ord <==> x in s) && forall i, j :: 0 <= i < j < |ord| ==> ord[i] != ord[j]
  }

  /** One turn of the collector: take the oldest request; unless the root reaches its
      resource, delete it, which also drops its other requests, and enqueue what it
      bound, in some order. */
  ghost predicate CollectStep(s: Store, s': Store) {
    s.queue != [] &&
    var r := s.queue[0];
    if Reach(s.binds, ROOT, r) then s' == s.(queue := s.queue[1..])
    else
      && s'.live == s.live - {r} && s'.binds == Cascade(s.binds, r)
      && exists ord :: IsListing(ord, Children(s.binds, r)) && s'.queue == Dropped(s.queue[1..], r) + ord
  }

  predicate Binds(binds: set<Bind>, coll: int, res: int) {
    exists b :: b in binds && b.coll == coll && b.res == res
  }

  /** What the collector leaves, on the rows themselves. */
  lemma CollectIs(s: Store, s': Store)
    requires CollectStep(s, s') && !Reach(s.binds, ROOT, s.queue[0])
    ensures var r := s.queue[0];
      && (forall b :: b in s'.binds <==> b in s.binds && b.coll != r && b.res != r)
      && forall x :: x in s'.queue <==> (x != r && (x in s.queue[1..] || Binds(s.binds, r, x)))
  {
    var r := s.queue[0];
    var ord :| IsListing(ord, Children(s.binds, r)) && s'.queue == Dropped(s.queue[1..], r) + ord;
    QueuedDropped(s.queue[1..], r);
    forall x
      ensures x in Dropped(s.queue[1..], r) <==> x in s.queue[1..] && x != r
    {
      assert x in Dropped(s.queue[1..], r) <==> x in Queued(Dropped(s.queue[1..], r));
      assert x in s.queue[1..] <==> x in Queued(s.queue[1..]);
    }
  }

  datatype Action =
    | Unbind(coll: int, name: string, res: int)
    | BindTo(bind: Bind)
    | Create(bind: Bind)
    | Move(src: int, srcName: string, dst: int, dstName: string, over: Option<int>)
    | Collect

  ghost predicate Usable(s: Store, r: int) {
    r in s.live && r !in PINNED
  }

  ghost predicate Next(s: Store, a: Action, s': Store) {
    match a
    case Unbind(coll, name, res) => Usable(s, res) && s' == AfterUnbind(s, coll, name, res)
    case BindTo(b) => Usable(s, b.coll) && Usable(s, b.res) && s' == AfterBind(s, b)
    case Create(b) => Usable(s, b.coll) && b.res !in s.live && b.res !in PINNED && s' == AfterBind(s, b)
    case Move(src, srcName, dst, dstName, over) =>
      Usable(s, dst) && (over.Some? ==> Usable(s, over.value)) && s' == AfterMove(s, src, srcName, dst, dstName, over)
    case Collect => CollectStep(s, s')
  }

  /** The destination of a MOVE is still covered without the bind that is moved. */
  ghost predicate MoveSafe(s: Store, a: Action) {
    a.Move? ==>
      var b1 := Cleared(s.binds, a.dst, a.dstName, a.over);
      var m := Moving(b1, a.src, a.srcName);
      m == {} || Taken(b1 - m, a.dst, a.dstName) ||
      Covered(b1 - m, {ROOT} + Queued(s.queue) + (if a.over.Some? then {a.over.value} else {}), a.dst)
  }

  // ---------------------------------------------------------------- what each request keeps

  lemma {:induction false} QueuedDropped(q: seq<int>, r: int)
    ensures Queued(Dropped(q, r)) == Queued(q) - {r}
    ensures |Dropped(q, r)| <= |q|
  {
    if q != [] {
      QueuedDropped(q[1..], r);
      var head := if q[0] == r then [] else [q[0]];
      QueuedConcat(head, Dropped(q[1..], r));
      QueuedConcat([q[0]], q[1..]);
      assert q == [q[0]] + q[1..];
      assert Queued(head) == Queued([q[0]]) - {r};
    }
  }

  lemma QueuedConcat(p: seq<int>, q: seq<int>)
    ensures Queued(p + q) == Queued(p) + Queued(q)
  {
  }

  lemma UnbindKeeps(s: Store, coll: int, name: string, res: int)
    requires NothingLost(s)
    ensures NothingLost(AfterUnbind(s, coll, name, res))
  {
    CutCover(s.live, s.binds, Matching(s.binds, coll, name, res), res, {ROOT} + Queued(s.queue));
    QueuedConcat(s.queue, [res]);
    assert {ROOT} + Queued(s.queue) + {res} == {ROOT} + Queued(s.queue + [res]);
  }

  lemma BindKeeps(s: Store, b: Bind)
    requires NothingLost(s) && Usable(s, b.coll)
    ensures NothingLost(AfterBind(s, b))
  {
    var s' := AfterBind(s, b);
    var src := {ROOT} + Queued(s.queue);
    forall x | x in s'.live && x !in PINNED
      ensures Covered(s'.binds, src, x)
    {
      if x in s.live {
        CoverMonotone(s.binds, s'.binds, src, src, x);
      } else {
        CoverMonotone(s.binds, s'.binds, src, src, b.coll);
        var q :| q in src && Reach(s'.binds, q, b.coll);
        ReachStep(s'.binds, q, b);
      }
    }
  }

  /** A MOVE loses nothing exactly when its destination stays covered. */
  lemma MoveKeepsIff(s: Store, a: Action)
    requires WellFormed(s) && NothingLost(s) && a.Move? && Usable(s, a.dst)
    ensures NothingLost(AfterMove(s, a.src, a.srcName, a.dst, a.dstName, a.over)) <==> MoveSafe(s, a)
  {
    var src := {ROOT} + Queued(s.queue);
    var over := if a.over.Some? then {a.over.value} else {};
    var b1 := Cleared(s.binds, a.dst, a.dstName, a.over);
    if a.over.Some? {
      CutCover(s.live, s.binds, Matching(s.binds, a.dst, a.dstName, a.over.value), a.over.value, src);
      QueuedConcat(s.queue, [a.over.value]);
      assert {ROOT} + Queued(s.queue + [a.over.value]) == src + over;
    } else {
      assert src + over == src;
    }
    var m := Moving(b1, a.src, a.srcName);
    if m == {} {
      assert b1 - m + Moved(m, a.dst, a.dstName) == b1;
    } else if !Taken(b1 - m, a.dst, a.dstName) {
      var b := Pick(m);
      forall c | c in m
        ensures c == b
      {
        assert b in s.binds && c in s.binds;
      }
      assert m == {b};
      var b' := b.(coll := a.dst, name := a.dstName);
      assert b1 - m + Moved(m, a.dst, a.dstName) == b1 - {b} + {b'};
      RedirectKeepsIff(s.live, b1, b, b', src + over);
    }
  }

  lemma RedirectKeepsIff(live: set<int>, binds: set<Bind>, b: Bind, b': Bind, src: set<int>)
    requires AllCovered(live, binds, src) && b'.res == b.res && b'.coll in live && b'.coll !in PINNED
    ensures AllCovered(live, binds - {b} + {b'}, src) <==> Covered(binds - {b}, src, b'.coll)
  {
    var cut, after := binds - {b}, binds - {b} + {b'};
    CutCover(live, binds, {b}, b.res, src);
    if Covered(cut, src, b'.coll) {
      CoverMonotone(cut, after, src, src, b'.coll);
      var q :| q in src && Reach(after, q, b'.coll);
      ReachStep(after, q, b');
      forall x | x in live && x !in PINNED
        ensures Covered(after, src, x)
      {
        CoverMonotone(cut, after, src + {b.res}, src + {b.res}, x);
        CoverShift(after, src, b.res, x);
      }
    } else if AllCovered(live, after, src) {
      assert Covered(after, src, b'.coll);
      var q :| q in src && Reach(after, q, b'.coll);
      var p :| IsWalk(after, q, p, b'.coll);
      BeforeBind(cut, b', q, p);
      assert false;
    }
  }

  /** A walk that reaches the collection of a bind can stop before the bind. */
  lemma {:induction false} BeforeBind(binds: set<Bind>, b: Bind, q: int, p: seq<Bind>)
    requires IsWalk(binds + {b}, q, p, b.coll)
    ensures Reach(binds, q, b.coll)
    decreases |p|
  {
    ReachSelf(binds, q);
    if p != [] {
      var c: Bind := p[0];
      if c != b {
        BeforeBind(binds, b, c.res, p[1..]);
        OneBind(binds, c);
        ReachTrans(binds, q, c.res, b.coll);
      }
    }
  }

  /** A request for what the root reaches can be forgotten. */
  lemma ReachedKeeps(s: Store)
    requires WellFormed(s) && NothingLost(s) && s.queue != [] && Reach(s.binds, ROOT, s.queue[0])
    ensures NothingLost(s.(queue := s.queue[1..]))
  {
    var r, src := s.queue[0], {ROOT} + Queued(s.queue[1..]);
    assert s.queue == [r] + s.queue[1..];
    QueuedConcat([r], s.queue[1..]);
    forall x | x in s.live && x !in PINNED
      ensures Covered(s.binds, src, x)
    {
      assert Covered(s.binds, {ROOT} + Queued(s.queue), x) && {ROOT} + Queued(s.queue) == src + {r};
      CoverShift(s.binds, src, r, x);
    }
  }

  lemma QueueAfterDelete(queue: seq<int>, r: int, children: set<int>, ord: seq<int>)
    requires queue != [] && queue[0] == r != ROOT && IsListing(ord, children)
    ensures {ROOT} + Queued(Dropped(queue[1..], r) + ord) == {ROOT} + Queued(queue) - {r} + children
  {
    assert queue == [r] + queue[1..];
    QueuedConcat([r], queue[1..]);
    QueuedDropped(queue[1..], r);
    QueuedConcat(Dropped(queue[1..], r), ord);
  }

  lemma CollectKeeps(s: Store, s': Store)
    requires WellFormed(s) && NothingLost(s) && CollectStep(s, s')
    ensures NothingLost(s')
  {
    var r := s.queue[0];
    if Reach(s.binds, ROOT, r) {
      ReachedKeeps(s);
    } else {
      var ord :| IsListing(ord, Children(s.binds, r)) && s'.queue == Dropped(s.queue[1..], r) + ord;
      ReachSelf(s.binds, ROOT);
      DeleteCover(s.live, s.binds, r, {ROOT} + Queued(s.queue));
      QueueAfterDelete(s.queue, r, Children(s.binds, r), ord);
    }
  }

  lemma NextWellFormed(s: Store, a: Action, s': Store)
    requires WellFormed(s) && Next(s, a, s')
    ensures WellFormed(s')
  {
    match a
    case Unbind(coll, name, res) =>
    case BindTo(b) =>
    case Create(b) =>
    case Move(src, srcName, dst, dstName, over) => MoveWellFormed(s, a);
    case Collect =>
      ReachSelf(s.binds, ROOT);
      QueuedDropped(s.queue[1..], s.queue[0]);
      if !Reach(s.binds, ROOT, s.queue[0]) {
        var r, rest := s.queue[0], s.queue[1..];
        var ord :| IsListing(ord, Children(s.binds, r)) && s'.queue == Dropped(rest, r) + ord;
        QueuedConcat(Dropped(rest, r), ord);
        QueuedConcat([r], rest);
        assert s.queue == [r] + rest;
        assert forall q :: q in Queued(s.queue) ==> q in s.live - PINNED;
        assert forall q :: q in Queued(s'.queue) ==> q in s'.live - PINNED;
      }
  }

  lemma MoveWellFormed(s: Store, a: Action)
    requires WellFormed(s) && a.Move? && Usable(s, a.dst) && (a.over.Some? ==> Usable(s, a.over.value))
    ensures WellFormed(AfterMove(s, a.src, a.srcName, a.dst, a.dstName, a.over))
  {
  }

  /** What a MOVE does to the bind it moves and the one it overwrites. */
  lemma MoveIs(s: Store, src: int, srcName: string, dst: int, dstName: string, over: Option<int>)
    requires NamesUnique(s.binds)
    ensures var t := AfterMove(s, src, srcName, dst, dstName, over);
      && (forall b :: b in s.binds && b.coll == src && b.name == srcName && over == None ==>
           if forall c :: c in s.binds && c != b && c.coll == dst ==> c.name != dstName
           then t.binds == s.binds - {b} + {Bind(b.id, dst, dstName, b.res)} && t.queue == s.queue
           else t.binds == s.binds && t.queue == s.queue)
      && (forall b, d :: b in s.binds && d in s.binds ==>
           (b.coll == src && b.name == srcName && over.Some? && b != d && d == Bind(d.id, dst, dstName, over.value)) ==>
           t.binds == s.binds - {b} - {d} + {Bind(b.id, dst, dstName, b.res)} && t.queue == s.queue + [over.value])
  {
    forall b | b in s.binds && b.coll == src && b.name == srcName && over == None
      ensures Moving(s.binds, src, srcName) == {b} && Moved({b}, dst, dstName) == {Bind(b.id, dst, dstName, b.res)}
    {
    }
    forall b, d | b in s.binds && b.coll == src && b.name == srcName && over.Some? && b != d
        && d in s.binds && d == Bind(d.id, dst, dstName, over.value)
      ensures Cleared(s.binds, dst, dstName, over) == s.binds - {d}
      ensures Moving(s.binds - {d}, src, srcName) == {b}
      ensures Moved({b}, dst, dstName) == {Bind(b.id, dst, dstName, b.res)}
      ensures !Taken(s.binds - {d} - {b}, dst, dstName)
    {
      MatchingOne(s.binds, d);
    }
  }

  lemma NextKeeps(s: Store, a: Action, s': Store)
    requires WellFormed(s) && NothingLost(s) && Next(s, a, s') && MoveSafe(s, a)
    ensures WellFormed(s') && NothingLost(s')
  {
    NextWellFormed(s, a, s');
    match a
    case Unbind(coll, name, res) => UnbindKeeps(s, coll, name, res);
    case BindTo(b) => BindKeeps(s, b);
    case Create(b) => BindKeeps(s, b);
    case Move(_, _, _, _, _) => MoveKeepsIff(s, a);
    case Collect => CollectKeeps(s, s');
  }

  // ---------------------------------------------------------------- runs

  ghost predicate IsRun(run: seq<Store>, acts: seq<Action>) {
    |run| == |acts| + 1 &&
    forall i :: 0 <= i < |acts| ==> Next(run[i], acts[i], run[i + 1]) && MoveSafe(run[i], acts[i])
  }

  /** Over every interleaving of requests and collector turns nothing is lost. */
  lemma {:induction false} RunKeeps(run: seq<Store>, acts: seq<Action>, n: nat)
    requires IsRun(run, acts) && n <= |acts|
    requires WellFormed(run[0]) && NothingLost(run[0])
    ensures WellFormed(run[n]) && NothingLost(run[n])
  {
    if n > 0 {
      RunKeeps(run, acts, n - 1);
      NextKeeps(run[n - 1], acts[n - 1], run[n]);
    }
  }

  /** resources and binds as create_postgres_full.sql leaves them. */
  const SEED: Store := Store(
    {1, 2, 3, 4, 5, 6, 7, 8},
    {Bind(1, 2, "groups", 6), Bind(2, 2, "users", 7), Bind(3, 7, "limestone", 1), Bind(4, 2, "home", 8)},
    [])

  lemma SeedReach(b: set<Bind>, x: int)
    requires b == SEED.binds && x in {1, 2, 6, 7, 8}
    ensures Reach(b, 2, x)
  {
    ReachSelf(b, 2);
    if x == 6 {
      ReachStep(b, 2, Bind(1, 2, "groups", 6));
    } else if x == 8 {
      ReachStep(b, 2, Bind(4, 2, "home", 8));
    } else if x != 2 {
      ReachStep(b, 2, Bind(2, 2, "users", 7));
      if x == 1 {
        ReachStep(b, 2, Bind(3, 7, "limestone", 1));
      }
    }
  }

  lemma SeedWellFormed()
    ensures WellFormed(SEED)
  {
  }

  lemma SeedKeeps()
    ensures NothingLost(SEED)
  {
    var live, binds, src := SEED.live, SEED.binds, {ROOT} + Queued(SEED.queue);
    forall x | x in live && x !in PINNED
      ensures Covered(binds, src, x)
    {
      SeedReach(binds, x);
      assert 2 in src;
    }
  }

  /** In every state reached from the seed, an empty queue means that only what the root
      reaches, and the pinned principals, are left. */
  lemma EmptyQueueNoGarbage(run: seq<Store>, acts: seq<Action>, n: nat)
    requires IsRun(run, acts) && n <= |acts| && run[0] == SEED && run[n].queue == []
    ensures forall x :: x in run[n].live ==> x in PINNED || Reach(run[n].binds, ROOT, x)
  {
    SeedWellFormed();
    SeedKeeps();
    RunKeeps(run, acts, n);
    var s := run[n];
    forall x | x in s.live && x !in PINNED
      ensures Reach(s.binds, ROOT, x)
    {
      assert Covered(s.binds, {ROOT} + Queued(s.queue), x);
    }
  }

  /** Moving what bind a binds under something that a alone leads to. */
  lemma MoveUnderItself(s: Store, a: Bind, dst: int, name: string)
    requires WellFormed(s) && NothingLost(s) && s.queue == [] && a in s.binds && Usable(s, dst)
    requires !Taken(s.binds, dst, name) && !Reach(s.binds - {a}, ROOT, dst)
    ensures var m, t := Move(a.coll, a.name, dst, name, None), AfterMove(s, a.coll, a.name, dst, name, None);
      Next(s, m, t) && !MoveSafe(s, m) && !NothingLost(t)
  {
    assert Moving(s.binds, a.coll, a.name) == {a};
    assert !Covered(s.binds - {a}, {ROOT} + Queued(s.queue), dst);
    MoveKeepsIff(s, Move(a.coll, a.name, dst, name, None));
  }

  /** A new resource under a name that is free. */
  lemma CreatedKeeps(s: Store, b: Bind, t: Store)
    requires WellFormed(s) && NothingLost(s) && Usable(s, b.coll) && b.res !in s.live && b.res !in PINNED
    requires !Taken(s.binds, b.coll, b.name) && t == AfterBind(s, b)
    ensures Next(s, Create(b), t) && WellFormed(t) && NothingLost(t)
    ensures t.live == s.live + {b.res} && t.binds == s.binds + {b} && t.queue == s.queue
  {
    NextKeeps(s, Create(b), t);
  }

  lemma NewIsCutOff(s: Store, b: Bind, x: int)
    requires WellFormed(s) && b.coll == x && x !in s.live && b.res !in s.live
    ensures !Reach(s.binds + {b}, ROOT, b.res)
  {
    var binds := s.binds + {b};
    if Reach(binds, ROOT, b.res) {
      var p :| IsWalk(binds, ROOT, p, b.res);
      var d := Crossing(binds, ROOT, p, b.res, {x, b.res});
      assert false;
    }
  }

  /** A collection is created, another below it, and the first is moved into the second:
      whatever the tables were, nothing reaches either any more. */
  lemma MovedIntoItself(s: Store, a: Bind, b: Bind, name: string, s1: Store, s2: Store)
    requires WellFormed(s) && NothingLost(s) && s.queue == [] && Usable(s, a.coll) && !Taken(s.binds, a.coll, a.name)
    requires a.res !in s.live && a.res !in PINNED && b.res !in s.live && b.res !in PINNED
    requires a.res != b.res && b.coll == a.res
    requires s1 == AfterBind(s, a) && s2 == AfterBind(s1, b)
    ensures Next(s, Create(a), s1) && Next(s1, Create(b), s2) && NothingLost(s2)
    ensures var m, s3 := Move(a.coll, a.name, b.res, name, None), AfterMove(s2, a.coll, a.name, b.res, name, None);
      Next(s2, m, s3) && !MoveSafe(s2, m) && !NothingLost(s3)
  {
    CreatedKeeps(s, a, s1);
    CreatedKeeps(s1, b, s2);
    assert s2.binds - {a} == s.binds + {b};
    NewIsCutOff(s, b, a.res);
    MoveUnderItself(s2, a, b.res, name);
  }

  /** Nothing is in the home collection 8 yet, and 20 and 21 are free. */
  ghost predicate HomeIsEmpty(s: Store) {
    && s.queue == [] && 8 in s.live && 20 !in s.live && 21 !in s.live
    && forall d :: d in s.binds ==> d.coll != 8
  }

  lemma SeedHome()
    ensures HomeIsEmpty(SEED)
  {
  }

  /** This can happen from the seed, in its home collection. */
  lemma SeedMoveLoses(s: Store, a: Bind, b: Bind, s1: Store, s2: Store)
    requires WellFormed(s) && NothingLost(s) && HomeIsEmpty(s)
    requires a.coll == 8 && a.res == 20 && b.coll == 20 && b.res == 21
    requires s1 == AfterBind(s, a) && s2 == AfterBind(s1, b)
    ensures WellFormed(SEED) && NothingLost(SEED) && HomeIsEmpty(SEED)
    ensures Next(s, Create(a), s1) && Next(s1, Create(b), s2) && NothingLost(s2)
    ensures var m, s3 := Move(8, a.name, 21, "x", None), AfterMove(s2, 8, a.name, 21, "x", None);
      Next(s2, m, s3) && !MoveSafe(s2, m) && !NothingLost(s3)
  {
    MovedIntoItself(s, a, b, "x", s1, s2);
    SeedWellFormed();
    SeedKeeps();
    SeedHome();
  }

  // ---------------------------------------------------------------- the synchronous loop

  /** An entry of the list that sabridge_unbind_resource works through: the resource, the
      bind it was listed under, and whether an earlier entry of the same listing (or the
      listed collection itself) stands for the same resource. */
  datatype Item = Item(id: int, at: Option<(int, string)>, linked: bool)

  ghost function Pending(todo: seq<Item>): set<int> {
    set i | 0 <= i < |todo| && !todo[i].linked :: todo[i].id
  }

  lemma PendingConcat(a: seq<Item>, b: seq<Item>)
    ensures Pending(a + b) == Pending(a) + Pending(b)
  {
    var c := a + b;
    forall x | x in Pending(a) + Pending(b)
      ensures x in Pending(c)
    {
      if x in Pending(a) {
        var i :| 0 <= i < |a| && !a[i].linked && a[i].id == x;
        assert c[i] == a[i];
      } else {
        var i :| 0 <= i < |b| && !b[i].linked && b[i].id == x;
        assert c[|a| + i] == b[i];
      }
    }
  }

  /** The list that is still to be worked through, once its first entry is done: every
      entry was bound in a collection that is gone. */
  ghost predicate Listed(s: Store, todo: seq<Item>) {
    forall i :: 0 <= i < |todo| ==>
      todo[i].id !in PINNED && todo[i].at.Some? && todo[i].at.value.0 !in s.live
  }

  function Deleted(binds: set<Bind>, it: Item): set<Bind> {
    if it.at.Some? then binds - Matching(binds, it.at.value.0, it.at.value.1, it.id) else binds
  }

  ghost predicate Visited(s: Store, it: Item, s': Store, more: seq<Item>) {
    var b := Deleted(s.binds, it);
    if Reach(b, ROOT, it.id) then s'.live == s.live && s'.binds == b && more == []
    else
      && s'.live == s.live - {it.id} && s'.binds == Cascade(b, it.id)
      && Pending(more) == Children(s.binds, it.id) && (it.id !in s.live ==> more == [])
      && forall i :: 0 <= i < |more| ==> more[i].id !in PINNED && more[i].at.Some? && more[i].at.value.0 == it.id
  }

  lemma VisitKeeps(live0: set<int>, binds0: set<Bind>, s: Store, it: Item, s': Store, more: seq<Item>, rest: seq<Item>)
    requires WellFormed(s) && Visited(s, it, s', more) && it.id !in PINNED && !it.linked
    requires Trimmed(live0, binds0, s.live, Deleted(s.binds, it)) && Listed(s, rest)
    ensures Trimmed(live0, binds0, s'.live, s'.binds) && Listed(s', rest + more)
    ensures AllCovered(s.live, s.binds, {ROOT} + Pending([it] + rest)) ==>
      AllCovered(s'.live, s'.binds, {ROOT} + Pending(rest + more))
  {
    var b := Deleted(s.binds, it);
    PendingConcat([it], rest);
    PendingConcat(rest, more);
    assert Pending([it]) == {it.id} by {
      assert [it][0] == it;
    }
    var src := {ROOT} + Pending(rest);
    assert {ROOT} + Pending([it] + rest) == src + {it.id};
    if AllCovered(s.live, s.binds, src + {it.id}) {
      CutCover(s.live, s.binds, s.binds - b, it.id, src + {it.id});
      assert s.binds - (s.binds - b) == b && src + {it.id} + {it.id} == src + {it.id};
      if Reach(b, ROOT, it.id) {
        forall x | x in s.live && x !in PINNED
          ensures Covered(b, src, x)
        {
          CoverShift(b, src, it.id, x);
        }
      } else {
        DeleteCover(s.live, b, it.id, src + {it.id});
        ReachSelf(b, ROOT);
        assert Children(b, it.id) == Children(s.binds, it.id);
        Wider(s'.live, s'.binds, src + {it.id} - {it.id} + Children(b, it.id), {ROOT} + Pending(rest + more));
      }
    }
    if !Reach(b, ROOT, it.id) {
      TrimmedDelete(live0, binds0, s.live, b, it.id);
    }
  }

  lemma Wider(live: set<int>, binds: set<Bind>, s: set<int>, t: set<int>)
    requires AllCovered(live, binds, s) && s <= t
    ensures AllCovered(live, binds, t)
  {
  }

  lemma TrimmedStart(live: set<int>, binds: set<Bind>)
    requires ROOT in live && forall b :: b in binds ==> b.coll in live && b.res in live
    ensures Trimmed(live, binds, live, binds)
  {
  }

  /** Every entry stands for a bind of the listed collection. */
  ghost predicate ItemsOf(binds: set<Bind>, coll: int, items: seq<Item>) {
    forall i :: 0 <= i < |items| ==>
      items[i].at.Some? && items[i].at.value.0 == coll &&
      exists b :: b in binds && b.coll == coll && b.res == items[i].id
  }

  /** An entry of a listing as an item to visit. */
  function ItemOf(e: Listing.Entry): Item {
    Item(e.bind.res, Some((e.bind.coll, e.bind.name)), !e.link.Fresh?)
  }

  /** The unlinked entries of a depth-1 listing are the distinct children. */
  lemma ItemsOfListing(binds: set<Bind>, coll: int, entries: seq<Listing.Entry>, items: seq<Item>)
    requires forall b :: Listing.Holds(entries, b) <==> b in binds && b.coll == coll
    requires forall i :: 0 <= i < |entries| ==> Listing.LinkRight(coll, entries, i)
    requires |items| == |entries| && forall i :: 0 <= i < |entries| ==> items[i] == ItemOf(entries[i])
    ensures Pending(items) == Children(binds, coll) && ItemsOf(binds, coll, items)
    ensures (forall b :: b in binds ==> b.coll != coll) ==> items == []
  {
    forall i | 0 <= i < |entries|
      ensures entries[i].bind in binds && entries[i].bind.coll == coll
    {
      assert Listing.Holds(entries, entries[i].bind);
    }
    forall x | x in Pending(items)
      ensures x in Children(binds, coll)
    {
      var i :| 0 <= i < |items| && !items[i].linked && items[i].id == x;
      assert Listing.LinkRight(coll, entries, i);
      assert entries[i].bind in binds;
    }
    forall x | x in Children(binds, coll)
      ensures x in Pending(items)
    {
      var b :| b in binds && b.coll == coll && b.res != coll && b.res == x;
      assert Listing.Holds(entries, b);
      var i :| 0 <= i < |entries| && entries[i].bind == b;
      var j := Listing.FirstOf(coll, entries, i);
      assert !items[j].linked && items[j].id == x;
    }
    if items != [] {
      assert entries[0].bind in binds;
    }
  }

  // ---------------------------------------------------------------- the tables and their methods

  class BindTables {
    var live: set<int>
    var binds: set<Bind>
    var queue: seq<int>

    ghost function State(): Store
      reads this
    {
      Store(live, binds, queue)
    }

    constructor ()
      ensures State() == SEED && WellFormed(State()) && NothingLost(State())
    {
      live, binds, queue := SEED.live, SEED.binds, SEED.queue;
      SeedWellFormed();
      SeedKeeps();
    }

    /** dav_repos_unbind_resource in queue mode: the bind that is addressed goes and no other. */
    method UnbindQueued(coll: int, name: string, res: int)
      requires Usable(State(), res)
      modifies this
      ensures Next(old(State()), Unbind(coll, name, res), State())
      ensures live == old(live) && queue == old(queue) + [res]
      ensures old(NamesUnique(binds)) ==>
        forall d :: d in old(binds) && d == Bind(d.id, coll, name, res) ==> binds == old(binds) - {d}
      ensures (forall d :: d in old(binds) ==> d != Bind(d.id, coll, name, res)) ==> binds == old(binds)
    {
      forall d | d in binds && d == Bind(d.id, coll, name, res) && NamesUnique(binds)
        ensures Matching(binds, coll, name, res) == {d}
      {
        MatchingOne(binds, d);
      }
      if forall d :: d in binds ==> d != Bind(d.id, coll, name, res) {
        MatchingNone(binds, coll, name, res);
      }
      binds := binds - Matching(binds, coll, name, res);
      queue := queue + [res];
    }

    /** dav_repos_bind_resource */
    method BindResource(b: Bind)
      requires Usable(State(), b.coll) && Usable(State(), b.res)
      modifies this`binds
      ensures Next(old(State()), BindTo(b), State())
      ensures (exists d :: d in old(binds) && d.coll == b.coll && d.name == b.name) ==> binds == old(binds)
      ensures (forall d :: d in old(binds) && d.coll == b.coll ==> d.name != b.name) ==> binds == old(binds) + {b}
    {
      if !Taken(binds, b.coll, b.name) {
        binds := binds + {b};
        assert live == live + {b.res};
      }
    }

    /** dav_repos_rebind_resource in queue mode.  The bind moved keeps its id and resource; the
        one it overwrites goes; a name that is otherwise taken makes the UPDATE fail. */
    method RebindResource(src: int, srcName: string, dst: int, dstName: string, over: Option<int>)
      requires WellFormed(State()) && Usable(State(), dst) && (over.Some? ==> Usable(State(), over.value))
      modifies this
      ensures Next(old(State()), Move(src, srcName, dst, dstName, over), State())
      ensures old(NothingLost(State())) ==>
        (NothingLost(State()) <==> MoveSafe(old(State()), Move(src, srcName, dst, dstName, over)))
      ensures forall b :: b in old(binds) && b.coll == src && b.name == srcName && over == None ==>
        if forall c :: c in old(binds) && c != b && c.coll == dst ==> c.name != dstName
        then binds == old(binds) - {b} + {Bind(b.id, dst, dstName, b.res)} && queue == old(queue)
        else binds == old(binds) && queue == old(queue)
      ensures forall b, d :: b in old(binds) && d in old(binds) ==>
        (b.coll == src && b.name == srcName && over.Some? && b != d && d == Bind(d.id, dst, dstName, over.value)) ==>
        binds == old(binds) - {b} - {d} + {Bind(b.id, dst, dstName, b.res)} && queue == old(queue) + [over.value]
    {
      if NothingLost(State()) {
        MoveKeepsIff(State(), Move(src, srcName, dst, dstName, over));
      }
      MoveIs(State(), src, srcName, dst, dstName, over);
      var b1 := Cleared(binds, dst, dstName, over);
      var m := Moving(b1, src, srcName);
      if m != {} && Taken(b1 - m, dst, dstName) {
        return;
      }
      binds := b1 - m + Moved(m, dst, dstName);
      if over.Some? {
        queue := queue + [over.value];
      }
    }

    /** dbms_delete_resource, with the cascades. */
    method DeleteResource(r: int)
      modifies this
      ensures live == old(live) - {r} && binds == Cascade(old(binds), r) && queue == Dropped(old(queue), r)
    {
      live, binds, queue := live - {r}, Cascade(binds, r), Dropped(queue, r);
    }

    /** sabridge_delete_if_orphaned */
    method DeleteIfOrphaned(r: int) returns (deleted: bool)
      modifies this
      ensures deleted <==> !Reach(old(binds), ROOT, r)
      ensures deleted ==> live == old(live) - {r} && binds == Cascade(old(binds), r) && queue == Dropped(old(queue), r)
      ensures !deleted ==> State() == old(State())
    {
      var path, walk := FindShortestPathExclBinds(binds, ROOT, r, {});
      deleted := path.None?;
      if deleted {
        DeleteResource(r);
      }
    }

    /** One turn of gc_main with a request to look at. */
    method CollectOne()
      requires WellFormed(State()) && queue != []
      modifies this
      ensures Next(old(State()), Collect, State()) && WellFormed(State())
      ensures old(NothingLost(State())) ==> NothingLost(State())
      ensures var r := old(queue)[0];
        if Reach(old(binds), ROOT, r) then live == old(live) && binds == old(binds) && queue == old(queue)[1..]
        else
          && live == old(live) - {r}
          && (forall b :: b in binds <==> b in old(binds) && b.coll != r && b.res != r)
          && forall x :: x in queue <==> (x != r && (x in old(queue)[1..] || Binds(old(binds), r, x)))
    {
      ghost var s := State();
      var r := queue[0];
      queue := queue[1..];
      var todo := Children(binds, r);
      ghost var children := todo;
      var deleted := DeleteIfOrphaned(r);
      if deleted {
        var ord: seq<int> := [];
        while todo != {}
          invariant IsListing(ord, children - todo) && todo <= children
          decreases |todo|
        {
          var c :| c in todo;
          todo := todo - {c};
          assert c !in ord;
          ord := ord + [c];
        }
        assert children - todo == children;
        queue := queue + ord;
      }
      assert CollectStep(s, State());
      if deleted {
        CollectIs(s, State());
      }
      NextWellFormed(s, Collect, State());
      if NothingLost(s) {
        CollectKeeps(s, State());
      }
    }

    /** The collector with no other requests coming in. */
    method Drain()
      requires WellFormed(State())
      modifies this
      ensures queue == [] && WellFormed(State())
      ensures Trimmed(old(live), old(binds), live, binds)
      ensures old(NothingLost(State())) ==>
        live == PurgedLive(old(live), old(binds)) && binds == PurgedBinds(old(binds))
    {
      ghost var s := State();
      TrimmedStart(live, binds);
      while queue != []
        invariant WellFormed(State()) && Trimmed(s.live, s.binds, live, binds)
        invariant NothingLost(s) ==> NothingLost(State())
        decreases |live|, |queue|
      {
        ghost var t := State();
        ghost var r := queue[0];
        assert r in t.queue;
        CollectOne();
        assert CollectStep(t, State());
        if !Reach(t.binds, ROOT, r) {
          TrimmedDelete(s.live, s.binds, t.live, t.binds, r);
          assert live == t.live - {r} && r in t.live;
        }
      }
      if NothingLost(s) {
        assert {ROOT} + Queued(queue) == {ROOT};
        TrimmedEnd(s.live, s.binds, live, binds);
      }
    }

    /** The depth-1 listing of a collection, as a list of entries to visit. */
    method ListChildren(coll: int) returns (items: seq<Item>)
      ensures Pending(items) == Children(binds, coll)
      ensures (forall b :: b in binds ==> b.coll != coll) ==> items == []
      ensures ItemsOf(binds, coll, items)
    {
      var entries := Listing.ListOne(binds, set b | b in binds :: b.res, "", coll);
      items := seq(|entries|, i requires 0 <= i < |entries| => ItemOf(entries[i]));
      ItemsOfListing(binds, coll, entries, items);
    }

    method Visit(it: Item) returns (more: seq<Item>)
      requires WellFormed(State())
      modifies this
      ensures Visited(old(State()), it, State(), more) && WellFormed(State())
      ensures forall d :: d in old(binds) && it.at == Some((d.coll, d.name)) && d.res == it.id ==>
        if Reach(old(binds) - {d}, ROOT, it.id) then live == old(live) && binds == old(binds) - {d}
        else
          && live == old(live) - {it.id}
          && forall b :: b in binds <==> b in old(binds) && b != d && b.coll != it.id && b.res != it.id
    {
      ghost var s := State();
      forall d | d in binds && it.at == Some((d.coll, d.name)) && d.res == it.id
        ensures Deleted(binds, it) == binds - {d}
      {
        MatchingOne(binds, d);
      }
      var children := ListChildren(it.id);
      if it.at.Some? {
        binds := binds - Matching(binds, it.at.value.0, it.at.value.1, it.id);
      }
      var deleted := DeleteIfOrphaned(it.id);
      more := if deleted then children else [];
      ReachSelf(Deleted(s.binds, it), ROOT);
      QueuedDropped(s.queue, it.id);
      assert forall q :: q in Queued(queue) ==> q in live - PINNED;
    }

    /** One turn of the loop: a linked entry is passed over. */
    method NextItem(todo: seq<Item>, ghost live0: set<int>, ghost binds0: set<Bind>) returns (left: seq<Item>)
      requires todo != [] && WellFormed(State()) && Trimmed(live0, binds0, live, binds) && Listed(State(), todo)
      modifies this
      ensures WellFormed(State()) && Trimmed(live0, binds0, live, binds) && Listed(State(), left)
      ensures old(AllCovered(live, binds, {ROOT} + Pending(todo))) ==> AllCovered(live, binds, {ROOT} + Pending(left))
      ensures |live| < |old(live)| || (live == old(live) && |left| < |todo|)
    {
      ghost var t := State();
      var head, rest := todo[0], todo[1..];
      assert todo == [head] + rest;
      if head.linked {
        PendingConcat([head], rest);
        assert Pending([head]) == {};
        return rest;
      }
      assert Deleted(t.binds, head) == t.binds;
      var more := Visit(head);
      VisitKeeps(live0, binds0, t, head, State(), more, rest);
      left := rest + more;
    }

    /** The loop of sabridge_unbind_resource, from the first entry on. */
    method WorkThrough(it: Item)
      requires WellFormed(State()) && Usable(State(), it.id) && !it.linked
      modifies this
      ensures WellFormed(State())
      ensures var b := Deleted(old(binds), it);
        && Trimmed(old(live), b, live, binds)
        && (old(AllCovered(live, binds, {ROOT})) ==> live == PurgedLive(old(live), b) && binds == PurgedBinds(b))
    {
      ghost var s := State();
      ghost var b0 := Deleted(binds, it);
      TrimmedStart(live, b0);
      var todo := Visit(it);
      VisitKeeps(s.live, b0, s, it, State(), todo, []);
      if AllCovered(s.live, s.binds, {ROOT}) {
        Wider(s.live, s.binds, {ROOT}, {ROOT} + Pending([it] + []));
      }
      assert [] + todo == todo;
      while todo != []
        invariant WellFormed(State()) && Trimmed(s.live, b0, live, binds) && Listed(State(), todo)
        invariant AllCovered(s.live, s.binds, {ROOT}) ==> AllCovered(live, binds, {ROOT} + Pending(todo))
        decreases |live|, |todo|
      {
        todo := NextItem(todo, s.live, b0);
      }
      if AllCovered(s.live, s.binds, {ROOT}) {
        assert {ROOT} + Pending(todo) == {ROOT};
        TrimmedEnd(s.live, b0, live, binds);
      }
    }

    /** sabridge_unbind_resource without the collector.  `at` is the collection and the name the
        resource was addressed by; a MOVE passes none.  The bind addressed goes; what the root
        still reaches stays, and nothing else if nothing was lost before. */
    method UnbindNow(at: Option<(int, string)>, res: int)
      requires WellFormed(State()) && Usable(State(), res)
      modifies this
      ensures WellFormed(State())
      ensures Purges(old(live), Deleted(old(binds), Item(res, at, false)), old(AllCovered(live, binds, {ROOT})))
      ensures forall d :: d in old(binds) && at == Some((d.coll, d.name)) && d.res == res ==>
        d !in binds && Purges(old(live), old(binds) - {d}, old(AllCovered(live, binds, {ROOT})))
      ensures at == None ==> Purges(old(live), old(binds), old(AllCovered(live, binds, {ROOT})))
    {
      ghost var s := State();
      forall d | d in binds && at == Some((d.coll, d.name)) && d.res == res
        ensures Deleted(binds, Item(res, at, false)) == binds - {d}
      {
        MatchingOne(binds, d);
      }
      WorkThrough(Item(res, at, false));
      PurgesFrom(s.live, Deleted(s.binds, Item(res, at, false)), AllCovered(s.live, s.binds, {ROOT}));
    }

    /** What the root reaches through binds0 stays, of live0; and only that if all was covered. */
    ghost predicate Purges(live0: set<int>, binds0: set<Bind>, covered: bool)
      reads this
    {
      && live <= live0 && binds <= binds0
      && (forall x :: x in live0 && Reach(binds0, ROOT, x) ==> x in live)
      && (covered ==> OnlyReached(live0, binds0, live, binds))
    }

    lemma PurgesFrom(live0: set<int>, binds0: set<Bind>, covered: bool)
      requires Trimmed(live0, binds0, live, binds)
      requires covered ==> live == PurgedLive(live0, binds0) && binds == PurgedBinds(binds0)
      ensures Purges(live0, binds0, covered)
    {
    }
  }

  /** With nothing lost and nothing asked for, unbinding at once and unbinding through the
      queue followed by draining it leave the same resources and the same binds. */
  method BothWaysAgree(now: BindTables, later: BindTables, coll: int, name: string, res: int)
    requires now != later && now.State() == later.State() && now.queue == []
    requires WellFormed(now.State()) && NothingLost(now.State()) && Usable(now.State(), res)
    modifies now, later
    ensures now.live == later.live && now.binds == later.binds && later.queue == []
    ensures forall d :: d in old(now.binds) && d == Bind(d.id, coll, name, res) ==>
      OnlyReached(old(now.live), old(now.binds) - {d}, now.live, now.binds)
  {
    assert {ROOT} + Queued([]) == {ROOT};
    UnbindKeeps(later.State(), coll, name, res);
    NextWellFormed(later.State(), Unbind(coll, name, res), AfterUnbind(later.State(), coll, name, res));
    now.UnbindNow(Some((coll, name)), res);
    later.UnbindQueued(coll, name, res);
    later.Drain();
  }
}
