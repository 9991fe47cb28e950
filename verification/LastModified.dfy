/** Propagating a change upwards (dbms_notify_resource_updated in limestone/dbms.c): a
    recursive query that remembers, row by row, the resources it has visited. */
module LastModified {
  import opened Common
  import opened BindGraph

  const HOME_COLLECTION_ID: int := 8

  /** WHERE collection_id > HOME_COLLECTION_ID */
  function Climbable(binds: set<Bind>): set<Bind> {
    set b | b in binds && b.coll > HOME_COLLECTION_ID
  }

  ghost predicate Step(up: set<Bind>, r: int, c: int) {
    exists b :: b in up && b.res == r && b.coll == c
  }

  ghost predicate NoRepeats(p: seq<int>) {
    forall i, j :: 0 <= i < j < |p| ==> p[i] != p[j]
  }

  /** A way up from r that visits nothing twice. */
  ghost predicate SimpleWay(up: set<Bind>, r: int, p: seq<int>) {
    p != [] && p[0] == r && NoRepeats(p) && forall i :: 0 < i < |p| ==> Step(up, p[i - 1], p[i])
  }

  lemma {:induction false} WayReaches(up: set<Bind>, r: int, p: seq<int>, i: nat)
    requires SimpleWay(up, r, p) && i < |p|
    ensures Reach(up, p[i], r)
  {
    if i == 0 {
      ReachSelf(up, r);
    } else {
      WayReaches(up, r, p, i - 1);
      assert Step(up, p[i - 1], p[i]);
      var b :| b in up && b.res == p[i - 1] && b.coll == p[i];
      OneBind(up, b);
      ReachTrans(up, p[i], p[i - 1], r);
    }
  }

  /** Whatever reaches r does so along a way without repeats. */
  lemma {:induction false} SimpleWayExists(up: set<Bind>, x: int, w: seq<Bind>, r: int) returns (p: seq<int>)
    requires IsWalk(up, x, w, r)
    ensures SimpleWay(up, r, p) && p[|p| - 1] == x
    decreases |w|
  {
    if w == [] {
      p := [r];
    } else {
      var b: Bind := w[0];
      var q := SimpleWayExists(up, b.res, w[1..], r);
      if i :| 0 <= i < |q| && q[i] == x {
        p := q[..i + 1];
      } else {
        p := q + [x];
        assert Step(up, b.res, x);
        assert forall i :: 0 < i < |q| ==> Step(up, p[i - 1], p[i]);
      }
    }
  }

  // ---------------------------------------------------------------- the recursive query

  datatype Row = Row(resource: int, visited: seq<int>)

  /** The rows of `ancestors` after k rounds: every simple way of k + 1 resources. */
  ghost predicate IsRound(up: set<Bind>, r: int, rows: set<Row>, k: nat) {
    (forall w :: w in rows ==> SimpleWay(up, r, w.visited) && |w.visited| == k + 1 && w.visited[k] == w.resource) &&
    forall p :: SimpleWay(up, r, p) && |p| == k + 1 ==> Row(p[k], p) in rows
  }

  /** SELECT collection_id, visited || collection_id FROM binds INNER JOIN ancestors ...
      WHERE NOT collection_id = ANY(visited) */
  function NextRound(up: set<Bind>, rows: set<Row>): set<Row> {
    set w, b | w in rows && b in up && b.res == w.resource && b.coll !in w.visited :: Row(b.coll, w.visited + [b.coll])
  }

  lemma WayLonger(up: set<Bind>, r: int, p: seq<int>, c: int)
    requires SimpleWay(up, r, p) && Step(up, p[|p| - 1], c) && c !in p
    ensures SimpleWay(up, r, p + [c])
  {
  }

  lemma WayShorter(up: set<Bind>, r: int, p: seq<int>, n: nat)
    requires SimpleWay(up, r, p) && 0 < n <= |p|
    ensures SimpleWay(up, r, p[..n])
  {
  }

  lemma NextRoundIs(up: set<Bind>, r: int, rows: set<Row>, k: nat)
    requires IsRound(up, r, rows, k)
    ensures IsRound(up, r, NextRound(up, rows), k + 1)
  {
    forall w | w in NextRound(up, rows)
      ensures SimpleWay(up, r, w.visited) && |w.visited| == k + 2 && w.visited[k + 1] == w.resource
    {
      var v, b :| v in rows && b in up && b.res == v.resource && b.coll !in v.visited &&
        w == Row(b.coll, v.visited + [b.coll]);
      assert Step(up, v.resource, b.coll);
      WayLonger(up, r, v.visited, b.coll);
    }
    forall p | SimpleWay(up, r, p) && |p| == k + 2
      ensures Row(p[k + 1], p) in NextRound(up, rows)
    {
      var q, x := p[..k + 1], p[k + 1];
      WayShorter(up, r, p, k + 1);
      assert p == q + [x];
      assert Row(q[k], q) in rows;
      assert Step(up, p[k], p[k + 1]);
      var b :| b in up && b.res == p[k] && b.coll == x;
    }
  }

  ghost function Nodes(up: set<Bind>, r: int): set<int> {
    {r} + set b | b in up :: b.coll
  }

  lemma WayNodes(up: set<Bind>, r: int, p: seq<int>)
    requires SimpleWay(up, r, p)
    ensures |p| <= |Nodes(up, r)|
  {
    forall i | 0 <= i < |p|
      ensures p[i] in Nodes(up, r)
    {
      if i > 0 {
        assert Step(up, p[i - 1], p[i]);
      }
    }
    RepeatFree(p, Nodes(up, r));
  }

  lemma {:induction false} RepeatFree(p: seq<int>, s: set<int>)
    requires NoRepeats(p) && forall i :: 0 <= i < |p| ==> p[i] in s
    ensures |p| <= |s|
  {
    if p != [] {
      var n := |p| - 1;
      RepeatFree(p[..n], s - {p[n]});
    }
  }

  /** The ids the query selects. */
  method Ancestors(binds: set<Bind>, r: int) returns (ids: set<int>)
    ensures forall x :: x in ids <==> Reach(Climbable(binds), x, r)
  {
    var up := Climbable(binds);
    var rows := {Row(r, [r])};
    ids := {r};
    ghost var k: nat := 0;
    FirstRound(up, r, rows);
    while rows != {}
      invariant IsRound(up, r, rows, k)
      invariant forall x :: x in ids <==> EndsWithin(up, r, x, k + 1)
      decreases |Nodes(up, r)| + 1 - k
    {
      var row: Row :| row in rows;
      WayNodes(up, r, row.visited);
      var next := NextRound(up, rows);
      NextRoundIs(up, r, rows, k);
      IdsGrow(up, r, next, k + 1);
      ids := ids + set w | w in next :: w.resource;
      rows := next;
      k := k + 1;
    }
    forall x
      ensures x in ids <==> Reach(up, x, r)
    {
      AllFound(up, r, k, x);
    }
  }

  /** Some way of at most n resources ends in x. */
  ghost predicate EndsWithin(up: set<Bind>, r: int, x: int, n: nat) {
    exists p :: SimpleWay(up, r, p) && |p| <= n && p[|p| - 1] == x
  }

  lemma FirstRound(up: set<Bind>, r: int, rows: set<Row>)
    requires rows == {Row(r, [r])}
    ensures IsRound(up, r, rows, 0)
    ensures forall x :: x == r <==> EndsWithin(up, r, x, 1)
  {
    assert SimpleWay(up, r, [r]);
    forall p | SimpleWay(up, r, p) && |p| == 1
      ensures p == [r]
    {
    }
  }

  lemma IdsGrow(up: set<Bind>, r: int, next: set<Row>, k: nat)
    requires IsRound(up, r, next, k)
    ensures forall x :: EndsWithin(up, r, x, k + 1) <==> EndsWithin(up, r, x, k) || x in set w | w in next :: w.resource
  {
  }

  lemma AllFound(up: set<Bind>, r: int, k: nat, x: int)
    requires IsRound(up, r, {}, k)
    ensures EndsWithin(up, r, x, k + 1) <==> Reach(up, x, r)
  {
    if EndsWithin(up, r, x, k + 1) {
      var p :| SimpleWay(up, r, p) && |p| <= k + 1 && p[|p| - 1] == x;
      WayReaches(up, r, p, |p| - 1);
    }
    if Reach(up, x, r) {
      var w :| IsWalk(up, x, w, r);
      var p := SimpleWayExists(up, x, w, r);
      if |p| > k {
        WayShorter(up, r, p, k + 1);
        assert false;
      }
    }
  }

  class Resources {
    var lastmodified: map<int, int>

    constructor (lastmodified: map<int, int>)
      ensures this.lastmodified == lastmodified
    {
      this.lastmodified := lastmodified;
    }

    /** dbms_notify_resource_updated: the resource and everything it is below, going up
        through collections above the home collection only. */
    method NotifyResourceUpdated(binds: set<Bind>, r: int, time: int)
      modifies this
      ensures lastmodified.Keys == old(lastmodified).Keys
      ensures var up := set b | b in binds && b.coll > HOME_COLLECTION_ID;
        forall x :: x in lastmodified ==> lastmodified[x] == if Reach(up, x, r) then time else old(lastmodified)[x]
    {
      assert Climbable(binds) == set b | b in binds && b.coll > HOME_COLLECTION_ID;
      var ids := Ancestors(binds, r);
      lastmodified := map x | x in lastmodified :: if x in ids then time else lastmodified[x];
    }
  }
}
