/** The `binds` table as a graph: resources are nodes, a bind is a named edge from a
    collection to a resource.  Cycles and sharing are allowed. */
module BindGraph {

  datatype Bind = Bind(id: int, coll: int, name: string, res: int)

  ghost predicate IsWalk(binds: set<Bind>, c: int, p: seq<Bind>, r: int)
    decreases |p|
  {
    if p == [] then c == r
    else p[0] in binds && p[0].coll == c && IsWalk(binds, p[0].res, p[1..], r)
  }

  ghost predicate Reach(binds: set<Bind>, c: int, r: int) {
    exists p :: IsWalk(binds, c, p, r)
  }

  /** binds_collection_id_key: UNIQUE (collection_id, name) */
  ghost predicate NamesUnique(binds: set<Bind>) {
    forall a, b :: a in binds && b in binds && a.coll == b.coll && a.name == b.name ==> a == b
  }

  function Names(p: seq<Bind>): (ns: seq<string>)
    ensures |ns| == |p|
  {
    if p == [] then [] else [p[0].name] + Names(p[1..])
  }

  lemma {:induction false} WalkConcat(binds: set<Bind>, c: int, p: seq<Bind>, m: int, q: seq<Bind>, r: int)
    requires IsWalk(binds, c, p, m) && IsWalk(binds, m, q, r)
    ensures IsWalk(binds, c, p + q, r)
    decreases |p|
  {
    if p == [] {
      assert p + q == q;
    } else {
      WalkConcat(binds, p[0].res, p[1..], m, q, r);
      assert (p + q)[1..] == p[1..] + q;
    }
  }

  lemma {:induction false} WalkSplit(binds: set<Bind>, c: int, p: seq<Bind>, r: int, i: nat) returns (m: int)
    requires IsWalk(binds, c, p, r) && i <= |p|
    ensures IsWalk(binds, c, p[..i], m) && IsWalk(binds, m, p[i..], r)
    ensures m == if i == 0 then c else p[i - 1].res
    ensures i < |p| ==> m == p[i].coll
    decreases |p|
  {
    if i == 0 {
      m := c;
      assert p[..0] == [] && p[0..] == p;
    } else {
      m := WalkSplit(binds, p[0].res, p[1..], r, i - 1);
      assert p[..i][1..] == p[1..][..i - 1];
      assert p[1..][i - 1..] == p[i..];
    }
  }

  lemma {:induction false} WalkMonotone(small: set<Bind>, big: set<Bind>, c: int, p: seq<Bind>, r: int)
    requires IsWalk(small, c, p, r)
    requires forall i :: 0 <= i < |p| && p[i] in small ==> p[i] in big
    ensures IsWalk(big, c, p, r)
    decreases |p|
  {
    if p != [] {
      WalkMonotone(small, big, p[0].res, p[1..], r);
    }
  }

  lemma {:induction false} WalkBinds(binds: set<Bind>, c: int, p: seq<Bind>, r: int)
    requires IsWalk(binds, c, p, r)
    ensures forall i :: 0 <= i < |p| ==> p[i] in binds
    decreases |p|
  {
    if p != [] {
      WalkBinds(binds, p[0].res, p[1..], r);
      forall i | 0 <= i < |p|
        ensures p[i] in binds
      {
        if i > 0 {
          assert p[i] == p[1..][i - 1];
        }
      }
    }
  }

  lemma ReachSelf(binds: set<Bind>, c: int)
    ensures Reach(binds, c, c)
  {
    assert IsWalk(binds, c, [], c);
  }

  lemma ReachTrans(binds: set<Bind>, c: int, m: int, r: int)
    requires Reach(binds, c, m) && Reach(binds, m, r)
    ensures Reach(binds, c, r)
  {
    var p :| IsWalk(binds, c, p, m);
    var q :| IsWalk(binds, m, q, r);
    WalkConcat(binds, c, p, m, q, r);
  }

  lemma OneBind(binds: set<Bind>, b: Bind)
    requires b in binds
    ensures IsWalk(binds, b.coll, [b], b.res) && Reach(binds, b.coll, b.res)
  {
    assert IsWalk(binds, b.coll, [b], b.res);
  }

  lemma ReachStep(binds: set<Bind>, c: int, b: Bind)
    requires b in binds && Reach(binds, c, b.coll)
    ensures Reach(binds, c, b.res)
  {
    OneBind(binds, b);
    ReachTrans(binds, c, b.coll, b.res);
  }

  lemma ReachMonotone(small: set<Bind>, big: set<Bind>, c: int, r: int)
    requires Reach(small, c, r) && small <= big
    ensures Reach(big, c, r)
  {
    var p :| IsWalk(small, c, p, r);
    WalkMonotone(small, big, c, p, r);
  }

  /** A walk that leaves a set leaves it along some bind. */
  lemma {:induction false} Crossing(binds: set<Bind>, c: int, p: seq<Bind>, r: int, inside: set<int>) returns (b: Bind)
    requires IsWalk(binds, c, p, r) && c !in inside && r in inside
    ensures b in binds && b.coll !in inside && b.res in inside && Reach(binds, c, b.coll)
    decreases |p|
  {
    ReachSelf(binds, c);
    if p[0].res in inside {
      b := p[0];
    } else {
      b := Crossing(binds, p[0].res, p[1..], r, inside);
      OneBind(binds, p[0]);
      ReachTrans(binds, c, p[0].res, b.coll);
    }
  }

  lemma {:induction false} NamesAt(p: seq<Bind>, i: nat)
    requires i < |p|
    ensures Names(p)[i] == p[i].name
  {
    if i > 0 {
      NamesAt(p[1..], i - 1);
    }
  }

  lemma {:induction false} NamesConcat(p: seq<Bind>, q: seq<Bind>)
    ensures Names(p + q) == Names(p) + Names(q)
  {
    if p == [] {
      assert p + q == q;
    } else {
      assert (p + q)[1..] == p[1..] + q;
      NamesConcat(p[1..], q);
    }
  }

  /** Names lead one way. */
  lemma {:induction false} OneWalk(binds: set<Bind>, c: int, p: seq<Bind>, q: seq<Bind>, r: int, s: int)
    requires NamesUnique(binds) && IsWalk(binds, c, p, r) && IsWalk(binds, c, q, s) && Names(p) == Names(q)
    ensures p == q && r == s
    decreases |p|
  {
    if p != [] {
      var a: Bind, b: Bind := p[0], q[0];
      assert a.name == Names(p)[0] == Names(q)[0] == b.name;
      assert a in binds && b in binds;
      assert Names(p)[1..] == Names(p[1..]) && Names(q)[1..] == Names(q[1..]);
      OneWalk(binds, a.res, p[1..], q[1..], r, s);
      assert p == [a] + p[1..] && q == [b] + q[1..];
    }
  }
}
