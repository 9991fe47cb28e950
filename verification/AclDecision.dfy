/** Evaluating access control entries (dbms_is_allow, dbms_get_acl and
    dbms_get_privileges in limestone/dbms_acl.c; section 6 of RFC 3744): three queries
    over the same tables that have to agree. */
module AclDecision {
  import opened Common
  import AclPaths
  import NestedSet

  const SUPER_USER_ID: nat := 1

  /** An ACE with its rows of dav_aces_privileges. */
  datatype Ace = Ace(id: int, resource: nat, principal: nat, grant: bool, isProtected: bool, privs: set<nat>)

  /** The tables the queries read: aces, the rows of acl_privileges, acl_inheritance, and
      for every principal the groups it is in, directly or not. */
  datatype Tables = Tables(aces: set<Ace>, privs: NestedSet.Table, paths: AclPaths.Paths, groups: map<nat, set<nat>>)

  ghost predicate WellFormed(t: Tables) {
    && (forall a, b :: a in t.aces && b in t.aces && a.id == b.id ==> a == b)
    && (forall r :: r in t.paths ==> t.paths[r] != [])
  }

  // ---------------------------------------------------------------- the queries' parts

  /** inherited_res: the resource and those it inherits from. */
  predicate Inherits(t: Tables, r: nat, from: nat) {
    r in t.paths && from in t.paths && from in t.paths[r]
  }

  function PathLength(t: Tables, r: nat): nat {
    if r in t.paths && t.paths[r] != [] then |AclPaths.Text(t.paths[r])| else 0
  }

  /** ORDER BY protected DESC, CHAR_LENGTH(par_res_path) DESC, id */
  predicate Before(t: Tables, a: Ace, b: Ace) {
    if a.isProtected != b.isProtected then a.isProtected
    else
      var m, n := PathLength(t, a.resource), PathLength(t, b.resource);
      if m != n then m > n else a.id < b.id
  }

  /** membership: the principal and its groups. */
  function Members(t: Tables, p: nat): set<nat> {
    {p} + if p in t.groups then t.groups[p] else {}
  }

  /** One of these privileges is v or an aggregate that contains v. */
  predicate Covers(t: Tables, privs: set<nat>, v: nat) {
    v in t.privs && exists q :: q in privs && q in t.privs && NestedSet.Contains(t.privs[q], t.privs[v])
  }

  function Relevant(t: Tables, p: nat, v: nat, r: nat): set<Ace> {
    set a | a in t.aces && Inherits(t, r, a.resource) && a.principal in Members(t, p) && Covers(t, a.privs, v)
  }

  predicate IsFirst(t: Tables, s: set<Ace>, a: Ace) {
    a in s && forall b :: b in s && b != a ==> Before(t, a, b)
  }

  /** The first of the relevant ACEs, if there is one, grants. */
  predicate Granted(t: Tables, p: nat, v: nat, r: nat) {
    exists a :: a in Relevant(t, p, v, r) && IsFirst(t, Relevant(t, p, v, r), a) && a.grant
  }

  lemma {:induction false} FirstExists(t: Tables, s: set<Ace>) returns (a: Ace)
    requires s != {} && forall a, b :: a in s && b in s && a.id == b.id ==> a == b
    ensures IsFirst(t, s, a)
  {
    var x: Ace :| x in s;
    if s == {x} {
      a := x;
    } else {
      assert s - {x} != {};
      var y := FirstExists(t, s - {x});
      assert y.id != x.id;
      a := if Before(t, y, x) then y else x;
      forall b | b in s && b != a
        ensures Before(t, a, b)
      {
        if b != x && b != y {
          assert Before(t, y, b);
        }
      }
    }
  }

  // ---------------------------------------------------------------- inherited ACEs, nearest first

  lemma DigitsOnly(p: AclPaths.Path, i: nat, j: nat)
    requires p != [] && i < j <= |p| && i > 0
    ensures |AclPaths.Text(p[..i])| < |AclPaths.Text(p[..j])|
  {
    AclPaths.TextConcat(p[..i], p[i..j]);
    assert p[..j] == p[..i] + p[i..j];
    AclPaths.TailStart(p[i..j]);
  }

  /** Of two ACEs equally protected, the one set nearer to the resource comes first. */
  lemma NearestFirst(t: Tables, parent: map<nat, nat>, root: nat, r: nat, a: Ace, b: Ace, i: nat, j: nat)
    requires AclPaths.TreePaths(t.paths, parent, root) && r in t.paths && i < j < |t.paths[r]|
    requires a.isProtected == b.isProtected && a.resource == t.paths[r][j] && b.resource == t.paths[r][i]
    ensures Before(t, a, b)
  {
    AclPaths.PathOfAncestor(t.paths, parent, root, r, i);
    AclPaths.PathOfAncestor(t.paths, parent, root, r, j);
    DigitsOnly(t.paths[r], i + 1, j + 1);
  }

  // ---------------------------------------------------------------- what a decision means

  /** What the tables picture: a tree of privileges, numbered from n on, and a tree of resources. */
  datatype Picture = Picture(privileges: NestedSet.Forest, n: int, parent: map<nat, nat>, root: nat)

  ghost predicate Pictures(w: Picture, t: Tables) {
    && NestedSet.Distinct(w.privileges) && t.privs == NestedSet.Number(w.privileges, w.n)
    && AclPaths.TreePaths(t.paths, w.parent, w.root)
  }

  predicate InGroupOf(t: Tables, p: nat, g: nat) {
    p in t.groups && g in t.groups[p]
  }

  /** The ACE names p or a group of p, and the privilege v or an aggregate with v below it. */
  ghost predicate Concerns(w: Picture, t: Tables, a: Ace, p: nat, v: nat) {
    (a.principal == p || InGroupOf(t, p, a.principal)) &&
    exists q :: q in a.privs && NestedSet.Above(w.privileges, q, v)
  }

  /** Of ACEs at places i and j on the way down to a resource, a goes before b: protected ones
      go first, then the lower on the way, then the older. */
  predicate Prevails(a: Ace, i: int, b: Ace, j: int) {
    if a.isProtected != b.isProtected then a.isProtected else i > j || (i == j && a.id < b.id)
  }

  predicate SetAt(t: Tables, a: Ace, r: nat, i: int) {
    a in t.aces && r in t.paths && 0 <= i < |t.paths[r]| && a.resource == t.paths[r][i]
  }

  /** The ACE, set on r or above, that concerns p and v and goes before all others that do. */
  ghost predicate Decisive(w: Picture, t: Tables, a: Ace, i: int, p: nat, v: nat, r: nat) {
    SetAt(t, a, r, i) && Concerns(w, t, a, p, v) &&
    forall b, j :: SetAt(t, b, r, j) && Concerns(w, t, b, p, v) && b != a ==> Prevails(a, i, b, j)
  }

  ghost predicate Allowed(w: Picture, t: Tables, p: nat, v: nat, r: nat) {
    exists a, i :: Decisive(w, t, a, i, p, v, r) && a.grant
  }

  lemma CoversIff(w: Picture, t: Tables, privs: set<nat>, v: nat)
    requires Pictures(w, t)
    ensures Covers(t, privs, v) <==> exists q :: q in privs && NestedSet.Above(w.privileges, q, v)
  {
    var f := w.privileges;
    forall q
      ensures NestedSet.Above(f, q, v) <==> q in t.privs && v in t.privs && NestedSet.Contains(t.privs[q], t.privs[v])
    {
      if NestedSet.Above(f, q, v) {
        NestedSet.AboveIds(f, q, v);
      }
      if q in t.privs && v in t.privs {
        NestedSet.ContainsIffAbove(f, w.n, q, v);
      }
    }
  }

  lemma LongerBelow(t: Tables, parent: map<nat, nat>, root: nat, r: nat, i: nat, j: nat)
    requires AclPaths.TreePaths(t.paths, parent, root) && r in t.paths && i < j < |t.paths[r]|
    ensures PathLength(t, t.paths[r][i]) < PathLength(t, t.paths[r][j])
  {
    AclPaths.PathOfAncestor(t.paths, parent, root, r, i);
    AclPaths.PathOfAncestor(t.paths, parent, root, r, j);
    DigitsOnly(t.paths[r], i + 1, j + 1);
  }

  /** The order of the query is that of places on the way down. */
  lemma BeforeIff(w: Picture, t: Tables, a: Ace, i: int, b: Ace, j: int, r: nat)
    requires Pictures(w, t) && SetAt(t, a, r, i) && SetAt(t, b, r, j)
    ensures Before(t, a, b) <==> Prevails(a, i, b, j)
  {
    if i < j {
      LongerBelow(t, w.parent, w.root, r, i, j);
    } else if j < i {
      LongerBelow(t, w.parent, w.root, r, j, i);
    }
  }

  lemma RelevantIff(w: Picture, t: Tables, p: nat, v: nat, r: nat, a: Ace)
    requires Pictures(w, t)
    ensures a in Relevant(t, p, v, r) <==> Concerns(w, t, a, p, v) && exists i :: SetAt(t, a, r, i)
  {
    CoversIff(w, t, a.privs, v);
    if a in t.aces && Inherits(t, r, a.resource) {
      var i :| 0 <= i < |t.paths[r]| && t.paths[r][i] == a.resource;
      assert SetAt(t, a, r, i);
    }
    if i :| SetAt(t, a, r, i) {
      assert a.resource in t.paths[r] && a.resource in t.paths;
    }
  }

  lemma FirstIffDecisive(w: Picture, t: Tables, p: nat, v: nat, r: nat, a: Ace)
    requires Pictures(w, t)
    ensures IsFirst(t, Relevant(t, p, v, r), a) <==> exists i :: Decisive(w, t, a, i, p, v, r)
  {
    var s := Relevant(t, p, v, r);
    forall b: Ace
      ensures b in s <==> Concerns(w, t, b, p, v) && exists i :: SetAt(t, b, r, i)
    {
      RelevantIff(w, t, p, v, r, b);
    }
    forall i, b, j | SetAt(t, a, r, i) && SetAt(t, b, r, j)
      ensures Before(t, a, b) <==> Prevails(a, i, b, j)
    {
      BeforeIff(w, t, a, i, b, j, r);
    }
    if IsFirst(t, s, a) {
      var i :| SetAt(t, a, r, i);
      assert Decisive(w, t, a, i, p, v, r);
    }
    if i :| Decisive(w, t, a, i, p, v, r) {
      forall b | b in s && b != a
        ensures Before(t, a, b)
      {
        var j :| SetAt(t, b, r, j);
      }
    }
  }

  /** The queries decide as the two trees say. */
  lemma GrantedIffAllowed(w: Picture, t: Tables, p: nat, v: nat, r: nat)
    requires Pictures(w, t)
    ensures Granted(t, p, v, r) <==> Allowed(w, t, p, v, r)
  {
    var s := Relevant(t, p, v, r);
    if a :| a in s && IsFirst(t, s, a) && a.grant {
      FirstIffDecisive(w, t, p, v, r, a);
      var i :| Decisive(w, t, a, i, p, v, r);
    }
    if a, i :| Decisive(w, t, a, i, p, v, r) && a.grant {
      FirstIffDecisive(w, t, p, v, r, a);
    }
  }

  /** A single ACE, on the resource, for p or a group of p. */
  lemma OneAce(w: Picture, t: Tables, a: Ace, p: nat, v: nat, r: nat)
    requires Pictures(w, t) && t.aces == {a} && a.resource == r && r in t.paths
    requires a.principal == p || InGroupOf(t, p, a.principal)
    ensures Allowed(w, t, p, v, r) <==> a.grant && exists q :: q in a.privs && NestedSet.Above(w.privileges, q, v)
  {
    var i := |t.paths[r]| - 1;
    assert SetAt(t, a, r, i);
    if Concerns(w, t, a, p, v) {
      assert Decisive(w, t, a, i, p, v, r);
    }
  }

  lemma AllowedIsPrivilege(w: Picture, t: Tables, p: nat, v: nat, r: nat)
    requires Pictures(w, t) && Allowed(w, t, p, v, r)
    ensures v in t.privs
  {
    var a, i :| Decisive(w, t, a, i, p, v, r) && a.grant;
    var q :| q in a.privs && NestedSet.Above(w.privileges, q, v);
    NestedSet.AboveIds(w.privileges, q, v);
  }

  /** The only ACE grants q on r, to p or a group of p. */
  predicate GrantsOnly(t: Tables, a: Ace, q: nat, p: nat, r: nat) {
    && t.aces == {a} && a.grant && a.privs == {q} && a.resource == r && r in t.paths
    && (a.principal == p || InGroupOf(t, p, a.principal))
  }

  /** What one granted privilege allows: itself and what is below it. */
  lemma OneGrant(w: Picture, t: Tables, a: Ace, q: nat, p: nat, r: nat, vs: set<nat>)
    requires Pictures(w, t) && GrantsOnly(t, a, q, p, r)
    requires forall v :: v in vs <==> Allowed(w, t, p, v, r)
    ensures vs == set v | v in NestedSet.Ids(w.privileges) && NestedSet.Above(w.privileges, q, v)
  {
    forall v
      ensures v in vs <==> NestedSet.Above(w.privileges, q, v)
      ensures NestedSet.Above(w.privileges, q, v) ==> v in NestedSet.Ids(w.privileges)
    {
      OneAce(w, t, a, p, v, r);
      if NestedSet.Above(w.privileges, q, v) {
        NestedSet.AboveIds(w.privileges, q, v);
      }
    }
  }

  /** A protected ACE farther up against an unprotected one on the resource. */
  lemma ProtectedDecides(w: Picture, t: Tables, a: Ace, b: Ace, i: int, p: nat, v: nat, r: nat)
    requires Pictures(w, t) && t.aces == {a, b} && SetAt(t, a, r, i) && b.resource == r
    requires a.isProtected && !b.isProtected && Concerns(w, t, a, p, v)
    ensures Allowed(w, t, p, v, r) <==> a.grant
  {
    forall j | SetAt(t, a, r, j)
      ensures i == j
    {
      AclPaths.NoRepeat(w.parent, w.root, r, t.paths[r], i, j);
    }
    assert Decisive(w, t, a, i, p, v, r);
  }

  // ---------------------------------------------------------------- the listed ACL

  /** An element of the ACL that dbms_get_acl builds. */
  datatype Listed = Listed(principal: nat, grant: bool, isProtected: bool, from: nat, privs: set<nat>)

  function Listing(a: Ace): Listed {
    Listed(a.principal, a.grant, a.isProtected, a.resource, a.privs)
  }

  /** First-match evaluation down a list of ACEs. */
  predicate FirstMatch(t: Tables, acl: seq<Listed>, p: nat, v: nat) {
    acl != [] &&
    if acl[0].principal in Members(t, p) && Covers(t, acl[0].privs, v) then acl[0].grant
    else FirstMatch(t, acl[1..], p, v)
  }

  ghost predicate Ascends(t: Tables, order: seq<Ace>) {
    forall i, j :: 0 <= i < j < |order| ==> Before(t, order[i], order[j])
  }

  /** The ACEs of r and of what it inherits from, in the order of the query; those without
      a privilege have no row. */
  ghost predicate IsOrdered(t: Tables, r: nat, order: seq<Ace>) {
    (forall a :: a in order <==> a in t.aces && Inherits(t, r, a.resource) && a.privs != {}) && Ascends(t, order)
  }

  ghost predicate IsListingOf(acl: seq<Listed>, order: seq<Ace>) {
    |acl| == |order| && forall i :: 0 <= i < |acl| ==> acl[i] == Listing(order[i])
  }

  predicate Matches(t: Tables, a: Ace, p: nat, v: nat) {
    a.principal in Members(t, p) && Covers(t, a.privs, v)
  }

  /** The first ACE of the list that matches. */
  predicate Decides(t: Tables, order: seq<Ace>, p: nat, v: nat, i: int) {
    0 <= i < |order| && Matches(t, order[i], p, v) && forall k :: 0 <= k < i ==> !Matches(t, order[k], p, v)
  }

  lemma {:induction false} FirstMatchIs(t: Tables, acl: seq<Listed>, order: seq<Ace>, p: nat, v: nat)
    requires IsListingOf(acl, order)
    ensures FirstMatch(t, acl, p, v) <==> exists i :: Decides(t, order, p, v, i) && order[i].grant
  {
    if acl != [] {
      if Matches(t, order[0], p, v) {
        assert Decides(t, order, p, v, 0);
      } else {
        FirstMatchIs(t, acl[1..], order[1..], p, v);
        if FirstMatch(t, acl, p, v) {
          var i :| Decides(t, order[1..], p, v, i) && order[1..][i].grant;
          DecidesLater(t, order, p, v, i + 1);
        }
        if i :| Decides(t, order, p, v, i) && order[i].grant {
          DecidesLater(t, order, p, v, i);
        }
      }
    }
  }

  lemma DecidesLater(t: Tables, order: seq<Ace>, p: nat, v: nat, i: int)
    requires order != [] && !Matches(t, order[0], p, v) && i > 0
    ensures Decides(t, order, p, v, i) <==> Decides(t, order[1..], p, v, i - 1)
    ensures i < |order| ==> order[i] == order[1..][i - 1]
  {
  }

  /** Walking down the listed ACL and asking for the first relevant ACE decide alike. */
  lemma ListingDecides(t: Tables, r: nat, acl: seq<Listed>, order: seq<Ace>, p: nat, v: nat)
    requires WellFormed(t) && IsOrdered(t, r, order) && IsListingOf(acl, order)
    ensures FirstMatch(t, acl, p, v) <==> Granted(t, p, v, r)
  {
    FirstMatchIs(t, acl, order, p, v);
    var s := Relevant(t, p, v, r);
    forall i | 0 <= i < |order|
      ensures Matches(t, order[i], p, v) <==> order[i] in s
    {
      assert order[i] in order;
    }
    if i :| Decides(t, order, p, v, i) && order[i].grant {
      FirstInOrder(t, order, s, i);
    }
    if a :| a in s && IsFirst(t, s, a) && a.grant {
      assert a in order;
      var i :| 0 <= i < |order| && order[i] == a;
      FirstInOrder(t, order, s, i);
      assert Decides(t, order, p, v, i);
    }
  }

  /** Along a list in the order of the query, the first of a set is the one with no other
      before it. */
  lemma FirstInOrder(t: Tables, order: seq<Ace>, s: set<Ace>, i: nat)
    requires i < |order| && order[i] in s && Ascends(t, order) && forall a :: a in s ==> a in order
    ensures IsFirst(t, s, order[i]) <==> forall k :: 0 <= k < i ==> order[k] !in s
  {
  }

  // ---------------------------------------------------------------- the C code

  /** The rows of the dbms_get_acl query: one per ACE and privilege, in the query's order. */
  ghost predicate IsResult(t: Tables, r: nat, rows: seq<(Ace, nat)>) {
    (forall a, q :: (a, q) in rows <==> a in t.aces && Inherits(t, r, a.resource) && q in a.privs) &&
    forall i, j :: 0 <= i < j < |rows| ==> rows[i].0 == rows[j].0 || Before(t, rows[i].0, rows[j].0)
  }

  /** What the grouping loop has done with the first n rows: `order` are the ACEs it has
      added and, last, the one still pending with the privileges of its rows so far. */
  ghost predicate Grouped(rows: seq<(Ace, nat)>, n: nat, order: seq<Ace>, acl: seq<Listed>, pending: set<nat>)
    requires n <= |rows|
  {
    && (n == 0 <==> order == []) && (n == 0 ==> acl == [])
    && (n > 0 ==> |acl| == |order| - 1 && order[|acl|] == rows[n - 1].0)
    && (forall i :: 0 <= i < |order| ==> exists k :: 0 <= k < n && rows[k].0 == order[i])
    && (forall k :: 0 <= k < n ==> rows[k].0 in order)
    && (forall i :: 0 <= i < |acl| ==> acl[i] == Listing(order[i]))
    && (n > 0 ==> forall q :: q in pending <==> (rows[n - 1].0, q) in rows[..n])
  }

  lemma SameAce(t: Tables, rows: seq<(Ace, nat)>, n: nat, order: seq<Ace>, acl: seq<Listed>, pending: set<nat>)
    requires n < |rows| && n > 0 && Grouped(rows, n, order, acl, pending) && rows[n].0 == rows[n - 1].0
    ensures Grouped(rows, n + 1, order, acl, pending + {rows[n].1})
  {
  }

  lemma PendingComplete(t: Tables, r: nat, rows: seq<(Ace, nat)>, n: nat, order: seq<Ace>, acl: seq<Listed>,
      pending: set<nat>)
    requires WellFormed(t) && IsResult(t, r, rows) && 0 < n <= |rows| && (n < |rows| ==> rows[n].0 != rows[n - 1].0)
    requires Grouped(rows, n, order, acl, pending)
    ensures pending == rows[n - 1].0.privs
  {
  }

  lemma FirstRowOf(t: Tables, r: nat, rows: seq<(Ace, nat)>, n: nat, q: nat)
    requires WellFormed(t) && IsResult(t, r, rows) && 0 < n < |rows| && rows[n].0 != rows[n - 1].0
    ensures (rows[n].0, q) in rows[..n + 1] <==> q == rows[n].1
  {
  }

  lemma NextAce(t: Tables, r: nat, rows: seq<(Ace, nat)>, n: nat, order: seq<Ace>, acl: seq<Listed>, pending: set<nat>)
    requires WellFormed(t) && IsResult(t, r, rows) && n < |rows| && n > 0
    requires Grouped(rows, n, order, acl, pending) && rows[n].0 != rows[n - 1].0
    ensures Grouped(rows, n + 1, order + [rows[n].0], acl + [Listing(order[|acl|])], {rows[n].1})
  {
    forall q: nat
      ensures (rows[n].0, q) in rows[..n + 1] <==> q == rows[n].1
    {
      FirstRowOf(t, r, rows, n, q);
    }
    OneMoreAce(rows, n, order, acl, pending);
  }

  lemma OneMoreAce(rows: seq<(Ace, nat)>, n: nat, order: seq<Ace>, acl: seq<Listed>, pending: set<nat>)
    requires 0 < n < |rows| && Grouped(rows, n, order, acl, pending)
    requires forall q: nat :: (rows[n].0, q) in rows[..n + 1] <==> q == rows[n].1
    ensures Grouped(rows, n + 1, order + [rows[n].0], acl + [Listing(order[|acl|])], {rows[n].1})
  {
  }

  lemma OrderGrows(t: Tables, r: nat, rows: seq<(Ace, nat)>, n: nat, order: seq<Ace>, acl: seq<Listed>,
      pending: set<nat>)
    requires WellFormed(t) && IsResult(t, r, rows) && n < |rows| && n > 0
    requires Grouped(rows, n, order, acl, pending) && rows[n].0 != rows[n - 1].0
    requires Ascends(t, order)
    ensures Ascends(t, order + [rows[n].0])
  {
  }

  /** Every ACE with a privilege has a row, so the loop lists them all. */
  lemma AllListed(t: Tables, r: nat, rows: seq<(Ace, nat)>, order: seq<Ace>, acl: seq<Listed>, pending: set<nat>)
    requires IsResult(t, r, rows) && Grouped(rows, |rows|, order, acl, pending)
    ensures forall a :: a in order <==> a in t.aces && Inherits(t, r, a.resource) && a.privs != {}
  {
  }

  lemma FirstAce(rows: seq<(Ace, nat)>)
    requires rows != []
    ensures Grouped(rows, 1, [rows[0].0], [], {rows[0].1})
  {
  }

  /** dbms_get_acl: the loop that groups the rows of an ACE. */
  method GroupRows(rows: seq<(Ace, nat)>, ghost t: Tables, ghost r: nat)
    returns (acl: seq<Listed>, pending: set<nat>, ghost order: seq<Ace>)
    requires WellFormed(t) && IsResult(t, r, rows)
    ensures Grouped(rows, |rows|, order, acl, pending) && Ascends(t, order)
  {
    acl, order, pending := [], [], {};
    var n := 0;
    while n < |rows|
      invariant 0 <= n <= |rows| && Grouped(rows, n, order, acl, pending) && Ascends(t, order)
      decreases |rows| - n
    {
      acl, pending, order := TakeRow(rows, n, acl, pending, t, r, order);
      n := n + 1;
    }
  }

  method TakeRow(rows: seq<(Ace, nat)>, n: nat, acl: seq<Listed>, pending: set<nat>, ghost t: Tables,
      ghost r: nat, ghost order: seq<Ace>)
    returns (acl': seq<Listed>, pending': set<nat>, ghost order': seq<Ace>)
    requires WellFormed(t) && IsResult(t, r, rows) && n < |rows|
    requires Grouped(rows, n, order, acl, pending) && Ascends(t, order)
    ensures Grouped(rows, n + 1, order', acl', pending') && Ascends(t, order')
  {
    var a, q := rows[n].0, rows[n].1;
    if n == 0 {
      FirstAce(rows);
      acl', pending', order' := [], {q}, [a];
    } else if rows[n - 1].0.id != a.id {
      NextAce(t, r, rows, n, order, acl, pending);
      PendingComplete(t, r, rows, n, order, acl, pending);
      OrderGrows(t, r, rows, n, order, acl, pending);
      var was := rows[n - 1].0;
      acl' := acl + [Listed(was.principal, was.grant, was.isProtected, was.resource, pending)];
      pending', order' := {q}, order + [a];
    } else {
      SameId(t, r, rows, n);
      SameAce(t, rows, n, order, acl, pending);
      acl', pending', order' := acl, pending + {q}, order;
    }
  }

  /** The whole list. */
  method GetAcl(rows: seq<(Ace, nat)>, ghost t: Tables, ghost r: nat, ghost w: Picture)
    returns (acl: seq<Listed>, ghost order: seq<Ace>)
    requires WellFormed(t) && IsResult(t, r, rows)
    ensures IsOrdered(t, r, order) && |acl| == |order|
    ensures forall i :: 0 <= i < |acl| ==> var a := order[i];
      acl[i] == Listed(a.principal, a.grant, a.isProtected, a.resource, a.privs)
    ensures forall p, v :: FirstMatch(t, acl, p, v) <==> Granted(t, p, v, r)
    ensures Pictures(w, t) ==> forall p, v :: FirstMatch(t, acl, p, v) <==> Allowed(w, t, p, v, r)
  {
    var pending;
    acl, pending, order := GroupRows(rows, t, r);
    AllListed(t, r, rows, order, acl, pending);
    if rows != [] {
      PendingComplete(t, r, rows, |rows|, order, acl, pending);
      var was := rows[|rows| - 1].0;
      acl := acl + [Listed(was.principal, was.grant, was.isProtected, was.resource, pending)];
    }
    ListDecides(t, r, acl, order, w);
  }

  lemma ListDecides(t: Tables, r: nat, acl: seq<Listed>, order: seq<Ace>, w: Picture)
    requires WellFormed(t) && IsOrdered(t, r, order) && IsListingOf(acl, order)
    ensures forall p, v :: FirstMatch(t, acl, p, v) <==> Granted(t, p, v, r)
    ensures Pictures(w, t) ==> forall p, v :: FirstMatch(t, acl, p, v) <==> Allowed(w, t, p, v, r)
  {
    forall p, v
      ensures FirstMatch(t, acl, p, v) <==> Granted(t, p, v, r)
      ensures Pictures(w, t) ==> (Granted(t, p, v, r) <==> Allowed(w, t, p, v, r))
    {
      ListingDecides(t, r, acl, order, p, v);
      if Pictures(w, t) {
        GrantedIffAllowed(w, t, p, v, r);
      }
    }
  }

  lemma SameId(t: Tables, r: nat, rows: seq<(Ace, nat)>, n: nat)
    requires WellFormed(t) && IsResult(t, r, rows) && 0 < n < |rows| && rows[n].0.id == rows[n - 1].0.id
    ensures rows[n].0 == rows[n - 1].0
  {
  }

  /** The privileges whose first relevant ACE grants. */
  function GrantedPrivileges(t: Tables, p: nat, r: nat): set<nat> {
    set v | v in t.privs && Granted(t, p, v, r)
  }

  datatype Cached = Cached(principal: nat, priv: nat, isAllow: bool)

  /** The resource of a request, which remembers its last answer. */
  class AclResource {
    const id: nat
    var cache: Option<Cached>

    constructor (id: nat)
      ensures this.id == id && cache == None
    {
      this.id := id;
      cache := None;
    }

    /** What is remembered is what the tables say. */
    ghost predicate Valid(t: Tables)
      reads this
    {
      cache.Some? ==> (cache.value.isAllow <==> Granted(t, cache.value.principal, cache.value.priv, id))
    }

    /** The rows of the query, in the order of the principals. */
    method SelectAnswers(t: Tables, v: nat, ps: seq<nat>, ghost w: Picture) returns (rows: seq<Answer>)
      requires WellFormed(t)
      ensures IsAnswers(Grants(t, v, ps, id), rows, |ps|)
      ensures Pictures(w, t) ==> forall k :: 0 <= k < |ps| ==>
        (Allowed(w, t, ps[k], v, id) <==> Answer(k + 1, true) in rows)
    {
      rows := [];
      ghost var gs := Grants(t, v, ps, id);
      for k := 0 to |ps|
        invariant IsAnswers(gs, rows, k)
      {
        var answer := FirstGrant(t, v, ps[k]);
        AnswersNext(gs, rows, k, answer);
        if answer.Some? {
          rows := rows + [Answer(k + 1, answer.value)];
        }
      }
      AnswersMean(t, v, ps, id, w, rows);
    }

    /** Whether the first relevant ACE of one principal grants. */
    method FirstGrant(t: Tables, v: nat, p: nat) returns (answer: Option<bool>)
      requires WellFormed(t)
      ensures answer == None ==> !Granted(t, p, v, id)
      ensures answer.Some? ==> (answer.value <==> Granted(t, p, v, id))
    {
      var aces := Relevant(t, p, v, id);
      if a: Ace :| a in aces && IsFirst(t, aces, a) {
        OneFirst(t, aces, a);
        return Some(a.grant);
      }
      if aces != {} {
        var a := FirstExists(t, aces);
        assert false;
      }
      answer := None;
    }

    /** dbms_get_privileges: the subquery for each privilege, and those it answers with a
        grant. */
    method GetPrivileges(t: Tables, p: nat, ghost w: Picture) returns (vs: set<nat>)
      requires WellFormed(t)
      ensures vs == GrantedPrivileges(t, p, id)
      ensures Pictures(w, t) ==> forall v :: v in vs <==> Allowed(w, t, p, v, id)
      ensures Pictures(w, t) ==> forall a, q :: GrantsOnly(t, a, q, p, id) ==>
        vs == set v | v in NestedSet.Ids(w.privileges) && NestedSet.Above(w.privileges, q, v)
    {
      vs := {};
      var todo := t.privs.Keys;
      while todo != {}
        invariant todo <= t.privs.Keys
        invariant forall v :: v in vs <==> v in t.privs && v !in todo && Granted(t, p, v, id)
        decreases |todo|
      {
        var v: nat :| v in todo;
        todo := todo - {v};
        var answer := FirstGrant(t, v, p);
        if answer == Some(true) {
          vs := vs + {v};
        }
      }
      if Pictures(w, t) {
        forall v
          ensures v in vs <==> Allowed(w, t, p, v, id)
        {
          if Allowed(w, t, p, v, id) {
            AllowedIsPrivilege(w, t, p, v, id);
          }
          GrantedIffAllowed(w, t, p, v, id);
        }
        forall a, q | GrantsOnly(t, a, q, p, id)
          ensures vs == set v | v in NestedSet.Ids(w.privileges) && NestedSet.Above(w.privileges, q, v)
        {
          OneGrant(w, t, a, q, p, id, vs);
        }
      }
    }

    /** The query of dbms_is_allow and its loop, which goes down the chain of principals and the
        rows together and remembers the last answer. */
    method Evaluate(t: Tables, v: nat, ps: seq<nat>, ghost w: Picture) returns (allow: bool)
      requires WellFormed(t) && Valid(t) && ps != []
      modifies this
      ensures Valid(t) && (allow <==> Granted(t, ps[0], v, id))
    {
      var rows := SelectAnswers(t, v, ps, w);
      ghost var gs := Grants(t, v, ps, id);
      allow := false;
      var i: nat, nextOrder: nat, nextIsAllow, order: nat := 0, 0, false, 1;
      while order <= |ps|
        invariant 1 <= order <= |ps| + 1 && InStep(rows, i, order, nextOrder, nextIsAllow, |ps|)
        invariant order == 1 ==> i == 0 && !allow
        invariant order > 1 ==> allow == gs[0]
        invariant Valid(t)
      {
        if nextOrder < order {
          if i < |rows| {
            nextOrder, nextIsAllow := rows[i].order, rows[i].grant;
            i := i + 1;
            if nextOrder == 1 {
              allow := nextIsAllow;
            }
          } else {
            nextOrder := |ps| + 1;
          }
        }
        AnswerAt(gs, rows, i, order, nextOrder, nextIsAllow);
        cache := Some(Cached(ps[order - 1], v, nextOrder == order && nextIsAllow));
        order := order + 1;
      }
    }

    /** dbms_is_allow for a chain of principals: the super user is never refused; otherwise
        the remembered answer, or that of the first relevant ACE of the first principal. */
    method IsAllow(t: Tables, v: nat, ps: seq<nat>, ghost w: Picture) returns (allow: bool)
      requires WellFormed(t) && Valid(t) && ps != []
      modifies this
      ensures Valid(t)
      ensures allow <==> ps[0] == SUPER_USER_ID || Granted(t, ps[0], v, id)
      ensures v in t.privs && ps[0] != SUPER_USER_ID ==> (allow <==> v in GrantedPrivileges(t, ps[0], id))
      ensures Pictures(w, t) ==> (allow <==> ps[0] == SUPER_USER_ID || Allowed(w, t, ps[0], v, id))
    {
      if Pictures(w, t) {
        GrantedIffAllowed(w, t, ps[0], v, id);
      }
      if ps[0] == SUPER_USER_ID {
        return true;
      }
      if cache.Some? && cache.value.principal == ps[0] && cache.value.priv == v {
        return cache.value.isAllow;
      }
      allow := Evaluate(t, v, ps, w);
    }
  }

  /** A row: the place of a principal in the chain, and whether its first ACE grants. */
  datatype Answer = Answer(order: nat, grant: bool)

  /** What each principal of the chain is granted. */
  ghost function Grants(t: Tables, v: nat, ps: seq<nat>, r: nat): (gs: seq<bool>)
    ensures |gs| == |ps| && forall k :: 0 <= k < |ps| ==> (gs[k] <==> Granted(t, ps[k], v, r))
  {
    seq(|ps|, k requires 0 <= k < |ps| => Granted(t, ps[k], v, r))
  }

  /** Rows for the first n principals: in order, right, and one for everybody who is
      granted something. */
  predicate IsAnswers(gs: seq<bool>, rows: seq<Answer>, n: nat)
    requires n <= |gs|
  {
    && (forall i :: 0 <= i < |rows| ==> 1 <= rows[i].order <= n && rows[i].grant == gs[rows[i].order - 1])
    && (forall i, j :: 0 <= i < j < |rows| ==> rows[i].order < rows[j].order)
    && (forall k :: 1 <= k <= n && gs[k - 1] ==> HasRow(rows, k))
  }

  predicate HasRow(rows: seq<Answer>, order: int) {
    exists i :: 0 <= i < |rows| && rows[i].order == order
  }

  lemma AnswerIn(gs: seq<bool>, rows: seq<Answer>, k: nat)
    requires k < |gs| && IsAnswers(gs, rows, |gs|)
    ensures gs[k] <==> Answer(k + 1, true) in rows
  {
    if gs[k] {
      assert HasRow(rows, k + 1);
      var i :| 0 <= i < |rows| && rows[i].order == k + 1;
      assert rows[i] == Answer(k + 1, true);
    }
  }

  lemma AnswersMean(t: Tables, v: nat, ps: seq<nat>, r: nat, w: Picture, rows: seq<Answer>)
    requires IsAnswers(Grants(t, v, ps, r), rows, |ps|)
    ensures Pictures(w, t) ==> forall k :: 0 <= k < |ps| ==>
      (Allowed(w, t, ps[k], v, r) <==> Answer(k + 1, true) in rows)
  {
    if Pictures(w, t) {
      forall k | 0 <= k < |ps|
        ensures Allowed(w, t, ps[k], v, r) <==> Answer(k + 1, true) in rows
      {
        GrantedIffAllowed(w, t, ps[k], v, r);
        AnswerIn(Grants(t, v, ps, r), rows, k);
      }
    }
  }

  lemma AnswersNext(gs: seq<bool>, rows: seq<Answer>, n: nat, answer: Option<bool>)
    requires n < |gs| && IsAnswers(gs, rows, n) && gs[n] == (answer.Some? && answer.value)
    ensures IsAnswers(gs, if answer.Some? then rows + [Answer(n + 1, answer.value)] else rows, n + 1)
  {
    if answer.Some? {
      var more := rows + [Answer(n + 1, answer.value)];
      forall k | 1 <= k <= n + 1 && gs[k - 1]
        ensures HasRow(more, k)
      {
        if k <= n {
          assert HasRow(rows, k);
          var i :| 0 <= i < |rows| && rows[i].order == k;
          assert more[i].order == k;
        } else {
          assert more[|rows|].order == k;
        }
      }
    }
  }

  /** i rows are read; the last is kept until the chain has passed it. */
  predicate InStep(rows: seq<Answer>, i: nat, order: nat, nextOrder: nat, nextIsAllow: bool, n: nat) {
    && i <= |rows|
    && (forall k :: 0 <= k < i - 1 ==> rows[k].order < order)
    && (forall k :: i <= k < |rows| ==> rows[k].order >= order)
    && if nextOrder == n + 1 then i == |rows| && forall k :: 0 <= k < i ==> rows[k].order < order
       else if i == 0 then nextOrder == 0
       else nextOrder == rows[i - 1].order && nextIsAllow == rows[i - 1].grant
  }

  /** Once the kept row is not behind, it answers for this place or nothing does. */
  lemma AnswerAt(gs: seq<bool>, rows: seq<Answer>, i: nat, order: nat, nextOrder: nat, nextIsAllow: bool)
    requires 1 <= order <= |gs| && IsAnswers(gs, rows, |gs|)
    requires InStep(rows, i, order, nextOrder, nextIsAllow, |gs|) && nextOrder >= order
    ensures (nextOrder == order && nextIsAllow) == gs[order - 1]
    ensures InStep(rows, i, order + 1, nextOrder, nextIsAllow, |gs|)
  {
    if gs[order - 1] {
      assert HasRow(rows, order);
    }
  }

  lemma OneFirst(t: Tables, s: set<Ace>, a: Ace)
    requires IsFirst(t, s, a)
    ensures forall b :: IsFirst(t, s, b) ==> b == a
  {
  }
}
