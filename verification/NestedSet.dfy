/** Nested-set numbers (lft, rgt): the aggregate privileges of acl_privileges, the leaf
    inserted by limestone/database/insert_priv_bind_collection.rb, and the migration from
    numbers to paths in limestone/database/nested_set_to_materialized_path.rb. */
module NestedSet {
  import opened Common
  import AclPaths

  /** Trees side by side: a node, the trees below it, and the trees beside it. */
  datatype Forest = Nil | Node(id: nat, kids: Forest, rest: Forest)

  datatype Row = Row(lft: int, rgt: int)

  type Table = map<nat, Row>

  function Ids(f: Forest): set<nat> {
    match f
    case Nil => {}
    case Node(id, kids, rest) => {id} + Ids(kids) + Ids(rest)
  }

  function Size(f: Forest): nat {
    match f
    case Nil => 0
    case Node(_, kids, rest) => 1 + Size(kids) + Size(rest)
  }

  predicate Distinct(f: Forest) {
    match f
    case Nil => true
    case Node(id, kids, rest) =>
      id !in Ids(kids) && id !in Ids(rest) && Ids(kids) !! Ids(rest) && Distinct(kids) && Distinct(rest)
  }

  /** The numbers of x when a forest is numbered depth-first from n on: lft on the way
      down, rgt on the way up. */
  function At(f: Forest, n: int, x: nat): Row
    requires x in Ids(f)
  {
    var end := n + 1 + 2 * Size(f.kids);
    if x == f.id then Row(n, end)
    else if x in Ids(f.kids) then At(f.kids, n + 1, x)
    else At(f.rest, end + 1, x)
  }

  function Number(f: Forest, n: int): Table {
    map x | x in Ids(f) :: At(f, n, x)
  }

  /** a is d or lies above it. */
  predicate Above(f: Forest, a: nat, d: nat) {
    match f
    case Nil => false
    case Node(id, kids, rest) => (a == id && (d == id || d in Ids(kids))) || Above(kids, a, d) || Above(rest, a, d)
  }

  /** par.lft <= chi.lft AND par.rgt >= chi.rgt */
  predicate Contains(par: Row, chi: Row) {
    par.lft <= chi.lft && par.rgt >= chi.rgt
  }

  lemma {:induction false} AtRange(f: Forest, n: int, x: nat)
    requires x in Ids(f)
    ensures n <= At(f, n, x).lft < At(f, n, x).rgt < n + 2 * Size(f)
  {
    if x != f.id {
      if x in Ids(f.kids) {
        AtRange(f.kids, n + 1, x);
      } else {
        AtRange(f.rest, n + 2 + 2 * Size(f.kids), x);
      }
    }
  }

  lemma {:induction false} AboveIds(f: Forest, a: nat, d: nat)
    requires Above(f, a, d)
    ensures a in Ids(f) && d in Ids(f)
  {
    match f
    case Node(id, kids, rest) =>
      if Above(kids, a, d) {
        AboveIds(kids, a, d);
      } else if Above(rest, a, d) {
        AboveIds(rest, a, d);
      }
  }

  /** Intervals contain one another exactly along the tree. */
  lemma {:induction false} ContainsIffAbove(f: Forest, n: int, a: nat, d: nat)
    requires Distinct(f) && a in Ids(f) && d in Ids(f)
    ensures Contains(At(f, n, a), At(f, n, d)) <==> Above(f, a, d)
  {
    var k := n + 1 + 2 * Size(f.kids);
    if Above(f.kids, a, d) {
      AboveIds(f.kids, a, d);
    }
    if Above(f.rest, a, d) {
      AboveIds(f.rest, a, d);
    }
    forall x | x == a || x == d
      ensures x in Ids(f.kids) ==> n < At(f, n, x).lft < At(f, n, x).rgt < k
      ensures x in Ids(f.rest) ==> k < At(f, n, x).lft < At(f, n, x).rgt
    {
      if x in Ids(f.kids) {
        AtRange(f.kids, n + 1, x);
      } else if x in Ids(f.rest) {
        AtRange(f.rest, k + 1, x);
      }
    }
    if a in Ids(f.kids) && d in Ids(f.kids) {
      ContainsIffAbove(f.kids, n + 1, a, d);
    } else if a in Ids(f.rest) && d in Ids(f.rest) {
      ContainsIffAbove(f.rest, k + 1, a, d);
    }
  }

  // ---------------------------------------------------------------- inserting a leaf

  /** A new last child of x. */
  function AddLeaf(f: Forest, x: nat, leaf: nat): Forest {
    match f
    case Nil => Nil
    case Node(id, kids, rest) =>
      if id == x then Node(id, Append(kids, leaf), rest)
      else if x in Ids(kids) then Node(id, AddLeaf(kids, x, leaf), rest)
      else Node(id, kids, AddLeaf(rest, x, leaf))
  }

  function Append(f: Forest, leaf: nat): Forest {
    match f
    case Nil => Node(leaf, Nil, Nil)
    case Node(id, kids, rest) => Node(id, kids, Append(rest, leaf))
  }

  /** Everything from number k on moves by two. */
  function Shift(r: Row, k: int): Row {
    Row(if r.lft >= k then r.lft + 2 else r.lft, if r.rgt >= k then r.rgt + 2 else r.rgt)
  }

  function InsertLeaf(t: Table, k: int, leaf: nat): Table {
    (map x | x in t :: Shift(t[x], k))[leaf := Row(k, k + 1)]
  }

  lemma {:induction false} AppendIs(f: Forest, leaf: nat)
    requires Distinct(f) && leaf !in Ids(f)
    ensures Ids(Append(f, leaf)) == Ids(f) + {leaf} && Size(Append(f, leaf)) == Size(f) + 1
    ensures Distinct(Append(f, leaf))
  {
    if f.Node? {
      AppendIs(f.rest, leaf);
    }
  }

  lemma {:induction false} AppendAt(f: Forest, n: int, leaf: nat, y: nat)
    requires Distinct(f) && leaf !in Ids(f) && y in Ids(f) + {leaf}
    ensures y in Ids(Append(f, leaf))
    ensures At(Append(f, leaf), n, y) == if y == leaf then Row(n + 2 * Size(f), n + 2 * Size(f) + 1) else At(f, n, y)
  {
    AppendIs(f, leaf);
    if f.Node? {
      AppendIs(f.rest, leaf);
      if y != f.id && y !in Ids(f.kids) {
        AppendAt(f.rest, n + 2 + 2 * Size(f.kids), leaf, y);
      }
    }
  }

  lemma {:induction false} AtLater(f: Forest, n: int, y: nat, k: int)
    requires y in Ids(f) && k <= n
    ensures At(f, n + 2, y) == Shift(At(f, n, y), k)
  {
    AtRange(f, n, y);
    if y != f.id {
      if y in Ids(f.kids) {
        AtLater(f.kids, n + 1, y, k);
      } else {
        AtLater(f.rest, n + 2 + 2 * Size(f.kids), y, k);
      }
    }
  }

  lemma {:induction false} AddLeafIs(f: Forest, x: nat, leaf: nat)
    requires Distinct(f) && x in Ids(f) && leaf !in Ids(f)
    ensures Ids(AddLeaf(f, x, leaf)) == Ids(f) + {leaf} && Size(AddLeaf(f, x, leaf)) == Size(f) + 1
    ensures Distinct(AddLeaf(f, x, leaf))
  {
    if f.id == x {
      AppendIs(f.kids, leaf);
    } else if x in Ids(f.kids) {
      AddLeafIs(f.kids, x, leaf);
    } else {
      AddLeafIs(f.rest, x, leaf);
    }
  }

  lemma AddLeafAtRoot(f: Forest, n: int, leaf: nat, y: nat)
    requires f.Node? && Distinct(f) && leaf !in Ids(f) && y in Ids(f) + {leaf}
    ensures y in Ids(AddLeaf(f, f.id, leaf))
    ensures var k := n + 1 + 2 * Size(f.kids);
      At(AddLeaf(f, f.id, leaf), n, y) == if y == leaf then Row(k, k + 1) else Shift(At(f, n, y), k)
  {
    AppendIs(f.kids, leaf);
    var k := n + 1 + 2 * Size(f.kids);
    if y in Ids(f.kids) + {leaf} {
      AppendAt(f.kids, n + 1, leaf, y);
      if y != leaf {
        AtRange(f.kids, n + 1, y);
      }
    } else if y != f.id {
      AtLater(f.rest, k + 1, y, k);
    }
  }

  lemma {:induction false} AddLeafAt(f: Forest, n: int, x: nat, leaf: nat, y: nat)
    requires Distinct(f) && x in Ids(f) && leaf !in Ids(f) && y in Ids(f) + {leaf}
    ensures y in Ids(AddLeaf(f, x, leaf))
    ensures var k := At(f, n, x).rgt;
      At(AddLeaf(f, x, leaf), n, y) == if y == leaf then Row(k, k + 1) else Shift(At(f, n, y), k)
  {
    if f.id == x {
      AddLeafAtRoot(f, n, leaf, y);
    } else if x in Ids(f.kids) {
      if y in Ids(f.kids) + {leaf} {
        AddLeafAt(f.kids, n + 1, x, leaf, y);
      }
      AddLeafAtBelow(f, n, x, leaf, y);
    } else {
      if y in Ids(f.rest) + {leaf} {
        AddLeafAt(f.rest, n + 2 + 2 * Size(f.kids), x, leaf, y);
      }
      AddLeafAtBeside(f, n, x, leaf, y);
    }
  }

  /** The two steps of the induction: x among the children, or beside them. */
  lemma AddLeafAtBelow(f: Forest, n: int, x: nat, leaf: nat, y: nat)
    requires Distinct(f) && x in Ids(f) && leaf !in Ids(f) && y in Ids(f) + {leaf}
    requires x != f.id && x in Ids(f.kids)
    requires y in Ids(f.kids) + {leaf} ==>
      y in Ids(AddLeaf(f.kids, x, leaf)) &&
      var k := At(f.kids, n + 1, x).rgt;
      At(AddLeaf(f.kids, x, leaf), n + 1, y) == if y == leaf then Row(k, k + 1) else Shift(At(f.kids, n + 1, y), k)
    ensures y in Ids(AddLeaf(f, x, leaf))
    ensures var k := At(f, n, x).rgt;
      At(AddLeaf(f, x, leaf), n, y) == if y == leaf then Row(k, k + 1) else Shift(At(f, n, y), k)
  {
    AddLeafIs(f.kids, x, leaf);
    AtRange(f.kids, n + 1, x);
    if y in Ids(f.rest) {
      AtLater(f.rest, n + 2 + 2 * Size(f.kids), y, At(f, n, x).rgt);
    }
  }

  lemma AddLeafAtBeside(f: Forest, n: int, x: nat, leaf: nat, y: nat)
    requires Distinct(f) && x in Ids(f) && leaf !in Ids(f) && y in Ids(f) + {leaf}
    requires x != f.id && x in Ids(f.rest)
    requires y in Ids(f.rest) + {leaf} ==>
      y in Ids(AddLeaf(f.rest, x, leaf)) &&
      var m := n + 2 + 2 * Size(f.kids);
      var k := At(f.rest, m, x).rgt;
      At(AddLeaf(f.rest, x, leaf), m, y) == if y == leaf then Row(k, k + 1) else Shift(At(f.rest, m, y), k)
    ensures y in Ids(AddLeaf(f, x, leaf))
    ensures var k := At(f, n, x).rgt;
      At(AddLeaf(f, x, leaf), n, y) == if y == leaf then Row(k, k + 1) else Shift(At(f, n, y), k)
  {
    AddLeafIs(f.rest, x, leaf);
    var m := n + 2 + 2 * Size(f.kids);
    assert At(f, n, x) == At(f.rest, m, x);
    if y in Ids(f.rest) + {leaf} {
      assert At(AddLeaf(f, x, leaf), n, y) == At(AddLeaf(f.rest, x, leaf), m, y);
    } else {
      AtRange(f.rest, m, x);
      BeforeRest(f, n, y);
    }
  }

  /** The numbers of a node and what is below it are smaller than those beside it. */
  lemma BeforeRest(f: Forest, n: int, y: nat)
    requires f.Node? && Distinct(f) && (y == f.id || y in Ids(f.kids))
    ensures At(f, n, y).lft < At(f, n, y).rgt < n + 2 + 2 * Size(f.kids)
  {
    if y != f.id {
      AtRange(f.kids, n + 1, y);
    }
  }

  /** Shifting and inserting at the rgt of x gives the depth-first numbers of the tree
      with a new last child of x. */
  lemma InsertLeafNumbers(f: Forest, n: int, x: nat, leaf: nat)
    requires Distinct(f) && x in Ids(f) && leaf !in Ids(f)
    ensures InsertLeaf(Number(f, n), At(f, n, x).rgt, leaf) == Number(AddLeaf(f, x, leaf), n)
    ensures Distinct(AddLeaf(f, x, leaf))
  {
    AddLeafIs(f, x, leaf);
    var g, k := AddLeaf(f, x, leaf), At(f, n, x).rgt;
    forall y | y in Ids(g)
      ensures y == leaf || y in Ids(f)
      ensures At(g, n, y) == if y == leaf then Row(k, k + 1) else Shift(At(f, n, y), k)
    {
      AddLeafAt(f, n, x, leaf, y);
    }
    SameTable(InsertLeaf(Number(f, n), k, leaf), g, n);
  }

  lemma SameTable(t: Table, g: Forest, n: int)
    requires t.Keys == Ids(g) && forall y :: y in Ids(g) ==> t[y] == At(g, n, y)
    ensures t == Number(g, n)
  {
  }

  /** The new leaf lies below x and what was above x; nothing else changes. */
  lemma {:induction false} AddLeafAbove(f: Forest, x: nat, leaf: nat, a: nat, d: nat)
    requires Distinct(f) && x in Ids(f) && leaf !in Ids(f)
    ensures Above(AddLeaf(f, x, leaf), a, d) <==>
      if d == leaf then a == leaf || Above(f, a, x) else Above(f, a, d)
  {
    AddLeafIs(f, x, leaf);
    if f.id == x {
      AppendAbove(f.kids, leaf, a, d);
      AppendIs(f.kids, leaf);
      NotAbove(f.rest, a, leaf);
      NotAbove(f.kids, a, x);
      NotAbove(f.rest, a, x);
    } else if x in Ids(f.kids) {
      AddLeafIs(f.kids, x, leaf);
      AddLeafAbove(f.kids, x, leaf, a, d);
      NotAbove(f.rest, a, leaf);
      NotAbove(f.rest, a, x);
    } else {
      AddLeafIs(f.rest, x, leaf);
      AddLeafAbove(f.rest, x, leaf, a, d);
      NotAbove(f.kids, a, leaf);
      NotAbove(f.kids, a, x);
    }
  }

  lemma NotAbove(f: Forest, a: nat, d: nat)
    requires d !in Ids(f)
    ensures !Above(f, a, d)
  {
  }

  lemma {:induction false} AppendAbove(f: Forest, leaf: nat, a: nat, d: nat)
    requires Distinct(f) && leaf !in Ids(f)
    ensures Above(Append(f, leaf), a, d) <==> if d == leaf then a == leaf else Above(f, a, d)
  {
    NotAbove(f, a, leaf);
    if f.Node? {
      NotAbove(f.kids, a, leaf);
      AppendAbove(f.rest, leaf, a, d);
    }
  }

  // ---------------------------------------------------------------- the script

  function SetRow(t: Table, id: nat, lft: Option<int>, rgt: int): Table {
    if id in t then t[id := Row(if lft.Some? then lft.value else t[id].lft, rgt)] else t
  }

  function Leaf(id: nat, rest: Forest): Forest {
    Node(id, Nil, rest)
  }

  function WriteKids(): Forest {
    Leaf(8, Leaf(9, Leaf(10, Leaf(11, Nil))))
  }

  function AllKids(): Forest {
    Leaf(2, Leaf(3, Leaf(4, Leaf(5, Leaf(6, Node(7, WriteKids(), Leaf(12, Nil)))))))
  }

  /** The privileges the script finds: all (1) with read, read-acl,
      read-current-user-privilege-set, write-acl, unlock, write (7) and
      read-private-properties (12); write with write-properties, write-content, bind (10)
      and unbind. */
  function Privileges(): Forest {
    Node(1, AllKids(), Nil)
  }

  lemma LeafFirst(id: nat, rest: Forest, n: int, x: nat)
    requires Distinct(rest) && id !in Ids(rest)
    ensures Distinct(Leaf(id, rest)) && Ids(Leaf(id, rest)) == {id} + Ids(rest) &&
      Size(Leaf(id, rest)) == 1 + Size(rest)
    ensures x in Ids(Leaf(id, rest)) ==>
      At(Leaf(id, rest), n, x) == if x == id then Row(n, n + 1) else At(rest, n + 2, x)
  {
  }

  lemma WriteRows(n: int, x: nat)
    ensures Distinct(WriteKids()) && Size(WriteKids()) == 4 && Ids(WriteKids()) == {8, 9, 10, 11}
    ensures 8 <= x <= 11 ==> At(WriteKids(), n, x) == Row(n + 2 * (x - 8), n + 2 * (x - 8) + 1)
  {
    LeafFirst(11, Nil, n + 6, x);
    LeafFirst(10, Leaf(11, Nil), n + 4, x);
    LeafFirst(9, Leaf(10, Leaf(11, Nil)), n + 2, x);
    LeafFirst(8, Leaf(9, Leaf(10, Leaf(11, Nil))), n, x);
  }

  lemma WriteAndBeside(n: int, x: nat)
    ensures var f := Node(7, WriteKids(), Leaf(12, Nil));
      && Distinct(f) && Size(f) == 6 && Ids(f) == {7, 8, 9, 10, 11, 12}
      && (x == 7 ==> At(f, n, x) == Row(n, n + 9)) && (x == 12 ==> At(f, n, x) == Row(n + 10, n + 11))
      && (8 <= x <= 11 ==> At(f, n, x) == Row(n + 1 + 2 * (x - 8), n + 2 + 2 * (x - 8)))
  {
    WriteRows(n + 1, x);
    LeafFirst(12, Nil, n + 10, x);
  }

  /** The numbers of create_postgres_full.sql, and of the privilege added since. */
  function PrivilegeRow(x: nat): Row {
    if x == 1 then Row(1, 24) else if x <= 6 then Row(2 * x - 2, 2 * x - 1)
    else if x == 7 then Row(12, 21) else if x <= 11 then Row(13 + 2 * (x - 8), 14 + 2 * (x - 8)) else Row(22, 23)
  }

  /** f has the privileges lo to 12, with the numbers they have in the table. */
  ghost predicate Fits(f: Forest, lo: nat) {
    && Distinct(f) && Size(f) == 13 - lo
    && (forall x :: x in Ids(f) <==> lo <= x <= 12)
    && forall x :: x in Ids(f) ==> At(f, 2 * lo - 2, x) == PrivilegeRow(x)
  }

  lemma LeafFits(f: Forest, lo: nat)
    requires 2 <= lo <= 6 && Fits(f, lo + 1)
    ensures Fits(Leaf(lo, f), lo)
  {
    forall x: nat
      ensures x in Ids(Leaf(lo, f)) ==> At(Leaf(lo, f), 2 * lo - 2, x) == PrivilegeRow(x)
    {
      LeafFirst(lo, f, 2 * lo - 2, x);
    }
  }

  lemma WriteFits()
    ensures Fits(Node(7, WriteKids(), Leaf(12, Nil)), 7)
  {
    forall x: nat
      ensures var f := Node(7, WriteKids(), Leaf(12, Nil)); x in Ids(f) ==> At(f, 12, x) == PrivilegeRow(x)
    {
      WriteAndBeside(12, x);
    }
    WriteAndBeside(12, 7);
  }

  lemma KidsFit()
    ensures Fits(AllKids(), 2)
  {
    WriteFits();
    var f7 := Node(7, WriteKids(), Leaf(12, Nil));
    FiveLeaves(f7);
  }

  lemma FiveLeaves(f7: Forest)
    requires Fits(f7, 7)
    ensures Fits(Leaf(2, Leaf(3, Leaf(4, Leaf(5, Leaf(6, f7))))), 2)
  {
    LeafFits(f7, 6);
    ThreeLeaves(Leaf(6, f7));
  }

  lemma ThreeLeaves(f6: Forest)
    requires Fits(f6, 6)
    ensures Fits(Leaf(2, Leaf(3, Leaf(4, Leaf(5, f6)))), 2)
  {
    LeafFits(f6, 5);
    TwoLeaves(Leaf(5, f6));
  }

  lemma TwoLeaves(f5: Forest)
    requires Fits(f5, 5)
    ensures Fits(Leaf(2, Leaf(3, Leaf(4, f5))), 2)
  {
    LeafFits(f5, 4);
    var f4 := Leaf(4, f5);
    LeafFits(f4, 3);
    LeafFits(Leaf(3, f4), 2);
  }

  lemma PrivilegeRows(f: Forest, x: nat)
    requires f == Privileges()
    ensures Distinct(f) && (x in Ids(f) <==> 1 <= x <= 12)
    ensures 1 <= x <= 12 ==> At(f, 1, x) == PrivilegeRow(x)
  {
    KidsFit();
    PrivilegesFit(AllKids(), x);
  }

  lemma PrivilegesFit(kids: Forest, x: nat)
    requires Fits(kids, 2)
    ensures var f := Node(1, kids, Nil);
      Distinct(f) && (x in Ids(f) <==> 1 <= x <= 12) && (1 <= x <= 12 ==> At(f, 1, x) == PrivilegeRow(x))
  {
  }

  function Scripted(t: Table): Table {
    var t1 := SetRow(SetRow(SetRow(t, 1, None, 26), 7, None, 23), 10, None, 20);
    SetRow(SetRow(t1, 11, Some(21), 22), 12, Some(24), 25)
  }

  ghost predicate IsPrivilegeTable(t: Table) {
    (forall x :: x in t <==> 1 <= x <= 12) && forall x :: x in t ==> t[x] == PrivilegeRow(x)
  }

  lemma ScriptShifts(t: Table, leaf: nat)
    requires IsPrivilegeTable(t)
    ensures Scripted(t)[leaf := Row(18, 19)] == InsertLeaf(t, 18, leaf)
  {
  }

  lemma TableFits(f: Forest, t: Table)
    requires f == Privileges() && IsPrivilegeTable(t)
    ensures Distinct(f) && forall x :: x in t <==> x in Ids(f)
    ensures forall x :: x in t ==> t[x] == At(f, 1, x)
  {
    PrivilegeRows(f, 1);
    forall x: nat
      ensures x in t <==> x in Ids(f)
      ensures x in t ==> t[x] == At(f, 1, x)
    {
      PrivilegeRows(f, x);
    }
  }

  lemma InsertsAt(f: Forest, t: Table, leaf: nat)
    requires Distinct(f) && 10 in Ids(f) && leaf !in Ids(f) && At(f, 1, 10).rgt == 18
    requires forall x :: x in t <==> x in Ids(f)
    requires forall x :: x in t ==> t[x] == At(f, 1, x)
    ensures InsertLeaf(t, 18, leaf) == Number(AddLeaf(f, 10, leaf), 1)
  {
    assert t == Number(f, 1);
    InsertLeafNumbers(f, 1, 10, leaf);
  }

  lemma ScriptInserts(f: Forest, t: Table, leaf: nat)
    requires f == Privileges() && IsPrivilegeTable(t) && leaf !in t
    ensures Scripted(t)[leaf := Row(18, 19)] == Number(AddLeaf(f, 10, leaf), 1)
  {
    ScriptShifts(t, leaf);
    TableFits(f, t);
    assert 10 in t && t[10] == At(f, 1, 10);
    InsertsAt(f, t, leaf);
  }

  class PrivilegeTable {
    var rows: Table

    constructor (rows: Table)
      ensures this.rows == rows
    {
      this.rows := rows;
    }

    method UpdateRow(id: nat, lft: Option<int>, rgt: int)
      modifies this
      ensures rows == SetRow(old(rows), id, lft, rgt)
    {
      rows := SetRow(rows, id, lft, rgt);
    }

    /** The UPDATEs and the INSERT of insert_priv_bind_collection.rb: they give the numbers
        of the tree in which the new privilege is the last child of bind. */
    method InsertPrivBindCollection(leaf: nat)
      requires IsPrivilegeTable(rows) && leaf !in rows
      modifies this
      ensures rows == Number(AddLeaf(Privileges(), 10, leaf), 1)
    {
      ghost var before := rows;
      UpdateRow(1, None, 26);
      UpdateRow(7, None, 23);
      UpdateRow(10, None, 20);
      UpdateRow(11, Some(21), 22);
      UpdateRow(12, Some(24), 25);
      rows := rows[leaf := Row(18, 19)];
      ScriptInserts(Privileges(), before, leaf);
    }
  }

  // ---------------------------------------------------------------- the migration

  /** What the migration's query collects for r: the rows that contain its row, by lft. */
  ghost predicate IsCollected(t: Table, r: nat, p: seq<nat>)
    requires r in t
  {
    && (forall x :: x in p <==> x in t && Contains(t[x], t[r]))
    && (forall i, j :: 0 <= i < j < |p| ==> p[i] in t && p[j] in t && t[p[i]].lft < t[p[j]].lft)
  }

  /** The nodes from a root down to r. */
  function Chain(f: Forest, r: nat): seq<nat>
    requires r in Ids(f)
  {
    if r == f.id then [r]
    else if r in Ids(f.kids) then [f.id] + Chain(f.kids, r)
    else Chain(f.rest, r)
  }

  lemma {:induction false} ChainIsAbove(f: Forest, n: int, r: nat)
    requires Distinct(f) && r in Ids(f)
    ensures forall x :: x in Chain(f, r) <==> Above(f, x, r)
    ensures forall x :: x in Chain(f, r) ==> x in Ids(f)
    ensures forall i, j :: 0 <= i < j < |Chain(f, r)| ==> At(f, n, Chain(f, r)[i]).lft < At(f, n, Chain(f, r)[j]).lft
  {
    var c := Chain(f, r);
    if r == f.id {
      forall x
        ensures x in c <==> Above(f, x, r)
      {
        NotAbove(f.kids, x, r);
        NotAbove(f.rest, x, r);
      }
    } else if r in Ids(f.kids) {
      ChainIsAbove(f.kids, n + 1, r);
      forall x
        ensures x in c <==> Above(f, x, r)
      {
        NotAbove(f.rest, x, r);
      }
      forall i, j | 0 <= i < j < |c|
        ensures At(f, n, c[i]).lft < At(f, n, c[j]).lft
      {
        var d := Chain(f.kids, r);
        assert c[j] == d[j - 1] && c[j] in d;
        AtRange(f.kids, n + 1, c[j]);
        if i > 0 {
          assert c[i] == d[i - 1] && c[i] in d;
        }
      }
    } else {
      ChainIsAbove(f.rest, n + 2 + 2 * Size(f.kids), r);
      forall x
        ensures x in c <==> Above(f, x, r)
      {
        NotAbove(f.kids, x, r);
      }
      forall i, j | 0 <= i < j < |c|
        ensures At(f, n, c[i]).lft < At(f, n, c[j]).lft
      {
        assert c[i] in c && c[j] in c;
      }
    }
  }

  ghost predicate Ascending(t: Table, p: seq<nat>) {
    (forall i :: 0 <= i < |p| ==> p[i] in t) && forall i, j :: 0 <= i < j < |p| ==> t[p[i]].lft < t[p[j]].lft
  }

  lemma HeadLeast(t: Table, p: seq<nat>)
    requires Ascending(t, p) && p != []
    ensures p[0] in p && p[0] in t && Ascending(t, p[1..])
    ensures forall x :: x in p <==> x == p[0] || x in p[1..]
    ensures forall x :: x in p[1..] ==> x in t && t[p[0]].lft < t[x].lft
  {
  }

  lemma Member(p: seq<nat>, i: nat)
    requires i < |p|
    ensures p[i] in p
  {
  }

  /** Two lists of the same elements in the same strict order are one list. */
  lemma {:induction false} OneOrder(t: Table, p: seq<nat>, q: seq<nat>)
    requires forall x :: x in p <==> x in q
    requires Ascending(t, p) && Ascending(t, q)
    ensures p == q
    decreases |p|
  {
    if p == [] {
      if q != [] {
        Member(q, 0);
        assert false;
      }
    } else {
      Member(p, 0);
      HeadLeast(t, p);
      HeadLeast(t, q);
      assert p[0] == q[0];
      OneOrder(t, p[1..], q[1..]);
      assert p == [p[0]] + p[1..] && q == [q[0]] + q[1..];
    }
  }

  /** The migration stores for r the chain from the root down to r. */
  lemma MigratedIsChain(f: Forest, n: int, r: nat, p: seq<nat>)
    requires Distinct(f) && r in Ids(f) && IsCollected(Number(f, n), r, p)
    ensures p == Chain(f, r)
  {
    var t := Number(f, n);
    ChainIsAbove(f, n, r);
    forall x | x in Ids(f)
      ensures Contains(t[x], t[r]) <==> Above(f, x, r)
    {
      ContainsIffAbove(f, n, x, r);
    }
    forall x
      ensures x in p <==> x in Chain(f, r)
    {
      if Above(f, x, r) {
        AboveIds(f, x, r);
      }
    }
    var c := Chain(f, r);
    forall i | 0 <= i < |c|
      ensures c[i] in t
    {
      assert c[i] in c;
    }
    forall i | 0 <= i < |p|
      ensures p[i] in t
    {
      assert p[i] in p;
    }
    OneOrder(t, p, c);
  }

  function ParentIn(f: Forest, p: nat, x: nat): nat
    requires x in Ids(f)
  {
    if x == f.id then p
    else if x in Ids(f.kids) then ParentIn(f.kids, f.id, x)
    else ParentIn(f.rest, p, x)
  }

  lemma {:induction false} ChainSteps(f: Forest, p: nat, r: nat)
    requires Distinct(f) && r in Ids(f)
    ensures var c := Chain(f, r);
      && c != [] && c[|c| - 1] == r && (forall i :: 0 <= i < |c| ==> c[i] in Ids(f))
      && ParentIn(f, p, c[0]) == p
      && forall i :: 0 < i < |c| ==> ParentIn(f, p, c[i]) == c[i - 1]
  {
    var c := Chain(f, r);
    if r == f.id {
    } else if r in Ids(f.kids) {
      ChainSteps(f.kids, f.id, r);
      var d := Chain(f.kids, r);
      assert forall i :: 0 < i < |c| ==> c[i] == d[i - 1];
    } else {
      ChainSteps(f.rest, p, r);
    }
  }

  /** The migrated paths are those of one tree, as later additions and moves need them. */
  lemma MigratedIsTree(root: nat, kids: Forest)
    requires Distinct(Node(root, kids, Nil))
    ensures var f := Node(root, kids, Nil);
      AclPaths.TreePaths(map r | r in Ids(f) :: Chain(f, r), map x | x in Ids(kids) :: ParentIn(kids, root, x), root)
  {
    var f := Node(root, kids, Nil);
    var t := map r | r in Ids(f) :: Chain(f, r);
    var parent := map x | x in Ids(kids) :: ParentIn(kids, root, x);
    forall r | r in t
      ensures AclPaths.IsChain(parent, root, r, t[r]) && forall x :: x in t[r] ==> x in t
    {
      if r != root {
        ChainSteps(kids, root, r);
        var d := Chain(kids, r);
        var c := t[r];
        assert c == [root] + d;
        forall i | 0 < i < |c|
          ensures c[i] in parent && parent[c[i]] == c[i - 1]
        {
          assert c[i] == d[i - 1];
        }
      }
    }
  }
}
