/** The UPDATE statements of limestone/dbms_principal.c with their columns scoped as SQL does,
    not as the comments beside them say. */
module GroupsAsWritten {
  import opened Common
  import opened Groups
  import opened GroupRuns

  function ParentRows(t: Counts, grp: int): set<(int, int)> {
    set k | k in t && k.1 == grp
  }

  function MemberRows(t: Counts, prin: int): set<(int, int)> {
    set k | k in t && k.0 == prin
  }

  /** COALESCE of a scalar subquery over these rows, 1 when there is none. */
  ghost function Scalar(t: Counts, rows: set<(int, int)>): int
    requires rows <= t.Keys
  {
    if rows == {} then 1 else var k :| k in rows; t[k]
  }

  /** In the UPDATEs as written, the unqualified columns of the subqueries belong to the
      subqueries' own table, so the subqueries range over every parent row and every
      member row.  The database refuses a scalar subquery of several rows; it
      evaluates one only for a row that is updated. */
  ghost function UpdatedAsWritten(t: Counts, grp: int, prin: int, sign: int): Option<Counts> {
    var up, down := ParentRows(t, grp), MemberRows(t, prin);
    if NothingTouched(t, grp, prin) then Some(t)
    else if |up| > 1 || |down| > 1 then None
    else
      var product := Scalar(t, up) * Scalar(t, down);
      Some(map k | k in t :: if Touched(t, grp, prin, k) then t[k] + sign * product else t[k])
  }

  predicate WrittenFormSafe(t: Counts, grp: int, prin: int) {
    var up, down := ParentRows(t, grp), MemberRows(t, prin);
    NothingTouched(t, grp, prin) ||
    (|up| <= 1 && |down| <= 1 &&
     forall k :: k in t && Touched(t, grp, prin, k) ==>
       (k.0 == grp ==> forall u :: u in up ==> t[u] == 1) && (k.1 == prin ==> forall d :: d in down ==> t[d] == 1))
  }

  lemma SingleRow(t: Counts, rows: set<(int, int)>, k: (int, int))
    requires rows <= t.Keys && |rows| <= 1 && k in rows
    ensures Scalar(t, rows) == t[k] && forall u :: u in rows ==> u == k
  {
    assert |rows - {k}| == 0;
    assert rows == {k};
  }

  lemma ProductsEqual(x: int, a: int, y: int, b: int)
    requires (x == a || x == 1) && (y == b || y == 1) && a > 0 && b > 0
    ensures x * y == a * b <==> x == a && y == b
  {
  }

  /** For a touched row, the factors meant are either those of the single rows or 1. */
  lemma WrittenFactors(t: Counts, grp: int, prin: int, k: (int, int))
    requires (grp, grp) !in t && (prin, prin) !in t && forall k :: k in t ==> t[k] > 0
    requires |ParentRows(t, grp)| <= 1 && |MemberRows(t, prin)| <= 1
    requires k in t && Touched(t, grp, prin, k)
    ensures Scalar(t, ParentRows(t, grp)) * Scalar(t, MemberRows(t, prin)) == Through(t, grp, prin, k) <==>
      (k.0 == grp ==> forall u :: u in ParentRows(t, grp) ==> t[u] == 1) &&
      (k.1 == prin ==> forall d :: d in MemberRows(t, prin) ==> t[d] == 1)
  {
    var up, down := ParentRows(t, grp), MemberRows(t, prin);
    var x, y := CountOr1(t, k.0, grp), CountOr1(t, prin, k.1);
    var a, b := Scalar(t, up), Scalar(t, down);
    if k.0 != grp {
      assert (k.0, grp) in up;
      SingleRow(t, up, (k.0, grp));
    } else if up != {} {
      var u := Pick(up);
      SingleRow(t, up, u);
    }
    if k.1 != prin {
      assert (prin, k.1) in down;
      SingleRow(t, down, (prin, k.1));
    } else if down != {} {
      var d := Pick(down);
      SingleRow(t, down, d);
    }
    ProductsEqual(x, a, y, b);
  }

  /** The statement as written does what its comments say exactly when no cached pair
      is touched, or each side has one row at most and its count fits. */
  lemma WrittenFormRightIff(ms: Members, t: Counts, grp: int, prin: int, sign: int)
    requires Exact(ms, t) && Acyclic(ms) && sign != 0
    ensures UpdatedAsWritten(t, grp, prin, sign) == Some(Updated(t, grp, prin, sign)) <==> WrittenFormSafe(t, grp, prin)
  {
    RowIffConnected(ms, t, grp, grp);
    RowIffConnected(ms, t, prin, prin);
    forall k | k in t
      ensures t[k] > 0
    {
      assert k == (k.0, k.1);
      RowIffConnected(ms, t, k.0, k.1);
    }
    var up, down := ParentRows(t, grp), MemberRows(t, prin);
    if NothingTouched(t, grp, prin) {
      assert Updated(t, grp, prin, sign) == t;
    } else if |up| <= 1 && |down| <= 1 {
      var w := UpdatedAsWritten(t, grp, prin, sign).value;
      var u := Updated(t, grp, prin, sign);
      forall k | k in t
        ensures w[k] == u[k] <==> (Touched(t, grp, prin, k) ==>
          (k.0 == grp ==> forall r :: r in up ==> t[r] == 1) && (k.1 == prin ==> forall d :: d in down ==> t[d] == 1))
      {
        if Touched(t, grp, prin, k) {
          WrittenFactors(t, grp, prin, k);
          SignedEqual(sign, Scalar(t, up) * Scalar(t, down), Through(t, grp, prin, k));
        }
      }
      assert w == u <==> forall k :: k in t ==> w[k] == u[k];
    }
  }

  lemma SignedEqual(sign: int, x: int, y: int)
    requires sign != 0
    ensures sign * x == sign * y <==> x == y
  {
  }

  /** dbms_add_prin_to_grp_xitively with its UPDATE as written. */
  ghost function AddedAsWritten(t: Counts, grp: int, prin: int): Option<Counts> {
    var u := UpdatedAsWritten(t, grp, prin, 1);
    if u == None then None else Some(Inserted(u.value, grp, prin))
  }

  ghost function RemovedAsWritten(t: Counts, grp: int, prin: int): Option<Counts> {
    var u := UpdatedAsWritten(t, grp, prin, -1);
    if u == None then None else Some(Swept(u.value, grp, prin))
  }

  ghost predicate LeavesExact(ms: Members, t: Option<Counts>) {
    t.Some? && Exact(ms, t.value)
  }

  lemma Unequal(t: Counts, u: Counts) returns (k: (int, int))
    requires t.Keys == u.Keys && t != u
    ensures k in t && t[k] != u[k]
  {
    assert (forall k :: k in t ==> t[k] == u[k]) ==> t == u;
    k :| k in t && t[k] != u[k];
  }

  /** An accepted addition as written succeeds and leaves the counts right exactly under the
      condition for its UPDATE: the INSERT mends nothing. */
  lemma AddedAsWrittenIff(ms: Members, t: Counts, e: int, grp: int, prin: int)
    requires Exact(ms, t) && Acyclic(ms) && e !in ms && !WillLoop(t, grp, prin)
    ensures LeavesExact(ms[e := Edge(grp, prin)], AddedAsWritten(t, grp, prin)) <==> WrittenFormSafe(t, grp, prin)
  {
    var ms' := ms[e := Edge(grp, prin)];
    WillLoopIffConnected(ms, t, grp, prin);
    AddKeepsExact(ms, t, e, grp, prin);
    WrittenFormRightIff(ms, t, grp, prin, 1);
    var w, u := UpdatedAsWritten(t, grp, prin, 1), Updated(t, grp, prin, 1);
    if w.Some? && w.value != u {
      var k := Unequal(w.value, u);
      assert Inserted(w.value, grp, prin)[k] == w.value[k] && Inserted(u, grp, prin)[k] == u[k];
      if Exact(ms', Inserted(w.value, grp, prin)) {
        ExactTableUnique(ms', Inserted(w.value, grp, prin), Inserted(u, grp, prin));
      }
    }
  }

  lemma RemovedOnceAsWritten(ms: Members, t: Counts, grp: int, prin: int)
    requires Exact(ms, t) && Acyclic(ms) && |Recorded(ms, grp, prin)| == 1
    ensures LeavesExact(Unrecorded(ms, grp, prin), RemovedAsWritten(t, grp, prin)) <==> WrittenFormSafe(t, grp, prin)
  {
    var ms' := Unrecorded(ms, grp, prin);
    RemoveOnlyRow(ms, t, grp, prin);
    WrittenFormRightIff(ms, t, grp, prin, -1);
    var w, u := UpdatedAsWritten(t, grp, prin, -1), Updated(t, grp, prin, -1);
    if w.Some? && w.value != u {
      var k := Unequal(w.value, u);
      SameSides(t, u, grp, prin);
      SameSides(t, w.value, grp, prin);
      assert Touched(t, grp, prin, k);
      assert k in Swept(w.value, grp, prin) <==> w.value[k] != 0;
      assert k in Swept(u, grp, prin) <==> u[k] != 0;
      if Exact(ms', Swept(w.value, grp, prin)) {
        ExactTableUnique(ms', Swept(w.value, grp, prin), Swept(u, grp, prin));
      }
    }
  }

  // ------------------------------------------------ removals of any membership

  /** What pair k should lose for each row that records the membership. */
  function Share(t: Counts, grp: int, prin: int, k: (int, int)): int {
    if Touched(t, grp, prin, k) then Through(t, grp, prin, k) else 0
  }

  /** One row less: every pair loses its share, which stays as it was. */
  lemma OneRowLess(ms: Members, t: Counts, e: int, grp: int, prin: int, k: (int, int))
    requires e !in ms && Exact(ms[e := Edge(grp, prin)], t) && Acyclic(ms[e := Edge(grp, prin)])
    ensures Exact(ms, RemCounts(t, grp, prin)) && Acyclic(ms)
    ensures CountOr0(RemCounts(t, grp, prin), k) == CountOr0(t, k) - Share(t, grp, prin, k)
    ensures Share(RemCounts(t, grp, prin), grp, prin, k) == Share(t, grp, prin, k)
  {
    var ms' := ms[e := Edge(grp, prin)];
    SubAcyclic(ms, ms');
    AcyclicIffNotConnected(ms, e, grp, prin);
    RemKeepsExact(ms, t, e, grp, prin);
    NotBack(ms, e, grp, prin);
    SidesApart(ms', t, grp, prin);
    RemCountsAt(t, grp, prin, k);
    if Touched(t, grp, prin, k) {
      TouchedCached(ms', t, e, grp, prin, k);
    }
    ShareKept(t, grp, prin, k);
  }

  lemma NotBack(ms: Members, e: int, grp: int, prin: int)
    requires Acyclic(ms[e := Edge(grp, prin)])
    ensures !Connected(ms[e := Edge(grp, prin)], prin, grp)
  {
    var ms' := ms[e := Edge(grp, prin)];
    if Connected(ms', prin, grp) {
      var p :| IsPath(ms', prin, p, grp);
      assert ([e] + p)[1..] == p;
      assert IsPath(ms', grp, [e] + p, grp);
    }
  }

  /** What a recorded row touches is cached. */
  lemma TouchedCached(ms: Members, t: Counts, e: int, grp: int, prin: int, k: (int, int))
    requires Exact(ms, t) && Acyclic(ms) && e in ms && ms[e] == Edge(grp, prin) && Touched(t, grp, prin, k)
    ensures k in t
  {
    RowIffConnected(ms, t, k.0, grp);
    RowIffConnected(ms, t, prin, k.1);
    assert IsPath(ms, grp, [], grp) && IsPath(ms, prin, [], prin);
    var p :| IsPath(ms, k.0, p, grp);
    var q :| IsPath(ms, prin, q, k.1);
    assert ([e] + q)[1..] == q;
    assert IsPath(ms, grp, [e] + q, k.1);
    Join(ms, k.0, p, grp, [e] + q, k.1);
    var s := PathSet(ms, t, k.0, k.1);
    assert p + ([e] + q) in s && k == (k.0, k.1);
  }

  lemma ShareKept(t: Counts, grp: int, prin: int, k: (int, int))
    requires grp !in Below(t, prin) && prin !in Above(t, grp)
    ensures Share(RemCounts(t, grp, prin), grp, prin, k) == Share(t, grp, prin, k)
  {
    var u := RemCounts(t, grp, prin);
    forall a
      ensures (a, grp) in u <==> (a, grp) in t
      ensures (prin, a) in u <==> (prin, a) in t
      ensures CountOr1(u, a, grp) == CountOr1(t, a, grp) && CountOr1(u, prin, a) == CountOr1(t, prin, a)
    {
      assert !Touched(t, grp, prin, (a, grp)) && !Touched(t, grp, prin, (prin, a));
      RemCountsAt(t, grp, prin, (a, grp));
      RemCountsAt(t, grp, prin, (prin, a));
    }
    SidesFrom(t, u, grp, prin);
  }

  lemma SidesFrom(t: Counts, u: Counts, grp: int, prin: int)
    requires forall a :: (a, grp) in u <==> (a, grp) in t
    requires forall a :: (prin, a) in u <==> (prin, a) in t
    ensures Above(u, grp) == Above(t, grp) && Below(u, prin) == Below(t, prin)
  {
    AboveFrom(t, u, grp);
    AboveFrom(u, t, grp);
    BelowFrom(t, u, prin);
    BelowFrom(u, t, prin);
  }

  lemma AboveFrom(t: Counts, u: Counts, grp: int)
    requires forall a :: (a, grp) in u ==> (a, grp) in t
    ensures Above(u, grp) <= Above(t, grp)
  {
    forall a | a in Above(u, grp) && a != grp
      ensures a in Above(t, grp)
    {
      assert (a, grp) in u;
    }
  }

  lemma BelowFrom(t: Counts, u: Counts, prin: int)
    requires forall a :: (prin, a) in u ==> (prin, a) in t
    ensures Below(u, prin) <= Below(t, prin)
  {
    forall a | a in Below(u, prin) && a != prin
      ensures a in Below(t, prin)
    {
      assert (prin, a) in u;
    }
  }

  /** Without all the rows that record a membership, each pair has lost its share for each. */
  lemma {:induction false} AllRowsLess(ms: Members, t: Counts, grp: int, prin: int) returns (t0: Counts)
    requires Exact(ms, t) && Acyclic(ms)
    ensures Exact(Unrecorded(ms, grp, prin), t0)
    ensures forall k :: CountOr0(t0, k) == CountOr0(t, k) - |Recorded(ms, grp, prin)| * Share(t, grp, prin, k)
    decreases |Recorded(ms, grp, prin)|
  {
    var rows := Recorded(ms, grp, prin);
    if rows == {} {
      NoneRecorded(ms, grp, prin);
      t0 := t;
    } else {
      var e := Pick(rows);
      var ms1, t1 := WithoutRow(ms, e), RemCounts(t, grp, prin);
      OneRecordedLess(ms, e, grp, prin);
      OneRowLess(ms1, t, e, grp, prin, (grp, prin));
      t0 := AllRowsLess(ms1, t1, grp, prin);
      forall k
        ensures CountOr0(t0, k) == CountOr0(t, k) - |rows| * Share(t, grp, prin, k)
      {
        OneRowLess(ms1, t, e, grp, prin, k);
        assert CountOr0(t0, k) == CountOr0(t1, k) - |Recorded(ms1, grp, prin)| * Share(t1, grp, prin, k);
        OneMore(|rows|, Share(t, grp, prin, k));
      }
    }
  }

  lemma OneMore(n: int, c: int)
    ensures (n - 1) * c + c == n * c
  {
  }

  function WithoutRow(ms: Members, e: int): Members {
    map d | d in ms && d != e :: ms[d]
  }

  lemma OneRecordedLess(ms: Members, e: int, grp: int, prin: int)
    requires e in Recorded(ms, grp, prin)
    ensures WithoutRow(ms, e)[e := Edge(grp, prin)] == ms
    ensures |Recorded(WithoutRow(ms, e), grp, prin)| == |Recorded(ms, grp, prin)| - 1
    ensures Unrecorded(WithoutRow(ms, e), grp, prin) == Unrecorded(ms, grp, prin)
  {
    assert Recorded(WithoutRow(ms, e), grp, prin) == Recorded(ms, grp, prin) - {e};
  }

  lemma NoneRecorded(ms: Members, grp: int, prin: int)
    requires Recorded(ms, grp, prin) == {}
    ensures Unrecorded(ms, grp, prin) == ms
  {
    forall e | e in ms
      ensures ms[e] != Edge(grp, prin)
    {
      assert e !in Recorded(ms, grp, prin);
    }
  }

  /** What the removal as written takes off a touched pair. */
  lemma SweptAsWritten(t: Counts, grp: int, prin: int, k: (int, int))
    requires k in t && Touched(t, grp, prin, k) && UpdatedAsWritten(t, grp, prin, -1).Some?
    ensures |ParentRows(t, grp)| <= 1 && |MemberRows(t, prin)| <= 1
    ensures CountOr0(RemovedAsWritten(t, grp, prin).value, k) ==
      t[k] - Scalar(t, ParentRows(t, grp)) * Scalar(t, MemberRows(t, prin))
  {
    var w := UpdatedAsWritten(t, grp, prin, -1).value;
    SameSides(t, w, grp, prin);
  }

  /** As written, the removal of a membership recorded n times takes from every touched pair
      what it should lose only if n is 1. */
  lemma ParallelAsWritten(ms: Members, t: Counts, grp: int, prin: int)
    requires Exact(ms, t) && Acyclic(ms) && Recorded(ms, grp, prin) != {}
    requires LeavesExact(Unrecorded(ms, grp, prin), RemovedAsWritten(t, grp, prin))
    ensures |Recorded(ms, grp, prin)| == 1
  {
    var n := |Recorded(ms, grp, prin)|;
    var e := Pick(Recorded(ms, grp, prin));
    var t0 := AllRowsLess(ms, t, grp, prin);
    ExactTableUnique(Unrecorded(ms, grp, prin), t0, RemovedAsWritten(t, grp, prin).value);
    var up, down := ParentRows(t, grp), MemberRows(t, prin);
    RowIffConnected(ms, t, grp, grp);
    RowIffConnected(ms, t, prin, prin);
    ProductIs(ms, t, e, grp, prin, t0, (grp, prin));
    assert Scalar(t, up) * Scalar(t, down) == n * 1;
    if up != {} {
      var u := Pick(up);
      SingleRow(t, up, u);
      ProductIs(ms, t, e, grp, prin, t0, (u.0, prin));
      assert n * Scalar(t, up) == n * 1;
      Cancel(n, Scalar(t, up), 1);
    }
    if down != {} {
      var d := Pick(down);
      SingleRow(t, down, d);
      ProductIs(ms, t, e, grp, prin, t0, (grp, d.1));
      assert n * Scalar(t, down) == n * 1;
      Cancel(n, Scalar(t, down), 1);
    }
  }

  lemma Cancel(n: int, a: int, b: int)
    requires n > 0 && n * a == n * b
    ensures a == b
  {
  }

  lemma ProductIs(ms: Members, t: Counts, e: int, grp: int, prin: int, t0: Counts, k: (int, int))
    requires Exact(ms, t) && Acyclic(ms) && e in ms && ms[e] == Edge(grp, prin) && Touched(t, grp, prin, k)
    requires forall k :: CountOr0(t0, k) == CountOr0(t, k) - |Recorded(ms, grp, prin)| * Share(t, grp, prin, k)
    requires RemovedAsWritten(t, grp, prin) == Some(t0)
    ensures |ParentRows(t, grp)| <= 1 && |MemberRows(t, prin)| <= 1
    ensures Scalar(t, ParentRows(t, grp)) * Scalar(t, MemberRows(t, prin)) ==
      |Recorded(ms, grp, prin)| * Through(t, grp, prin, k)
  {
    TouchedCached(ms, t, e, grp, prin, k);
    SweptAsWritten(t, grp, prin, k);
  }

  lemma NoneRemovedAsWritten(ms: Members, t: Counts, grp: int, prin: int)
    requires Exact(ms, t) && Acyclic(ms) && Recorded(ms, grp, prin) == {}
    ensures LeavesExact(Unrecorded(ms, grp, prin), RemovedAsWritten(t, grp, prin)) <==> NothingTouched(t, grp, prin)
  {
    NoneRecorded(ms, grp, prin);
    if NothingTouched(t, grp, prin) {
      assert Swept(t, grp, prin) == t;
    } else if LeavesExact(ms, RemovedAsWritten(t, grp, prin)) {
      var k :| k in t && Touched(t, grp, prin, k);
      ExactTableUnique(ms, t, RemovedAsWritten(t, grp, prin).value);
      SweptAsWritten(t, grp, prin, k);
      ScalarPositive(ms, t, ParentRows(t, grp));
      ScalarPositive(ms, t, MemberRows(t, prin));
      PositiveProduct(Scalar(t, ParentRows(t, grp)), Scalar(t, MemberRows(t, prin)));
    }
  }

  lemma ScalarPositive(ms: Members, t: Counts, rows: set<(int, int)>)
    requires Exact(ms, t) && Acyclic(ms) && rows <= t.Keys
    ensures Scalar(t, rows) > 0
  {
    forall k | k in t
      ensures t[k] > 0
    {
      assert k == (k.0, k.1);
      RowIffConnected(ms, t, k.0, k.1);
    }
  }

  /** A removal as written leaves the counts right exactly when the removal is safe and its
      UPDATE is. */
  lemma RemovedAsWrittenIff(ms: Members, t: Counts, grp: int, prin: int)
    requires Exact(ms, t) && Acyclic(ms)
    ensures LeavesExact(Unrecorded(ms, grp, prin), RemovedAsWritten(t, grp, prin)) <==>
      RemovalSafe(ms, t, grp, prin) && WrittenFormSafe(t, grp, prin)
  {
    if Recorded(ms, grp, prin) == {} {
      NoneRemovedAsWritten(ms, t, grp, prin);
    } else if |Recorded(ms, grp, prin)| == 1 {
      RemovedOnceAsWritten(ms, t, grp, prin);
    } else if LeavesExact(Unrecorded(ms, grp, prin), RemovedAsWritten(t, grp, prin)) {
      ParallelAsWritten(ms, t, grp, prin);
    }
  }

  // ------------------------------------------------ runs with the statements as written

  ghost function ApplyAsWritten(s: Store, r: Request): Option<Store> {
    match r
    case Add(grp, prin) =>
      if Refused(s, grp, prin) then Some(s) else
      var t := AddedAsWritten(s.counts, grp, prin);
      if t == None then None else Some(Store(s.members[s.next := Edge(grp, prin)], t.value, s.next + 1))
    case Remove(grp, prin) =>
      var t := RemovedAsWritten(s.counts, grp, prin);
      if t == None then None else Some(Store(Unrecorded(s.members, grp, prin), t.value, s.next))
    case Delete(prin) => Some(Apply(s, r))
  }

  predicate WrittenStepSafe(s: Store, r: Request) {
    StepSafe(s, r) &&
    match r
    case Add(grp, prin) => Refused(s, grp, prin) || WrittenFormSafe(s.counts, grp, prin)
    case Remove(grp, prin) => WrittenFormSafe(s.counts, grp, prin)
    case Delete(prin) => true
  }

  ghost predicate LeavesSound(s: Option<Store>) {
    s.Some? && Sound(s.value)
  }

  /** A request as written succeeds and keeps the tables right exactly when it is safe; it
      then does what is intended. */
  lemma ApplyAsWrittenIff(s: Store, r: Request)
    requires Sound(s)
    ensures LeavesSound(ApplyAsWritten(s, r)) <==> WrittenStepSafe(s, r)
    ensures WrittenStepSafe(s, r) ==> ApplyAsWritten(s, r) == Some(Apply(s, r))
  {
    ApplySoundIff(s, r);
    match r
    case Add(grp, prin) =>
      if !Refused(s, grp, prin) {
        AddedAsWrittenIff(s.members, s.counts, s.next, grp, prin);
        WrittenFormRightIff(s.members, s.counts, grp, prin, 1);
      }
    case Remove(grp, prin) =>
      RemovedAsWrittenIff(s.members, s.counts, grp, prin);
      WrittenFormRightIff(s.members, s.counts, grp, prin, -1);
    case Delete(prin) =>
  }

  ghost function RunAsWritten(s: Store, rs: seq<Request>): Option<Store>
    decreases |rs|
  {
    if rs == [] then Some(s) else
    var t := ApplyAsWritten(s, rs[0]);
    if t == None then None else RunAsWritten(t.value, rs[1..])
  }

  ghost predicate SoundAsWritten(s: Store, rs: seq<Request>)
    decreases |rs|
  {
    Sound(s) && (rs == [] ||
      var t := ApplyAsWritten(s, rs[0]); t.Some? && SoundAsWritten(t.value, rs[1..]))
  }

  predicate WrittenStepsSafe(s: Store, rs: seq<Request>)
    decreases |rs|
  {
    rs == [] || (WrittenStepSafe(s, rs[0]) && WrittenStepsSafe(Apply(s, rs[0]), rs[1..]))
  }

  /** A run as written has right tables throughout exactly when each step is safe; it is then
      the run that is intended. */
  lemma {:induction false} RunAsWrittenIff(s: Store, rs: seq<Request>)
    requires Sound(s)
    ensures SoundAsWritten(s, rs) <==> WrittenStepsSafe(s, rs)
    ensures WrittenStepsSafe(s, rs) ==> RunAsWritten(s, rs) == Some(Run(s, rs)) && Sound(Run(s, rs))
    decreases |rs|
  {
    if rs != [] {
      ApplyAsWrittenIff(s, rs[0]);
      var t := ApplyAsWritten(s, rs[0]);
      if t.Some? && Sound(t.value) {
        RunAsWrittenIff(t.value, rs[1..]);
      }
    }
  }

  /** A principal with two members cannot be added, as written, to a group that already has
      one of them. */
  lemma TwoMembersRefused(ms: Members, t: Counts, grp: int, prin: int, x: int, y: int)
    requires Exact(ms, t) && Acyclic(ms) && x != y && prin != x && prin != y && grp != x
    requires Connected(ms, prin, x) && Connected(ms, prin, y) && Connected(ms, grp, x)
    ensures UpdatedAsWritten(t, grp, prin, 1) == None
  {
    RowIffConnected(ms, t, prin, x);
    RowIffConnected(ms, t, prin, y);
    RowIffConnected(ms, t, grp, x);
    var down := MemberRows(t, prin);
    Subsets({(prin, x), (prin, y)}, down);
    assert |{(prin, x), (prin, y)}| == 2;
    assert Touched(t, grp, prin, (grp, x));
  }

  lemma FlatNotConnected(ms: Members, g: int, m: int)
    requires Flat(ms) && g != m && forall e :: e in ms ==> ms[e] != Edge(g, m)
    ensures !Connected(ms, g, m)
  {
    forall p
      ensures !IsPath(ms, g, p, m)
    {
      if IsPath(ms, g, p, m) {
        FlatPath(ms, g, p, m);
      }
    }
  }

  lemma RowConnects(ms: Members, e: int)
    requires e in ms
    ensures Connected(ms, ms[e].group, ms[e].member)
  {
    assert IsPath(ms, ms[e].group, [e], ms[e].member);
  }

  /** 4 and 5 are in 3, and 4 is in 10. */
  ghost predicate ThreeRows(ms: Members) {
    && 1 in ms && 2 in ms && 5 in ms && (forall e :: e in ms ==> e == 1 || e == 2 || e == 5)
    && ms[1] == Edge(3, 4) && ms[2] == Edge(3, 5) && ms[5] == Edge(10, 4)
  }

  lemma SeedAndOne()
    ensures var s := Apply(SEED, Add(10, 4)); Sound(s) && ThreeRows(s.members)
  {
    SeedSound();
    SwappedTestIsIdle(SEED, 10, 4);
    var ms := SEED.members[5 := Edge(10, 4)];
    assert ThreeRows(ms);
    FlatAcyclic(ms);
    ApplySoundIff(SEED, Add(10, 4));
  }

  lemma ThreeRowsRefused(s: Store)
    requires Sound(s) && ThreeRows(s.members)
    ensures !Refused(s, 10, 3) && UpdatedAsWritten(s.counts, 10, 3, 1) == None
  {
    var ms := s.members;
    FlatNotConnected(ms, 3, 10);
    WillLoopIffConnected(ms, s.counts, 10, 3);
    RowConnects(ms, 1);
    RowConnects(ms, 2);
    RowConnects(ms, 5);
    TwoMembersRefused(ms, s.counts, 10, 3, 4, 5);
  }

  /** From the seed: once 4 is in 10, the UPDATE as written fails for adding 3 to 10, which
      would make no cycle. */
  lemma WrittenFormRefuses()
    ensures var s := Apply(SEED, Add(10, 4));
      && Sound(s) && ThreeRows(s.members)
      && !Refused(s, 10, 3) && UpdatedAsWritten(s.counts, 10, 3, 1) == None
  {
    SeedAndOne();
    ThreeRowsRefused(Apply(SEED, Add(10, 4)));
  }
}
