/** Requests on the group tables, and what every run of them keeps
    (limestone/principal.c, and the foreign keys on principals). */
module GroupRuns {
  import opened Common
  import opened Groups

  datatype Store = Store(members: Members, counts: Counts, next: int)

  datatype Outcome = Done | Conflict

  datatype Request = Add(grp: int, prin: int) | Remove(grp: int, prin: int) | Delete(prin: int)

  /** dbms_is_prin_in_grp */
  predicate InGroup(ms: Members, prin: int, grp: int) {
    exists e :: e in ms && ms[e] == Edge(grp, prin)
  }

  /** Whether sabridge_add_prin_to_grp refuses.  It passes its two ids to
      dbms_is_prin_in_grp in the wrong order, so its first test asks whether the
      group is already a member of the principal. */
  predicate Refused(s: Store, grp: int, prin: int) {
    InGroup(s.members, grp, prin) || WillLoop(s.counts, grp, prin)
  }

  function Apply(s: Store, r: Request): Store {
    match r
    case Add(grp, prin) =>
      if Refused(s, grp, prin) then s
      else Store(s.members[s.next := Edge(grp, prin)], AddCounts(s.counts, grp, prin), s.next + 1)
    case Remove(grp, prin) =>
      Store(Unrecorded(s.members, grp, prin), RemCounts(s.counts, grp, prin), s.next)
    case Delete(prin) =>
      Store(WithoutPrincipal(s.members, prin), CountsWithout(s.counts, prin), s.next)
  }

  ghost predicate Sound(s: Store) {
    Exact(s.members, s.counts) && Acyclic(s.members) && forall e :: e in s.members ==> e < s.next
  }

  /** The swapped test never refuses what the loop check would accept: it is idle,
      and a membership can be recorded twice. */
  lemma SwappedTestIsIdle(s: Store, grp: int, prin: int)
    requires Sound(s)
    ensures Refused(s, grp, prin) <==> !Acyclic(s.members[s.next := Edge(grp, prin)])
  {
    LoopCheckExact(s.members, s.counts, s.next, grp, prin);
    if InGroup(s.members, grp, prin) {
      var e :| e in s.members && s.members[e] == Edge(prin, grp);
      assert IsPath(s.members, prin, [e], grp);
      WillLoopIffConnected(s.members, s.counts, grp, prin);
    }
  }

  /** The conditions of RemovalRightIff and DeletionRightIff. */
  predicate StepSafe(s: Store, r: Request) {
    match r
    case Add(grp, prin) => true
    case Remove(grp, prin) => RemovalSafe(s.members, s.counts, grp, prin)
    case Delete(prin) => DeletionSafe(s.counts, prin)
  }

  /** A step keeps the tables right exactly when it is safe. */
  lemma ApplySoundIff(s: Store, r: Request)
    requires Sound(s)
    ensures Sound(Apply(s, r)) <==> StepSafe(s, r)
  {
    match r
    case Add(grp, prin) =>
      if !Refused(s, grp, prin) {
        SwappedTestIsIdle(s, grp, prin);
        AcyclicIffNotConnected(s.members, s.next, grp, prin);
        AddKeepsExact(s.members, s.counts, s.next, grp, prin);
      }
    case Remove(grp, prin) =>
      RemovalRightIff(s.members, s.counts, grp, prin);
      SubAcyclic(Unrecorded(s.members, grp, prin), s.members);
    case Delete(prin) =>
      DeletionRightIff(s.members, s.counts, prin);
  }

  function Run(s: Store, rs: seq<Request>): Store
    decreases |rs|
  {
    if rs == [] then s else Run(Apply(s, rs[0]), rs[1..])
  }

  predicate StepsSafe(s: Store, rs: seq<Request>)
    decreases |rs|
  {
    rs == [] || (StepSafe(s, rs[0]) && StepsSafe(Apply(s, rs[0]), rs[1..]))
  }

  /** Sound from the first state to the last. */
  ghost predicate SoundThroughout(s: Store, rs: seq<Request>)
    decreases |rs|
  {
    Sound(s) && (rs == [] || SoundThroughout(Apply(s, rs[0]), rs[1..]))
  }

  lemma {:induction false} RunSoundIff(s: Store, rs: seq<Request>)
    requires Sound(s)
    ensures SoundThroughout(s, rs) <==> StepsSafe(s, rs)
    ensures StepsSafe(s, rs) ==> Sound(Run(s, rs))
    decreases |rs|
  {
    if rs != [] {
      ApplySoundIff(s, rs[0]);
      if StepSafe(s, rs[0]) {
        RunSoundIff(Apply(s, rs[0]), rs[1..]);
      }
    }
  }

  /** The tables as create_postgres_full.sql leaves them: 4 and 5 are members of 3. */
  const SEED: Store := Store(map[1 := Edge(3, 4), 2 := Edge(3, 5)], map[(3, 4) := 1, (3, 5) := 1], 5)

  /** No member is a group, so that every path is one row. */
  ghost predicate Flat(ms: Members) {
    forall d, e :: d in ms && e in ms ==> ms[d].member != ms[e].group
  }

  lemma FirstRow(ms: Members, g: int, p: seq<int>, m: int) returns (e: int)
    requires p != [] && IsPath(ms, g, p, m)
    ensures e == p[0] && e in ms && ms[e].group == g && IsPath(ms, ms[e].member, p[1..], m)
  {
    e := p[0];
  }

  lemma FlatPath(ms: Members, g: int, p: seq<int>, m: int)
    requires Flat(ms) && IsPath(ms, g, p, m)
    ensures p == [] || exists e :: e in ms && ms[e] == Edge(g, m) && p == [e]
  {
    if p != [] {
      var e := FirstRow(ms, g, p, m);
      if p[1..] != [] {
        var d := FirstRow(ms, ms[e].member, p[1..], m);
        assert false;
      }
      assert p == [e];
    }
  }

  lemma FlatAcyclic(ms: Members)
    requires Flat(ms)
    ensures Acyclic(ms)
  {
    forall g, p | IsPath(ms, g, p, g)
      ensures p == []
    {
      FlatPath(ms, g, p, g);
    }
  }

  lemma SeedSound()
    ensures Sound(SEED)
  {
    var ms, t := SEED.members, SEED.counts;
    FlatAcyclic(ms);
    forall g, m
      ensures Right(ms, t, g, m)
    {
      var s: set<seq<int>> := if (g, m) == (3, 4) then {[1]} else if (g, m) == (3, 5) then {[2]} else {};
      forall p
        ensures p in s <==> p != [] && IsPath(ms, g, p, m)
      {
        if IsPath(ms, g, p, m) {
          FlatPath(ms, g, p, m);
        }
      }
      assert AllPaths(ms, g, m, s);
    }
  }

  /** What the intended test and the callers see to: only new memberships are added, only
      recorded ones removed, and no principal deleted that has both groups and members. */
  ghost predicate Intended(s: Store, rs: seq<Request>)
    decreases |rs|
  {
    rs == [] || (IntendedStep(s, rs[0]) && Intended(Apply(s, rs[0]), rs[1..]))
  }

  ghost predicate IntendedStep(s: Store, r: Request) {
    match r
    case Add(grp, prin) => Recorded(s.members, grp, prin) == {}
    case Remove(grp, prin) => Recorded(s.members, grp, prin) != {}
    case Delete(prin) => forall d, e :: d in s.members && e in s.members ==>
      !(s.members[d].member == prin && s.members[e].group == prin)
  }

  lemma LastRow(ms: Members, g: int, p: seq<int>, m: int) returns (e: int)
    requires p != [] && IsPath(ms, g, p, m)
    ensures e in ms && ms[e].member == m
    decreases |p|
  {
    e := FirstRow(ms, g, p, m);
    if p[1..] != [] {
      e := LastRow(ms, ms[e].member, p[1..], m);
    }
  }

  /** Without both groups and members nothing is cached through a principal. */
  lemma IntendedDeletion(s: Store, x: int)
    requires Sound(s) && IntendedStep(s, Delete(x))
    ensures DeletionSafe(s.counts, x)
  {
    forall k, l | k in s.counts && l in s.counts
      ensures !(k.1 == x && l.0 == x)
    {
      if k.1 == x && l.0 == x {
        assert k == (k.0, x) && l == (x, l.1);
        RowIffConnected(s.members, s.counts, k.0, x);
        RowIffConnected(s.members, s.counts, x, l.1);
        var p :| IsPath(s.members, k.0, p, x);
        var q :| IsPath(s.members, x, q, l.1);
        var d := LastRow(s.members, k.0, p, x);
        var e := FirstRow(s.members, x, q, l.1);
        assert false;
      }
    }
  }

  ghost predicate RecordedOnce(ms: Members) {
    forall d, e :: d in ms && e in ms && ms[d] == ms[e] ==> d == e
  }

  lemma RecordedOnceCount(ms: Members, grp: int, prin: int)
    requires RecordedOnce(ms) && Recorded(ms, grp, prin) != {}
    ensures |Recorded(ms, grp, prin)| == 1
  {
    var rows := Recorded(ms, grp, prin);
    var e := Pick(rows);
    forall d | d in rows
      ensures d == e
    {
    }
    assert rows == {e};
  }

  lemma IntendedStepKeeps(s: Store, r: Request)
    requires Sound(s) && RecordedOnce(s.members) && IntendedStep(s, r)
    ensures Sound(Apply(s, r)) && RecordedOnce(Apply(s, r).members)
  {
    ApplySoundIff(s, r);
    match r
    case Add(grp, prin) =>
      forall e | e in s.members
        ensures s.members[e] != Edge(grp, prin)
      {
        assert e !in Recorded(s.members, grp, prin);
      }
    case Remove(grp, prin) => RecordedOnceCount(s.members, grp, prin);
    case Delete(prin) => IntendedDeletion(s, prin);
  }

  lemma {:induction false} IntendedRunSound(s: Store, rs: seq<Request>)
    requires Sound(s) && RecordedOnce(s.members) && Intended(s, rs)
    ensures Sound(Run(s, rs)) && RecordedOnce(Run(s, rs).members)
    decreases |rs|
  {
    if rs != [] {
      IntendedStepKeeps(s, rs[0]);
      IntendedRunSound(Apply(s, rs[0]), rs[1..]);
    }
  }

  /** From the seed, over every such run: the cached counts are exactly the numbers of
      membership paths, and the memberships never form a cycle. */
  lemma CountsAreExactInEveryRun(rs: seq<Request>)
    requires Intended(SEED, rs)
    ensures Sound(Run(SEED, rs))
  {
    SeedSound();
    IntendedRunSound(SEED, rs);
  }

  lemma UnrecordedAgain(ms: Members, e: int, grp: int, prin: int)
    requires Recorded(ms, grp, prin) == {} && e !in ms
    ensures Unrecorded(ms[e := Edge(grp, prin)], grp, prin) == ms
    ensures Recorded(ms[e := Edge(grp, prin)], grp, prin) == {e}
  {
    forall d | d in ms
      ensures ms[d] != Edge(grp, prin)
    {
      assert d !in Recorded(ms, grp, prin);
    }
  }

  /** Removing right after an accepted addition restores both tables. */
  lemma RemoveUndoesAdd(s: Store, grp: int, prin: int)
    requires Sound(s) && Recorded(s.members, grp, prin) == {} && !Refused(s, grp, prin)
    ensures var s' := Apply(Apply(s, Add(grp, prin)), Remove(grp, prin));
      s'.members == s.members && s'.counts == s.counts
  {
    var s1 := Apply(s, Add(grp, prin));
    var s' := Apply(s1, Remove(grp, prin));
    UnrecordedAgain(s.members, s.next, grp, prin);
    ApplySoundIff(s, Add(grp, prin));
    ApplySoundIff(s1, Remove(grp, prin));
    ExactTableUnique(s.members, s'.counts, s.counts);
  }

  /** With the test as written, a membership can be recorded a second time; one removal
      then deletes both rows but takes only one path off the count. */
  lemma AddTwiceRemoveOnce(s: Store, grp: int, prin: int)
    requires Sound(s) && Recorded(s.members, grp, prin) != {} && !Refused(s, grp, prin)
    ensures var s' := Apply(Apply(s, Add(grp, prin)), Remove(grp, prin));
      Recorded(s'.members, grp, prin) == {} && (grp, prin) in s'.counts && !Sound(s')
  {
    var s1 := Apply(s, Add(grp, prin));
    ApplySoundIff(s, Add(grp, prin));
    var e := Pick(Recorded(s.members, grp, prin));
    assert e in Recorded(s1.members, grp, prin) && s.next in Recorded(s1.members, grp, prin);
    RemoveParallelRows(s1.members, s1.counts, grp, prin, e, s.next);
  }

  /** In the seed, 4 is in group 3, and adding it again is accepted. */
  lemma SeedMemberAddedTwice()
    ensures Recorded(SEED.members, 3, 4) != {} && !Refused(SEED, 3, 4)
  {
    SeedSound();
    assert 1 in Recorded(SEED.members, 3, 4);
    forall p
      ensures !IsPath(SEED.members, 4, p, 3)
    {
      if IsPath(SEED.members, 4, p, 3) {
        FlatPath(SEED.members, 4, p, 3);
      }
    }
    WillLoopIffConnected(SEED.members, SEED.counts, 3, 4);
  }

  /** From the seed: once 3, with its members 4 and 5, is in 10, deleting 3 leaves the
      counts of 4 and 5 in 10. */
  lemma SeedGroupDeleted()
    ensures var s := Apply(SEED, Add(10, 3)); Sound(s) && !Sound(Apply(s, Delete(3)))
  {
    SeedSound();
    FlatAcyclic(SEED.members);
    forall p
      ensures !IsPath(SEED.members, 3, p, 10)
    {
      if IsPath(SEED.members, 3, p, 10) {
        FlatPath(SEED.members, 3, p, 10);
      }
    }
    WillLoopIffConnected(SEED.members, SEED.counts, 10, 3);
    ApplySoundIff(SEED, Add(10, 3));
    var s := Apply(SEED, Add(10, 3));
    assert s.members[5] == Edge(10, 3) && s.members[1] == Edge(3, 4);
    assert IsPath(s.members, 10, [5], 3) && IsPath(s.members, 3, [1], 4);
    RowIffConnected(s.members, s.counts, 10, 3);
    RowIffConnected(s.members, s.counts, 3, 4);
    ApplySoundIff(s, Delete(3));
  }

  // ------------------------------------------------ the tables and their methods

  class GroupTables {
    var members: Members
    var counts: Counts
    var next: int

    ghost function State(): Store
      reads this
    {
      Store(members, counts, next)
    }

    constructor ()
      ensures State() == SEED && Sound(State())
    {
      members, counts, next := SEED.members, SEED.counts, SEED.next;
      new;
      SeedSound();
      assert State() == SEED;
    }

    method IsPrinInGrp(prin: int, grp: int) returns (b: bool)
      ensures b <==> InGroup(members, prin, grp)
    {
      b := Recorded(members, grp, prin) != {};
      if b {
        var e := Pick(Recorded(members, grp, prin));
        assert e in members && members[e] == Edge(grp, prin);
      } else {
        forall e | e in members
          ensures members[e] != Edge(grp, prin)
        {
          assert e !in Recorded(members, grp, prin);
        }
      }
    }

    method WillLoopPrinAddGrp(grp: int, prin: int) returns (b: bool)
      ensures b <==> WillLoop(counts, grp, prin)
      ensures Sound(State()) ==> (b <==> !Acyclic(members[next := Edge(grp, prin)]))
    {
      var above, below := Above(Positive(counts), grp), Below(Positive(counts), prin);
      b := above * below != {};
      if b {
        var c := Pick(above * below);
        assert c in above && c in below;
      } else {
        forall c | c in above
          ensures c !in below
        {
          assert c !in above * below;
        }
      }
      if Sound(State()) {
        LoopCheckExact(members, counts, next, grp, prin);
      }
    }

    method AddPrinToGroup(grp: int, prin: int)
      modifies this`members, this`next
      ensures members == old(members)[old(next) := Edge(grp, prin)] && next == old(next) + 1
    {
      members, next := members[next := Edge(grp, prin)], next + 1;
    }

    method AddPrinToGrpXitively(grp: int, prin: int)
      modifies this`counts
      ensures counts == AddCounts(old(counts), grp, prin)
    {
      counts := Updated(counts, grp, prin, 1);
      counts := Inserted(counts, grp, prin);
    }

    method RemPrinFrmGrpXitively(grp: int, prin: int)
      modifies this`counts
      ensures counts == RemCounts(old(counts), grp, prin)
    {
      counts := Updated(counts, grp, prin, -1);
      counts := Swept(counts, grp, prin);
    }

    /** sabridge_add_prin_to_grp */
    method AddPrinToGrp(grp: int, prin: int) returns (res: Outcome)
      modifies this
      ensures State() == Apply(old(State()), Add(grp, prin))
      ensures old(Sound(State())) ==>
        Sound(State()) && (res == Done <==> Acyclic(old(members)[old(next) := Edge(grp, prin)]))
      ensures res == Conflict ==> State() == old(State())
      ensures res == Done ==> members == old(members)[old(next) := Edge(grp, prin)] && next == old(next) + 1
    {
      ghost var s := State();
      if Sound(s) {
        SwappedTestIsIdle(s, grp, prin);
        ApplySoundIff(s, Add(grp, prin));
      }
      var already := IsPrinInGrp(grp, prin);
      if already {
        return Conflict;
      }
      var loops := WillLoopPrinAddGrp(grp, prin);
      if loops {
        return Conflict;
      }
      AddPrinToGroup(grp, prin);
      AddPrinToGrpXitively(grp, prin);
      res := Done;
    }

    /** sabridge_rem_prin_frm_grp: it does not look whether the membership is there. */
    method RemPrinFrmGrp(grp: int, prin: int)
      modifies this
      ensures State() == Apply(old(State()), Remove(grp, prin))
      ensures old(Sound(State())) ==> (Sound(State()) <==> old(RemovalSafe(members, counts, grp, prin)))
      ensures forall e :: e in members <==> e in old(members) && old(members)[e] != Edge(grp, prin)
      ensures forall e :: e in members ==> members[e] == old(members)[e]
    {
      ghost var s := State();
      if Sound(s) {
        RemovalRightIff(members, counts, grp, prin);
        SubAcyclic(Unrecorded(members, grp, prin), members);
      }
      members := Unrecorded(members, grp, prin);
      RemPrinFrmGrpXitively(grp, prin);
    }

    /** What the foreign keys do when the resource of a principal is deleted. */
    method CascadePrincipal(prin: int)
      modifies this
      ensures State() == Apply(old(State()), Delete(prin))
      ensures old(Sound(State())) ==> (Sound(State()) <==> old(DeletionSafe(counts, prin)))
      ensures forall e :: e in members <==>
        e in old(members) && old(members)[e].group != prin && old(members)[e].member != prin
      ensures forall k :: k in counts <==> k in old(counts) && k.0 != prin && k.1 != prin
      ensures (forall e :: e in members ==> members[e] == old(members)[e]) &&
        forall k :: k in counts ==> counts[k] == old(counts)[k]
    {
      ghost var s := State();
      if Sound(s) {
        ApplySoundIff(s, Delete(prin));
      }
      members, counts := WithoutPrincipal(members, prin), CountsWithout(counts, prin);
    }
  }
}
