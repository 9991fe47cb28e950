/** Version control of single resources: version-control, checkout, checkin and uncheckout
    (limestone/version.c, limestone/deltav_bridge.c, limestone/dbms_deltav.c; sections 4.3
    to 4.5 of RFC 3253), inside transactions whose constraints are deferred. */
module Versions {
  import opened Common

  type Id = nat

  /** What copying a medium copies: display name, body and dead properties. */
  type Content = string

  /** A row of vcrs. */
  datatype Vcr = Vcr(checkedIn: bool, checkedId: Id, vhr: Id)

  /** A row of versions. */
  datatype Version = Version(number: nat, vcr: Id, vhr: Id)

  /** resources with what they hold, vcrs, versions and vhrs (the root version of each
      history).  The type of a resource says which of the last three tables has a row for
      it; a regular resource without one is not under version control. */
  datatype State = State(
    contents: map<Id, Content>, vcrs: map<Id, Vcr>, versions: map<Id, Version>, vhrs: map<Id, Id>, next: Id)

  /** A regular resource: neither a version nor a history. */
  predicate Regular(s: State, r: Id) {
    r in s.contents && r !in s.versions && r !in s.vhrs
  }

  /** How many versions r has, read off the version it is checked in or out at. */
  function Latest(s: State, r: Id): nat
    requires r in s.vcrs
  {
    var c := s.vcrs[r].checkedId;
    if c in s.versions then s.versions[c].number else 0
  }

  predicate IsVersion(rows: map<Id, Version>, v: Id, r: Id, number: int) {
    v in rows && rows[v].vcr == r && rows[v].number == number
  }

  ghost predicate HasVersion(rows: map<Id, Version>, r: Id, number: int) {
    exists v :: IsVersion(rows, v, r, number)
  }

  predicate HistoryOf(rows: map<Id, Vcr>, h: Id, r: Id) {
    r in rows && rows[r].vhr == h
  }

  // ---------------------------------------------------------------- what every request keeps

  predicate Typed(s: State) {
    && 0 < s.next
    && (forall i :: i in s.contents ==> 0 < i < s.next)
    && (forall r :: r in s.vcrs ==> Regular(s, r))
    && (forall v :: v in s.versions ==> v in s.contents && v !in s.vhrs)
    && (forall h :: h in s.vhrs ==> h in s.contents)
  }

  /** Each resource under version control has a history of its own. */
  ghost predicate OwnHistory(vcrs: map<Id, Vcr>, versions: map<Id, Version>) {
    && (forall q, r, h :: HistoryOf(vcrs, h, q) && HistoryOf(vcrs, h, r) ==> q == r)
    && (forall v :: v in versions ==> HistoryOf(vcrs, versions[v].vhr, versions[v].vcr))
  }

  /** The versions of r are numbered 1, 2, ..., n, each number once. */
  ghost predicate Numbered(versions: map<Id, Version>, r: Id, n: nat) {
    && (forall v, k :: IsVersion(versions, v, r, k) ==> 1 <= k <= n)
    && (forall v, w, k :: IsVersion(versions, v, r, k) && IsVersion(versions, w, r, k) ==> v == w)
    && (forall k :: 1 <= k <= n ==> HasVersion(versions, r, k))
  }

  /** The checked version is version n; a resource that is checked in equals it; the root
      version is version 1.  Before its first checkin an auto-created resource stands in for
      both, as its own "version 0". */
  predicate CheckedOf(s: State, r: Id)
    requires r in s.vcrs && r in s.contents && s.versions.Keys <= s.contents.Keys
  {
    var row := s.vcrs[r];
    row.vhr in s.vhrs &&
    if Latest(s, r) == 0 then row.checkedId == r && s.vhrs[row.vhr] == r
    else
      && IsVersion(s.versions, row.checkedId, r, Latest(s, r))
      && IsVersion(s.versions, s.vhrs[row.vhr], r, 1)
      && (row.checkedIn ==> s.contents[r] == s.contents[row.checkedId])
  }

  ghost predicate Sound(s: State) {
    && Typed(s)
    && OwnHistory(s.vcrs, s.versions)
    && forall r :: r in s.vcrs ==> Numbered(s.versions, r, Latest(s, r)) && CheckedOf(s, r)
  }

  /** No version is lost, renumbered or overwritten. */
  predicate Kept(s: State, t: State) {
    forall v :: v in s.versions && v in s.contents ==>
      v in t.versions && t.versions[v] == s.versions[v] && v in t.contents && t.contents[v] == s.contents[v]
  }

  // ---------------------------------------------------------------- the requests

  datatype Request =
    | Create(content: Content)
    | Write(r: Id, content: Content)
    | VersionControl(r: Id)
    | AutoCreate(content: Content)
    | Checkout(r: Id)
    | Uncheckout(r: Id)
    | Checkin(r: Id)

  function Created(s: State, content: Content): State {
    s.(contents := s.contents[s.next := content], next := s.next + 1)
  }

  /** A body is replaced while the resource is not checked in. */
  function Written(s: State, r: Id, content: Content): State {
    if Regular(s, r) && (r in s.vcrs ==> !s.vcrs[r].checkedIn)
    then s.(contents := s.contents[r := content])
    else s
  }

  /** sabridge_vsn_control, without and with auto_version. */
  function Controlled(s: State, r: Id, auto: bool): State {
    if !Regular(s, r) || r in s.vcrs then s
    else
      var h := s.next;
      if auto then
        s.(contents := s.contents[h := ""], vhrs := s.vhrs[h := r], vcrs := s.vcrs[r := Vcr(true, r, h)], next := h + 1)
      else
        var v := h + 1;
        s.(contents := s.contents[h := ""][v := s.contents[r]],
           vhrs := s.vhrs[h := v], versions := s.versions[v := Version(1, r, h)],
           vcrs := s.vcrs[r := Vcr(true, v, h)], next := v + 1)
  }

  function CheckedOut(s: State, r: Id): State {
    if r in s.vcrs && s.vcrs[r].checkedIn then s.(vcrs := s.vcrs[r := s.vcrs[r].(checkedIn := false)]) else s
  }

  function CheckedIn(s: State, r: Id): State {
    if r !in s.vcrs || s.vcrs[r].checkedIn || r !in s.contents then s
    else
      var v, n, h := s.next, Latest(s, r) + 1, s.vcrs[r].vhr;
      s.(contents := s.contents[v := s.contents[r]],
         vhrs := if n == 1 then s.vhrs[h := v] else s.vhrs,
         versions := s.versions[v := Version(n, r, h)],
         vcrs := s.vcrs[r := Vcr(true, v, h)], next := v + 1)
  }

  /** Without a version there is nothing to go back to. */
  function Reverted(s: State, r: Id): State {
    if r !in s.vcrs || s.vcrs[r].checkedIn || Latest(s, r) == 0 || s.vcrs[r].checkedId !in s.contents then s
    else
      var row := s.vcrs[r];
      s.(contents := s.contents[r := s.contents[row.checkedId]], vcrs := s.vcrs[r := row.(checkedIn := true)])
  }

  function Do(s: State, q: Request): State {
    match q
    case Create(content) => Created(s, content)
    case Write(r, content) => Written(s, r, content)
    case VersionControl(r) => Controlled(s, r, false)
    case AutoCreate(content) => Controlled(Created(s, content), s.next, true)
    case Checkout(r) => CheckedOut(s, r)
    case Uncheckout(r) => Reverted(s, r)
    case Checkin(r) => CheckedIn(s, r)
  }

  function Run(s: State, qs: seq<Request>): State
    decreases |qs|
  {
    if qs == [] then s else Do(Run(s, qs[..|qs| - 1]), qs[|qs| - 1])
  }

  // ---------------------------------------------------------------- each request keeps it

  ghost predicate SoundTables(s: State) {
    Typed(s) && OwnHistory(s.vcrs, s.versions)
  }

  ghost predicate SoundRow(s: State, r: Id)
    requires Typed(s) && r in s.vcrs
  {
    Numbered(s.versions, r, Latest(s, r)) && CheckedOf(s, r)
  }

  lemma CreatedKeeps(s: State, content: Content)
    requires Sound(s)
    ensures Sound(Created(s, content)) && Kept(s, Created(s, content))
  {
    var t := Created(s, content);
    assert Typed(t);
    forall r | r in t.vcrs
      ensures SoundRow(t, r)
    {
      assert SoundRow(s, r);
    }
  }

  lemma WrittenKeeps(s: State, r: Id, content: Content)
    requires Sound(s)
    ensures Sound(Written(s, r, content)) && Kept(s, Written(s, r, content))
  {
    var t := Written(s, r, content);
    assert Typed(t);
    forall q | q in t.vcrs
      ensures SoundRow(t, q)
    {
      assert SoundRow(s, q);
    }
  }

  /** Who is checked in has changed, for one resource. */
  lemma MarkedKeeps(s: State, t: State, r: Id)
    requires Sound(s) && r in s.vcrs && r in t.vcrs && Typed(t)
    requires t.versions == s.versions && t.vhrs == s.vhrs &&
      t.vcrs == s.vcrs[r := s.vcrs[r].(checkedIn := t.vcrs[r].checkedIn)]
    requires forall i :: i in s.contents ==> i in t.contents && (i == r || t.contents[i] == s.contents[i])
    requires r in t.contents && t.vcrs[r].checkedIn && Latest(s, r) > 0 ==>
      s.vcrs[r].checkedId in s.contents && t.contents[r] == s.contents[s.vcrs[r].checkedId]
    ensures Sound(t) && Kept(s, t)
  {
    SameHistories(s.vcrs, s.versions, r, t.vcrs[r]);
    forall q | q in t.vcrs
      ensures SoundRow(t, q)
    {
      assert SoundRow(s, q) && Latest(t, q) == Latest(s, q);
    }
  }

  lemma CheckedOutKeeps(s: State, r: Id)
    requires Sound(s)
    ensures Sound(CheckedOut(s, r)) && Kept(s, CheckedOut(s, r))
  {
    if CheckedOut(s, r) != s {
      MarkedKeeps(s, CheckedOut(s, r), r);
    }
  }

  lemma RevertedKeeps(s: State, r: Id)
    requires Sound(s)
    ensures Sound(Reverted(s, r)) && Kept(s, Reverted(s, r))
  {
    if Reverted(s, r) != s {
      assert Typed(Reverted(s, r));
      MarkedKeeps(s, Reverted(s, r), r);
    }
  }

  lemma ControlledKeeps(s: State, r: Id, auto: bool)
    requires Sound(s)
    ensures Sound(Controlled(s, r, auto)) && Kept(s, Controlled(s, r, auto))
  {
    var t := Controlled(s, r, auto);
    if t != s {
      ControlledTables(s, t, r, auto);
      forall q | q in t.vcrs
        ensures SoundRow(t, q)
      {
        if q == r {
          FirstRow(s, t, r, auto);
        } else {
          OtherRow(s, t, q, r);
        }
      }
    }
  }

  lemma ControlledTables(s: State, t: State, r: Id, auto: bool)
    requires Sound(s) && t == Controlled(s, r, auto) && t != s
    ensures SoundTables(t) && Kept(s, t)
  {
    var h, v := s.next, s.next + 1;
    assert h !in s.contents && v !in s.contents;
    ControlledTyped(s, t, r, auto);
    var rows := s.vcrs[r := Vcr(true, if auto then r else v, h)];
    FreshHistory(s);
    NewHistory(s.vcrs, s.versions, r, rows[r]);
    if !auto {
      NewVersion(rows, s.versions, v, Version(1, r, h));
    }
  }

  lemma ControlledTyped(s: State, t: State, r: Id, auto: bool)
    requires Typed(s) && t == Controlled(s, r, auto) && t != s
    ensures Typed(t) && Kept(s, t)
  {
    if !auto {
      UsualTyped(s, t, r);
    }
  }

  lemma UsualTyped(s: State, t: State, r: Id)
    requires Typed(s) && t == Controlled(s, r, false) && t != s
    ensures Typed(t) && Kept(s, t)
  {
  }

  lemma FreshHistory(s: State)
    requires Sound(s)
    ensures forall q :: !HistoryOf(s.vcrs, s.next, q)
  {
  }

  lemma NewHistory(vcrs: map<Id, Vcr>, versions: map<Id, Version>, r: Id, row: Vcr)
    requires OwnHistory(vcrs, versions) && r !in vcrs && forall q :: !HistoryOf(vcrs, row.vhr, q)
    ensures OwnHistory(vcrs[r := row], versions)
  {
    var more := vcrs[r := row];
    assert forall h, q :: HistoryOf(more, h, q) <==> HistoryOf(vcrs, h, q) || (h == row.vhr && q == r);
  }

  lemma NewVersion(vcrs: map<Id, Vcr>, versions: map<Id, Version>, v: Id, row: Version)
    requires OwnHistory(vcrs, versions) && HistoryOf(vcrs, row.vhr, row.vcr)
    ensures OwnHistory(vcrs, versions[v := row])
  {
  }

  lemma FirstRow(s: State, t: State, r: Id, auto: bool)
    requires Sound(s) && t == Controlled(s, r, auto) && t != s && Typed(t)
    ensures SoundRow(t, r)
  {
    assert forall v, k :: !IsVersion(s.versions, v, r, k);
    NumberedNone(s.versions, r);
    if auto {
      AutoFirstRow(s, t, r);
    } else {
      UsualFirstRow(s, t, r);
    }
  }

  lemma AutoFirstRow(s: State, t: State, r: Id)
    requires t == Controlled(s, r, true) && t != s && Typed(t) && Numbered(s.versions, r, 0)
    ensures SoundRow(t, r)
  {
  }

  lemma UsualFirstRow(s: State, t: State, r: Id)
    requires Typed(s) && t == Controlled(s, r, false) && t != s && Typed(t) && Numbered(s.versions, r, 0)
    ensures SoundRow(t, r)
  {
    var v := s.next + 1;
    assert v !in s.contents;
    NumberedGrows(s.versions, v, Version(1, r, s.next), r, 0);
    assert IsVersion(t.versions, v, r, 1);
  }

  lemma NumberedNone(versions: map<Id, Version>, r: Id)
    requires forall v, k :: !IsVersion(versions, v, r, k)
    ensures Numbered(versions, r, 0)
  {
  }

  /** A resource other than r, whose rows and contents are as before. */
  lemma OtherRow(s: State, t: State, q: Id, r: Id)
    requires Sound(s) && q in s.vcrs && q != r && q in t.vcrs && t.vcrs[q] == s.vcrs[q] && Typed(t)
    requires Kept(s, t) && t.contents[q] == s.contents[q]
    requires forall v :: v in t.versions && v !in s.versions ==> t.versions[v].vcr == r
    requires s.vcrs[q].vhr in t.vhrs && t.vhrs[s.vcrs[q].vhr] == s.vhrs[s.vcrs[q].vhr]
    ensures SoundRow(t, q)
  {
    assert SoundRow(s, q);
    assert forall v, k :: IsVersion(t.versions, v, q, k) <==> IsVersion(s.versions, v, q, k);
    assert Latest(t, q) == Latest(s, q);
    forall k | 1 <= k <= Latest(t, q)
      ensures HasVersion(t.versions, q, k)
    {
      assert HasVersion(s.versions, q, k);
    }
  }

  lemma CheckedInKeeps(s: State, r: Id)
    requires Sound(s)
    ensures Sound(CheckedIn(s, r)) && Kept(s, CheckedIn(s, r))
    ensures r in s.vcrs && !s.vcrs[r].checkedIn ==> Latest(CheckedIn(s, r), r) == Latest(s, r) + 1
  {
    var t := CheckedIn(s, r);
    if r in s.vcrs && !s.vcrs[r].checkedIn {
      CheckedInTables(s, t, r);
      forall q | q in t.vcrs
        ensures SoundRow(t, q)
      {
        if q == r {
          NextRow(s, t, r);
        } else {
          CheckedInOther(s, t, q, r);
        }
      }
    }
  }

  lemma CheckedInOther(s: State, t: State, q: Id, r: Id)
    requires Sound(s) && r in s.vcrs && !s.vcrs[r].checkedIn && t == CheckedIn(s, r) && Typed(t) && Kept(s, t)
    requires q in t.vcrs && q != r
    ensures SoundRow(t, q)
  {
    OtherHistory(s, q, r);
    assert s.next !in s.contents && Regular(s, q);
    OtherRow(s, t, q, r);
  }

  lemma OtherHistory(s: State, q: Id, r: Id)
    requires Sound(s) && q in s.vcrs && r in s.vcrs && q != r
    ensures s.vcrs[q].vhr != s.vcrs[r].vhr && s.vcrs[q].vhr in s.vhrs
  {
  }

  lemma CheckedInTables(s: State, t: State, r: Id)
    requires Sound(s) && r in s.vcrs && !s.vcrs[r].checkedIn && t == CheckedIn(s, r)
    ensures SoundTables(t) && Kept(s, t)
  {
    var v, row := s.next, Version(Latest(s, r) + 1, r, s.vcrs[r].vhr);
    assert CheckedOf(s, r);
    CheckedInTyped(s, t, r);
    SameHistories(s.vcrs, s.versions, r, Vcr(true, v, row.vhr));
    NewVersion(t.vcrs, s.versions, v, row);
  }

  lemma CheckedInTyped(s: State, t: State, r: Id)
    requires Typed(s) && r in s.vcrs && !s.vcrs[r].checkedIn && t == CheckedIn(s, r) && s.vcrs[r].vhr in s.vhrs
    ensures Typed(t) && Kept(s, t)
  {
  }

  lemma SameHistories(vcrs: map<Id, Vcr>, versions: map<Id, Version>, r: Id, row: Vcr)
    requires OwnHistory(vcrs, versions) && HistoryOf(vcrs, row.vhr, r)
    ensures OwnHistory(vcrs[r := row], versions)
  {
    var more := vcrs[r := row];
    forall h, q
      ensures HistoryOf(more, h, q) <==> HistoryOf(vcrs, h, q)
    {
    }
  }

  lemma NextRow(s: State, t: State, r: Id)
    requires Sound(s) && r in s.vcrs && !s.vcrs[r].checkedIn && t == CheckedIn(s, r) && Typed(t)
    ensures SoundRow(t, r) && Latest(t, r) == Latest(s, r) + 1
  {
    var v, n := s.next, Latest(s, r);
    assert v !in s.contents && SoundRow(s, r);
    NumberedGrows(s.versions, v, t.versions[v], r, n);
    assert IsVersion(t.versions, v, r, n + 1);
    assert Latest(t, r) == n + 1;
    if n > 0 {
      assert IsVersion(t.versions, s.vhrs[s.vcrs[r].vhr], r, 1);
    }
  }

  /** One more row. */
  lemma NumberedGrows(versions: map<Id, Version>, v: Id, row: Version, r: Id, n: nat)
    requires v !in versions && Numbered(versions, r, n)
    requires r == row.vcr ==> row.number == n + 1
    ensures Numbered(versions[v := row], r, if r == row.vcr then n + 1 else n)
  {
    var more := versions[v := row];
    assert forall w, k :: IsVersion(more, w, r, k) ==>
      IsVersion(versions, w, r, k) || (w == v && r == row.vcr && k == n + 1);
    forall k | 1 <= k <= if r == row.vcr then n + 1 else n
      ensures HasVersion(more, r, k)
    {
      if k == n + 1 {
        assert IsVersion(more, v, r, k);
      } else {
        assert HasVersion(versions, r, k);
        var w :| IsVersion(versions, w, r, k);
        assert IsVersion(more, w, r, k);
      }
    }
  }

  lemma DoKeeps(s: State, q: Request)
    requires Sound(s)
    ensures Sound(Do(s, q)) && Kept(s, Do(s, q))
  {
    match q
    case Create(content) => CreatedKeeps(s, content);
    case Write(r, content) => WrittenKeeps(s, r, content);
    case VersionControl(r) => ControlledKeeps(s, r, false);
    case AutoCreate(content) =>
      CreatedKeeps(s, content);
      ControlledKeeps(Created(s, content), s.next, true);
    case Checkout(r) => CheckedOutKeeps(s, r);
    case Uncheckout(r) => RevertedKeeps(s, r);
    case Checkin(r) => CheckedInKeeps(s, r);
  }

  // ---------------------------------------------------------------- what each request does

  /** r is checked in at its newest version, number n, which holds what r holds. */
  predicate InAt(s: State, r: Id, n: nat) {
    && r in s.vcrs && s.vcrs[r].checkedIn && r in s.contents
    && IsVersion(s.versions, s.vcrs[r].checkedId, r, n)
    && s.vcrs[r].checkedId in s.contents && s.contents[s.vcrs[r].checkedId] == s.contents[r]
  }

  /** Version control makes version 1 of what the resource holds, and checks it in. */
  lemma VersionControlIs(s: State, r: Id)
    requires Sound(s) && Regular(s, r) && r !in s.vcrs
    ensures var t := Do(s, VersionControl(r));
      && InAt(t, r, 1) && Latest(t, r) == 1 && t.contents[r] == s.contents[r]
      && t.vcrs[r].checkedId !in s.contents && t.vcrs[r].vhr !in s.contents
      && Do(t, Checkout(r)) == t.(vcrs := t.vcrs[r := t.vcrs[r].(checkedIn := false)])
  {
  }

  lemma ControlledIn(s: State, r: Id)
    requires Regular(s, r) && r !in s.vcrs && r < s.next
    ensures InAt(Controlled(s, r, false), r, 1) && Controlled(s, r, false).contents[r] == s.contents[r]
    ensures var t := Controlled(s, r, true); r in t.contents && t.contents[r] == s.contents[r]
  {
  }

  /** So does creating a resource with automatic version control, save that it has no version
      yet. */
  lemma AutoCreateIs(s: State, content: Content)
    requires Sound(s)
    ensures var t, r := Do(s, AutoCreate(content)), s.next;
      && r in t.vcrs && t.vcrs[r].checkedIn && Latest(t, r) == 0 && r !in s.contents
      && r in t.contents && t.contents[r] == content
  {
  }

  lemma CreateIs(s: State, content: Content)
    requires Sound(s)
    ensures var t, r := Do(s, Create(content)), s.next;
      && r !in s.contents && t.contents == s.contents[r := content] && Regular(t, r) && r !in t.vcrs
      && t.vcrs == s.vcrs && t.versions == s.versions && t.vhrs == s.vhrs
  {
  }

  /** Whether a body may be replaced: not of a version, and not while checked in. */
  predicate Writable(s: State, r: Id) {
    r in s.contents && r !in s.versions && r !in s.vhrs && !(r in s.vcrs && s.vcrs[r].checkedIn)
  }

  lemma WriteIs(s: State, r: Id, content: Content)
    ensures var t := Do(s, Write(r, content));
      t == if Writable(s, r) then s.(contents := s.contents[r := content]) else s
  {
  }

  lemma CheckoutIs(s: State, r: Id)
    requires r in s.vcrs
    ensures var t := Do(s, Checkout(r));
      && r in t.vcrs && !t.vcrs[r].checkedIn && t.vcrs[r].checkedId == s.vcrs[r].checkedId
      && t.contents == s.contents && t.versions == s.versions && t.vhrs == s.vhrs
  {
  }

  /** What a checked out resource held at its checkout is what its newest version holds. */
  lemma UncheckoutIs(s: State, r: Id)
    requires Sound(s) && r in s.vcrs && !s.vcrs[r].checkedIn && Latest(s, r) > 0
    ensures var t := Do(s, Uncheckout(r));
      && InAt(t, r, Latest(s, r)) && t.vcrs[r].checkedId == s.vcrs[r].checkedId
      && t.contents[r] == s.contents[s.vcrs[r].checkedId] && t.versions == s.versions
  {
    assert CheckedOf(s, r) && Regular(s, r);
  }

  lemma CheckinIs(s: State, r: Id)
    requires Sound(s) && r in s.vcrs && !s.vcrs[r].checkedIn
    ensures var t := Do(s, Checkin(r));
      && InAt(t, r, Latest(s, r) + 1) && t.contents[r] == s.contents[r] && t.vcrs[r].checkedId !in s.contents
  {
    assert CheckedOf(s, r) && Regular(s, r);
  }

  /** A request that does not apply changes nothing. */
  lemma RefusedIs(s: State, r: Id)
    ensures !Regular(s, r) || r in s.vcrs ==> Do(s, VersionControl(r)) == s
    ensures !(r in s.vcrs && s.vcrs[r].checkedIn) ==> Do(s, Checkout(r)) == s
    ensures !(r in s.vcrs && !s.vcrs[r].checkedIn) ==> Do(s, Uncheckout(r)) == s && Do(s, Checkin(r)) == s
  {
  }

  predicate Names(q: Request, x: Id) {
    match q
    case Create(_) => false
    case Write(r, _) => r == x
    case VersionControl(r) => r == x
    case AutoCreate(_) => false
    case Checkout(r) => r == x
    case Uncheckout(r) => r == x
    case Checkin(r) => r == x
  }

  /** What a request does not name stays as it was. */
  lemma DoLeaves(s: State, q: Request, x: Id)
    requires Sound(s) && x in s.contents && !Names(q, x)
    ensures var t := Do(s, q);
      && x in t.contents && t.contents[x] == s.contents[x]
      && (x in t.vcrs <==> x in s.vcrs) && (x in s.vcrs ==> t.vcrs[x] == s.vcrs[x])
      && (x in t.versions <==> x in s.versions) && (x in s.versions ==> t.versions[x] == s.versions[x])
  {
    match q
    case Create(_) =>
    case Write(_, _) =>
    case VersionControl(r) => ControlledLeaves(s, r, false, x);
    case AutoCreate(content) =>
      CreatedKeeps(s, content);
      ControlledLeaves(Created(s, content), s.next, true, x);
    case Checkout(_) =>
    case Uncheckout(_) =>
    case Checkin(_) =>
  }

  lemma ControlledLeaves(s: State, r: Id, auto: bool, x: Id)
    requires Typed(s) && x in s.contents && x != r
    ensures var t := Controlled(s, r, auto);
      && x in t.contents && t.contents[x] == s.contents[x]
      && (x in t.vcrs <==> x in s.vcrs) && (x in s.vcrs ==> t.vcrs[x] == s.vcrs[x])
      && (x in t.versions <==> x in s.versions) && (x in s.versions ==> t.versions[x] == s.versions[x])
  {
  }

  /** A store in which nothing is under version control yet. */
  lemma UnversionedIsSound(contents: map<Id, Content>, next: Id)
    requires 0 < next && forall i :: i in contents ==> 0 < i < next
    ensures var s := State(contents, map[], map[], map[], next); Sound(s) && NoStrayHistory(s) && ForeignKeys(s)
  {
  }

  /** In every run the versions of each resource are numbered 1 to n, the checked version is
      version n, a resource that is checked in equals it, and old versions stay as they are. */
  lemma {:induction false} RunKeeps(s: State, qs: seq<Request>)
    requires Sound(s)
    ensures Sound(Run(s, qs)) && Kept(s, Run(s, qs))
    decreases |qs|
  {
    if qs != [] {
      var before := Run(s, qs[..|qs| - 1]);
      RunKeeps(s, qs[..|qs| - 1]);
      DoKeeps(before, qs[|qs| - 1]);
      assert before.versions.Keys <= before.contents.Keys;
    }
  }

  // ---------------------------------------------------------------- transactions

  /** The deferred constraints, checked at commit: checked and root versions are versions. */
  predicate ForeignKeys(s: State) {
    && (forall r :: r in s.vcrs ==> s.vcrs[r].checkedId in s.versions)
    && (forall h :: h in s.vhrs ==> s.vhrs[h] in s.versions)
  }

  /** One request with its automatic steps: all or nothing. */
  function Transaction(s: State, qs: seq<Request>): State {
    var t := Run(s, qs);
    if ForeignKeys(t) then t else s
  }

  /** Each history belongs to a resource. */
  ghost predicate NoStrayHistory(s: State) {
    forall h :: h in s.vhrs ==> exists r :: HistoryOf(s.vcrs, h, r)
  }

  lemma StillOwned(s: State, t: State)
    requires NoStrayHistory(s)
    requires forall r :: r in s.vcrs ==> r in t.vcrs && t.vcrs[r].vhr == s.vcrs[r].vhr
    requires forall h :: h in t.vhrs ==> h in s.vhrs || exists r :: HistoryOf(t.vcrs, h, r)
    ensures NoStrayHistory(t)
  {
    forall h | h in s.vhrs
      ensures exists r :: HistoryOf(t.vcrs, h, r)
    {
      var r :| HistoryOf(s.vcrs, h, r);
      assert HistoryOf(t.vcrs, h, r);
    }
  }

  lemma ControlledOwned(s: State, r: Id, auto: bool)
    requires NoStrayHistory(s)
    ensures NoStrayHistory(Controlled(s, r, auto))
  {
    var t := Controlled(s, r, auto);
    if t != s {
      assert HistoryOf(t.vcrs, s.next, r);
      StillOwned(s, t);
    }
  }

  lemma DoKeepsHistories(s: State, q: Request)
    requires Sound(s) && NoStrayHistory(s)
    ensures NoStrayHistory(Do(s, q))
  {
    match q
    case VersionControl(r) => ControlledOwned(s, r, false);
    case AutoCreate(content) =>
      StillOwned(s, Created(s, content));
      ControlledOwned(Created(s, content), s.next, true);
    case Create(content) => StillOwned(s, Created(s, content));
    case Write(r, content) => StillOwned(s, Written(s, r, content));
    case Checkout(r) => MarkedOwned(s, r);
    case Uncheckout(r) => MarkedOwned(s, r);
    case Checkin(r) =>
      assert r in s.vcrs ==> CheckedOf(s, r);
      CheckedInOwned(s, r);
  }

  lemma MarkedOwned(s: State, r: Id)
    requires NoStrayHistory(s)
    ensures NoStrayHistory(CheckedOut(s, r)) && NoStrayHistory(Reverted(s, r))
  {
    StillOwned(s, CheckedOut(s, r));
    StillOwned(s, Reverted(s, r));
  }

  lemma CheckedInOwned(s: State, r: Id)
    requires NoStrayHistory(s) && (r in s.vcrs ==> s.vcrs[r].vhr in s.vhrs)
    ensures NoStrayHistory(CheckedIn(s, r))
  {
    StillOwned(s, CheckedIn(s, r));
  }

  lemma {:induction false} RunKeepsHistories(s: State, qs: seq<Request>)
    requires Sound(s) && NoStrayHistory(s)
    ensures NoStrayHistory(Run(s, qs))
    decreases |qs|
  {
    if qs != [] {
      var less := qs[..|qs| - 1];
      RunKeepsHistories(s, less);
      RunKeeps(s, less);
      DoKeepsHistories(Run(s, less), qs[|qs| - 1]);
    }
  }

  predicate EachHasVersion(s: State) {
    forall r :: r in s.vcrs ==> Latest(s, r) > 0
  }

  lemma ForeignKeysIff(s: State)
    requires Sound(s) && NoStrayHistory(s)
    ensures ForeignKeys(s) <==> EachHasVersion(s)
  {
    forall r | r in s.vcrs
      ensures s.vcrs[r].checkedId in s.versions <==> Latest(s, r) > 0
      ensures s.vhrs[s.vcrs[r].vhr] in s.versions <==> Latest(s, r) > 0
    {
      assert CheckedOf(s, r);
      assert Latest(s, r) == 0 ==> Regular(s, r);
    }
    forall h | h in s.vhrs
      ensures EachHasVersion(s) ==> s.vhrs[h] in s.versions
    {
      var r :| HistoryOf(s.vcrs, h, r);
    }
  }

  /** A checkout of r and, later, a checkin. */
  predicate OutThenIn(qs: seq<Request>, r: Id) {
    exists j, k :: 0 <= j < k < |qs| && qs[j] == Checkout(r) && qs[k] == Checkin(r)
  }

  /** Every resource that is auto-created is checked out and then in again.  Its id is the
      next one when its turn comes. */
  predicate AutoCheckedIn(s: State, qs: seq<Request>) {
    forall i :: 0 <= i < |qs| && qs[i].AutoCreate? ==> OutThenIn(qs[i + 1..], Run(s, qs[..i]).next)
  }

  lemma OutThenInNext(qs: seq<Request>, r: Id, q: Request)
    ensures OutThenIn(qs + [q], r) <==> OutThenIn(qs, r) || (q == Checkin(r) && Checkout(r) in qs)
  {
    var more := qs + [q];
    if OutThenIn(qs, r) {
      var j, k :| 0 <= j < k < |qs| && qs[j] == Checkout(r) && qs[k] == Checkin(r);
      assert more[j] == Checkout(r) && more[k] == Checkin(r);
    }
    if q == Checkin(r) && Checkout(r) in qs {
      var j :| 0 <= j < |qs| && qs[j] == Checkout(r);
      assert more[j] == Checkout(r) && more[|qs|] == Checkin(r);
    }
  }

  /** Whether r has a version, and, while it has none, whether it is out. */
  predicate InPhase(s: State, r: Id, out: bool, done: bool) {
    r in s.vcrs && (Latest(s, r) > 0 <==> done) && (!done ==> (s.vcrs[r].checkedIn <==> !out))
  }

  /** A first version takes a checkin while it is out. */
  lemma DoPhase(s: State, r: Id, q: Request, out: bool, done: bool)
    requires Sound(s) && InPhase(s, r, out, done)
    ensures InPhase(Do(s, q), r, out || q == Checkout(r), done || (q == Checkin(r) && out))
  {
    assert CheckedOf(s, r);
    match q
    case Create(_) =>
    case Write(_, _) =>
    case VersionControl(x) => ControlledPhase(s, r, x, false);
    case AutoCreate(content) =>
      CreatedKeeps(s, content);
      ControlledPhase(Created(s, content), r, s.next, true);
    case Checkout(x) => MarkedPhase(s, r, x);
    case Uncheckout(x) => MarkedPhase(s, r, x);
    case Checkin(x) => CheckedInPhase(s, r, x);
  }

  /** Checkout marks r as out; uncheckout does nothing to a resource without a version. */
  lemma MarkedPhase(s: State, r: Id, x: Id)
    requires r in s.vcrs
    ensures var t := CheckedOut(s, x);
      r in t.vcrs && Latest(t, r) == Latest(s, r) && (t.vcrs[r].checkedIn <==> s.vcrs[r].checkedIn && x != r)
    ensures var t := Reverted(s, x);
      r in t.vcrs && Latest(t, r) == Latest(s, r) && (Latest(s, r) == 0 ==> t.vcrs[r] == s.vcrs[r])
  {
  }

  lemma ControlledPhase(s: State, r: Id, x: Id, auto: bool)
    requires Sound(s) && r in s.vcrs
    ensures var t := Controlled(s, x, auto); r in t.vcrs && t.vcrs[r] == s.vcrs[r] && Latest(t, r) == Latest(s, r)
  {
    assert CheckedOf(s, r) && Regular(s, r);
  }

  lemma CheckedInPhase(s: State, r: Id, x: Id)
    requires Sound(s) && r in s.vcrs
    ensures var t := CheckedIn(s, x);
      r in t.vcrs && Latest(t, r) == Latest(s, r) + (if x == r && !s.vcrs[r].checkedIn then 1 else 0)
      && (x != r ==> t.vcrs[r] == s.vcrs[r])
  {
    if x == r {
      CheckedInKeeps(s, r);
    } else {
      assert CheckedOf(s, r) && Regular(s, r);
      CheckedInBeside(s, r, x);
    }
  }

  lemma CheckedInBeside(s: State, r: Id, x: Id)
    requires Typed(s) && r in s.vcrs && r != x && s.vcrs[r].checkedId in s.contents
    ensures var t := CheckedIn(s, x); r in t.vcrs && t.vcrs[r] == s.vcrs[r] && Latest(t, r) == Latest(s, r)
  {
  }

  /** A resource without versions gets one exactly when it is checked out and then in. */
  lemma {:induction false} RunPhase(s: State, r: Id, qs: seq<Request>)
    requires Sound(s) && InPhase(s, r, false, false)
    ensures InPhase(Run(s, qs), r, Checkout(r) in qs, OutThenIn(qs, r))
    decreases |qs|
  {
    if qs != [] {
      var less, q := qs[..|qs| - 1], qs[|qs| - 1];
      RunPhase(s, r, less);
      RunKeeps(s, less);
      OutThenInNext(less, r, q);
      assert qs == less + [q];
      DoPhase(Run(s, less), r, q, Checkout(r) in less, OutThenIn(less, r));
    }
  }

  predicate HasOrigin(s: State, qs: seq<Request>, r: Id) {
    exists i :: 0 <= i < |qs| && qs[i].AutoCreate? && r == Run(s, qs[..i]).next
  }

  lemma OriginNext(s: State, qs: seq<Request>, r: Id)
    requires qs != []
    ensures HasOrigin(s, qs[..|qs| - 1], r) ==> HasOrigin(s, qs, r)
    ensures qs[|qs| - 1].AutoCreate? && r == Run(s, qs[..|qs| - 1]).next ==> HasOrigin(s, qs, r)
  {
    var less := qs[..|qs| - 1];
    if i :| 0 <= i < |less| && less[i].AutoCreate? && r == Run(s, less[..i]).next {
      assert less[..i] == qs[..i] && qs[i] == less[i];
    }
  }

  /** Where a resource without a version comes from. */
  lemma {:induction false} Origin(s: State, qs: seq<Request>, r: Id)
    requires Sound(s) && EachHasVersion(s) && r in Run(s, qs).vcrs
    ensures Latest(Run(s, qs), r) > 0 || HasOrigin(s, qs, r)
    decreases |qs|
  {
    if qs != [] {
      var less, q := qs[..|qs| - 1], qs[|qs| - 1];
      var t := Run(s, less);
      RunKeeps(s, less);
      OriginNext(s, qs, r);
      if r !in t.vcrs {
        NewlyControlled(t, q, r);
      } else {
        Origin(s, less, r);
        DoPhase(t, r, q, !t.vcrs[r].checkedIn, Latest(t, r) > 0);
      }
    }
  }

  lemma NewlyControlled(s: State, q: Request, r: Id)
    requires Sound(s) && r !in s.vcrs && r in Do(s, q).vcrs
    ensures Latest(Do(s, q), r) > 0 || (q.AutoCreate? && r == s.next)
  {
  }

  lemma AutoCreated(s: State, content: Content)
    requires Sound(s)
    ensures var t := Do(s, AutoCreate(content));
      Sound(t) && InPhase(t, s.next, false, false)
  {
    DoKeeps(s, AutoCreate(content));
    CreatedKeeps(s, content);
    assert Regular(Created(s, content), s.next);
  }

  lemma RunFrom(s: State, qs: seq<Request>, i: nat)
    requires i < |qs|
    ensures Run(s, qs) == Run(Do(Run(s, qs[..i]), qs[i]), qs[i + 1..])
  {
    var first, rest := qs[..i + 1], qs[i + 1..];
    assert first[..i] == qs[..i] && first + rest == qs;
    RunConcat(s, first, rest);
  }

  /** The auto-created resource of request i has a version at the end exactly when it is
      checked out and in again. */
  lemma AutoCreatedAt(s: State, qs: seq<Request>, i: nat)
    requires Sound(s) && i < |qs| && qs[i].AutoCreate?
    ensures var r := Run(s, qs[..i]).next;
      r in Run(s, qs).vcrs && (Latest(Run(s, qs), r) > 0 <==> OutThenIn(qs[i + 1..], r))
  {
    var t, rest := Run(s, qs[..i]), qs[i + 1..];
    RunKeeps(s, qs[..i]);
    AutoCreated(t, qs[i].content);
    RunFrom(s, qs, i);
    RunPhase(Do(t, qs[i]), t.next, rest);
    assert InPhase(Run(s, qs), t.next, Checkout(t.next) in rest, OutThenIn(rest, t.next));
  }

  /** A transaction meets the deferred constraints exactly when it checks every resource that
      it auto-creates out and then in. */
  lemma CommitsIff(s: State, qs: seq<Request>)
    requires Sound(s) && NoStrayHistory(s) && ForeignKeys(s)
    ensures ForeignKeys(Run(s, qs)) <==> AutoCheckedIn(s, qs)
    ensures Transaction(s, qs) == if AutoCheckedIn(s, qs) then Run(s, qs) else s
  {
    var t := Run(s, qs);
    RunKeeps(s, qs);
    RunKeepsHistories(s, qs);
    ForeignKeysIff(s);
    ForeignKeysIff(t);
    forall i | 0 <= i < |qs| && qs[i].AutoCreate?
      ensures var r := Run(s, qs[..i]).next;
        r in t.vcrs && (Latest(t, r) > 0 <==> OutThenIn(qs[i + 1..], r))
    {
      AutoCreatedAt(s, qs, i);
    }
    forall r | r in t.vcrs
      ensures AutoCheckedIn(s, qs) ==> Latest(t, r) > 0
    {
      Origin(s, qs, r);
    }
  }

  /** Whatever else it does, and whatever the tables were before. */
  lemma LeftOutIsLost(s: State, qs: seq<Request>, i: nat)
    requires Sound(s) && i < |qs| && qs[i].AutoCreate? && !OutThenIn(qs[i + 1..], Run(s, qs[..i]).next)
    ensures Transaction(s, qs) == s
  {
    AutoCreatedAt(s, qs, i);
    RunKeeps(s, qs);
    var t, r := Run(s, qs), Run(s, qs[..i]).next;
    assert CheckedOf(t, r) && Regular(t, r);
  }

  // ---------------------------------------------------------------- going back

  function Writes(r: Id, contents: seq<Content>): seq<Request> {
    seq(|contents|, i requires 0 <= i < |contents| => Write(r, contents[i]))
  }

  lemma WriteAgain(s: State, r: Id, content: Content, next: Content)
    requires Regular(s, r) && r in s.vcrs && !s.vcrs[r].checkedIn
    ensures Do(s, Write(r, content)) == s.(contents := s.contents[r := content])
    ensures Do(s.(contents := s.contents[r := content]), Write(r, next)) == s.(contents := s.contents[r := next])
  {
  }

  lemma {:induction false} WritesAre(s: State, r: Id, contents: seq<Content>)
    requires Sound(s) && r in s.vcrs && !s.vcrs[r].checkedIn
    ensures Run(s, Writes(r, contents)) ==
      if contents == [] then s else s.(contents := s.contents[r := contents[|contents| - 1]])
    decreases |contents|
  {
    if contents != [] {
      var less := contents[..|contents| - 1];
      var qs := Writes(r, contents);
      WritesAre(s, r, less);
      assert qs[..|qs| - 1] == Writes(r, less);
      assert Regular(s, r);
      var last := contents[|contents| - 1];
      WriteAgain(s, r, if less == [] then last else less[|less| - 1], last);
    }
  }

  lemma {:induction false} RunConcat(s: State, a: seq<Request>, b: seq<Request>)
    ensures Run(s, a + b) == Run(Run(s, a), b)
    decreases |b|
  {
    if b == [] {
      assert a + b == a;
    } else {
      RunConcat(s, a, b[..|b| - 1]);
      assert (a + b)[..|a + b| - 1] == a + b[..|b| - 1];
    }
  }

  /** r checked out, and written to. */
  function Revised(s: State, r: Id, contents: seq<Content>): State {
    var out := CheckedOut(s, r);
    if contents == [] then out else out.(contents := out.contents[r := contents[|contents| - 1]])
  }

  /** A checkout and some writes, and then one more request. */
  function Session(r: Id, contents: seq<Content>, last: Request): seq<Request> {
    [Checkout(r)] + Writes(r, contents) + [last]
  }

  lemma AfterWrites(s: State, r: Id, contents: seq<Content>, q: Request)
    requires Sound(s) && r in s.vcrs && s.vcrs[r].checkedIn
    ensures Run(s, Session(r, contents, q)) == Do(Revised(s, r, contents), q)
  {
    var out := CheckedOut(s, r);
    CheckedOutKeeps(s, r);
    assert Run(s, [Checkout(r)]) == out by {
      assert [Checkout(r)][..0] == [];
    }
    var some := [Checkout(r)] + Writes(r, contents);
    RunConcat(s, [Checkout(r)], Writes(r, contents));
    WritesAre(out, r, contents);
    assert Session(r, contents, q)[..|Session(r, contents, q)| - 1] == some;
  }

  /** Uncheckout takes back the checkout and everything written since. */
  lemma UncheckoutUndoes(s: State, r: Id, contents: seq<Content>)
    requires Sound(s) && r in s.vcrs && s.vcrs[r].checkedIn && Latest(s, r) > 0
    ensures Run(s, Session(r, contents, Uncheckout(r))) == s
  {
    var qs := Session(r, contents, Uncheckout(r));
    AfterWrites(s, r, contents, Uncheckout(r));
    RevertedRevised(s, r, contents);
  }

  lemma RevertedRevised(s: State, r: Id, contents: seq<Content>)
    requires Sound(s) && r in s.vcrs && s.vcrs[r].checkedIn && Latest(s, r) > 0
    ensures Reverted(Revised(s, r, contents), r) == s
  {
    assert CheckedOf(s, r);
    var t := Reverted(Revised(s, r, contents), r);
    assert t.vcrs == s.vcrs;
    assert t.contents == s.contents;
  }

  /** One more version of r, holding this, and r checked in at it. */
  predicate Records(s: State, t: State, r: Id, content: Content) {
    && r in s.vcrs && r in t.vcrs && t.vcrs[r].checkedIn
    && Latest(t, r) == Latest(s, r) + 1
    && IsVersion(t.versions, t.vcrs[r].checkedId, r, Latest(t, r))
    && t.vcrs[r].checkedId in t.contents && t.contents[t.vcrs[r].checkedId] == content
    && r in t.contents && t.contents[r] == content
  }

  /** Checkin makes version n + 1 of what was written last, and keeps versions 1 to n. */
  lemma CheckinRecords(s: State, r: Id, contents: seq<Content>, t: State)
    requires Sound(s) && r in s.vcrs && s.vcrs[r].checkedIn && contents != []
    requires t == Run(s, Session(r, contents, Checkin(r)))
    ensures Records(s, t, r, contents[|contents| - 1]) && Kept(s, t)
  {
    AfterWrites(s, r, contents, Checkin(r));
    DoCheckin(Revised(s, r, contents), r);
    CheckedInRecords(s, r, contents);
  }

  lemma DoCheckin(s: State, r: Id)
    ensures Do(s, Checkin(r)) == CheckedIn(s, r)
  {
  }

  lemma CheckedInRecords(s: State, r: Id, contents: seq<Content>)
    requires Sound(s) && r in s.vcrs && s.vcrs[r].checkedIn && contents != []
    ensures Records(s, CheckedIn(Revised(s, r, contents), r), r, contents[|contents| - 1])
    ensures Kept(s, CheckedIn(Revised(s, r, contents), r))
  {
    var mid := Revised(s, r, contents);
    CheckedOutKeeps(s, r);
    WrittenKeeps(CheckedOut(s, r), r, contents[|contents| - 1]);
    CheckedInKeeps(mid, r);
    assert Latest(mid, r) == Latest(s, r);
    assert CheckedOf(CheckedIn(mid, r), r);
  }

  // ---------------------------------------------------------------- committed runs

  function Transactions(s: State, ts: seq<seq<Request>>): State
    decreases |ts|
  {
    if ts == [] then s else Transaction(Transactions(s, ts[..|ts| - 1]), ts[|ts| - 1])
  }

  /** In every committed state every resource under version control has versions 1 to n with
      n at least 1, is checked in or out at version n, and equals it when checked in. */
  lemma {:induction false} CommittedKeeps(s: State, ts: seq<seq<Request>>)
    requires Sound(s) && ForeignKeys(s)
    ensures var t := Transactions(s, ts);
      && Sound(t) && Kept(s, t)
      && forall r :: r in t.vcrs ==>
        Latest(t, r) >= 1 && IsVersion(t.versions, t.vcrs[r].checkedId, r, Latest(t, r))
        && (t.vcrs[r].checkedIn ==> t.contents[r] == t.contents[t.vcrs[r].checkedId])
    decreases |ts|
  {
    CommittedForeignKeys(s, ts);
    var t := Transactions(s, ts);
    forall r | r in t.vcrs
      ensures Latest(t, r) >= 1 && CheckedOf(t, r)
    {
      assert CheckedOf(t, r) && t.vcrs[r].checkedId in t.versions && Regular(t, r);
    }
  }

  lemma {:induction false} CommittedForeignKeys(s: State, ts: seq<seq<Request>>)
    requires Sound(s) && ForeignKeys(s)
    ensures var t := Transactions(s, ts); Sound(t) && Kept(s, t) && ForeignKeys(t)
    decreases |ts|
  {
    if ts != [] {
      var before := Transactions(s, ts[..|ts| - 1]);
      CommittedForeignKeys(s, ts[..|ts| - 1]);
      TransactionKeeps(before, ts[|ts| - 1]);
      KeptTwice(s, before, Transactions(s, ts));
    }
  }

  lemma TransactionKeeps(s: State, qs: seq<Request>)
    requires Sound(s) && ForeignKeys(s)
    ensures var t := Transaction(s, qs); Sound(t) && Kept(s, t) && ForeignKeys(t)
  {
    RunKeeps(s, qs);
  }

  lemma KeptTwice(s: State, t: State, u: State)
    requires Kept(s, t) && Kept(t, u)
    ensures Kept(s, u)
  {
  }

  // ---------------------------------------------------------------- the code

  datatype Status = Ok | MustBeVersionable | MustBeCheckedIn | MustBeCheckedOut | MustBeVersionControlled | ServerError

  /** dav_repos_resource: what a request knows of the resource it is about. */
  class Resource {
    const serialno: Id
    var versioned: bool
    var checkedIn: bool
    var checkedId: Id
    var vhrId: Id
    var vrNum: nat

    constructor (serialno: Id)
      ensures this.serialno == serialno && !versioned
    {
      this.serialno := serialno;
      versioned, checkedIn, checkedId, vhrId, vrNum := false, false, 0, 0, 0;
    }
  }

  class Repository {
    var contents: map<Id, Content>
    var vcrs: map<Id, Vcr>
    var versions: map<Id, Version>
    var vhrs: map<Id, Id>
    var next: Id

    function Now(): State
      reads this
    {
      State(contents, vcrs, versions, vhrs, next)
    }

    /** What the request knows of its resource agrees with the tables. */
    ghost predicate Mirrors(r: Resource)
      reads this, r
    {
      && (r.versioned <==> r.serialno in vcrs)
      && (r.versioned ==>
        vcrs[r.serialno] == Vcr(r.checkedIn, r.checkedId, r.vhrId) && r.vrNum == Latest(Now(), r.serialno))
    }

    /** dbms_get_vcr_props and dbms_get_version_number, at the start of a request. */
    method GetVcrProps(r: Resource) returns (status: Status)
      requires !r.versioned
      modifies r
      ensures status == Ok <==> (r.serialno in vcrs ==> vcrs[r.serialno].checkedId in versions)
      ensures status == Ok ==> Mirrors(r)
    {
      if r.serialno !in vcrs {
        return Ok;
      }
      var row := vcrs[r.serialno];
      r.versioned, r.checkedIn, r.checkedId, r.vhrId := true, row.checkedIn, row.checkedId, row.vhr;
      if r.checkedId !in versions {
        return ServerError;
      }
      r.vrNum := versions[r.checkedId].number;
      status := Ok;
    }

    /** dbms_get_version_id: any row with this number and resource. */
    method GetVersionId(r: Id, number: nat) returns (status: Status, id: Id)
      ensures status == Ok ==> IsVersion(versions, id, r, number)
      ensures status != Ok ==> status == ServerError && !HasVersion(versions, r, number)
    {
      var rows := set v | v in versions && IsVersion(versions, v, r, number);
      if rows == {} {
        assert forall v :: IsVersion(versions, v, r, number) ==> v in rows;
        return ServerError, 0;
      }
      id :| id in rows;
      status := Ok;
    }

    /** dbms_set_checkin_out */
    method SetCheckinOut(r: Resource, checkedIn: bool, number: nat) returns (status: Status)
      requires r.versioned && r.serialno in vcrs && vcrs[r.serialno].vhr == r.vhrId
      modifies this`vcrs, r
      ensures r.versioned == old(r.versioned) && r.vhrId == old(r.vhrId)
      ensures status != Ok ==> vcrs == old(vcrs) && r.vrNum == old(r.vrNum) && r.checkedId == old(r.checkedId)
      ensures status != Ok ==> status == ServerError && r.checkedIn == old(r.checkedIn)
      ensures status != Ok ==>
        (old(r.vrNum) != number || old(r.checkedId) == 0) && !HasVersion(versions, r.serialno, number)
      ensures status == Ok ==>
        vcrs == old(vcrs)[r.serialno := Vcr(checkedIn, r.checkedId, r.vhrId)] && r.checkedIn == checkedIn &&
          r.vrNum == number
      ensures status == Ok ==> if old(r.vrNum) == number && old(r.checkedId) != 0 then r.checkedId == old(r.checkedId)
        else IsVersion(versions, r.checkedId, r.serialno, number)
    {
      var id := r.checkedId;
      if r.vrNum != number || r.checkedId == 0 {
        status, id := GetVersionId(r.serialno, number);
        if status != Ok {
          return;
        }
      }
      vcrs := vcrs[r.serialno := Vcr(checkedIn, id, r.vhrId)];
      r.checkedId, r.checkedIn, r.vrNum := id, checkedIn, number;
      status := Ok;
    }

    /** sabridge_mk_new_version without its row in versions: a new resource with a copy of
        what r holds. */
    method MkNewVersion(r: Resource) returns (v: Id)
      requires r.serialno in contents
      modifies this`contents, this`next
      ensures v == old(next) && next == v + 1 && contents == old(contents)[v := old(contents[r.serialno])]
    {
      v := next;
      next := next + 1;
      contents := contents[v := contents[r.serialno]];
    }

    /** sabridge_vsn_control */
    method StartControl(r: Resource, autoCreated: bool)
      requires Regular(Now(), r.serialno) && r.serialno !in vcrs && r.serialno < next
      modifies this, r
      ensures Now() == Controlled(old(Now()), r.serialno, autoCreated) && r.serialno in vcrs
      ensures r.versioned && r.vrNum == (if autoCreated then 0 else 1)
      ensures vcrs[r.serialno] == Vcr(r.checkedIn, r.checkedId, r.vhrId) && r.checkedIn
    {
      ghost var before := Now();
      var vhr := next;
      contents, next := contents[vhr := ""], next + 1;
      var newVersion, number := r.serialno, 0;
      if !autoCreated {
        newVersion := MkNewVersion(r);
        number := 1;
      }
      vhrs := vhrs[vhr := newVersion];
      r.vhrId := vhr;
      if !autoCreated {
        versions := versions[newVersion := Version(number, r.serialno, vhr)];
      }
      r.vrNum, r.checkedId, r.checkedIn, r.versioned := number, newVersion, true, true;
      vcrs := vcrs[r.serialno := Vcr(true, newVersion, vhr)];
      if !autoCreated {
        assert contents == before.contents[vhr := ""][newVersion := before.contents[r.serialno]];
      }
    }

    /** dav_repos_vsn_control */
    method VersionControl(r: Resource, autoCreated: bool) returns (status: Status)
      requires Mirrors(r) && r.serialno in contents && r.serialno < next
      modifies this, r
      ensures Now() == Controlled(old(Now()), r.serialno, autoCreated)
      ensures status == (if Regular(old(Now()), r.serialno) then Ok else MustBeVersionable)
      ensures Mirrors(r)
      ensures status == Ok && r.serialno !in old(vcrs) ==>
        && r.versioned && r.checkedIn && r.serialno in vcrs && vcrs[r.serialno].checkedIn
        && r.serialno in contents && contents[r.serialno] == old(contents)[r.serialno]
        && (!autoCreated ==> r.vrNum == 1 && InAt(Now(), r.serialno, 1))
    {
      if r.serialno in versions || r.serialno in vhrs {
        return MustBeVersionable;
      }
      if !r.versioned {
        ControlledIn(Now(), r.serialno);
        StartControl(r, autoCreated);
      }
      status := Ok;
    }

    method Checkout(r: Resource) returns (status: Status)
      requires Sound(Now()) && Mirrors(r)
      modifies this`vcrs, r
      ensures Now() == CheckedOut(old(Now()), r.serialno)
      ensures status == (if old(r.versioned && r.checkedIn) then Ok else MustBeCheckedIn)
      ensures Mirrors(r)
    {
      if !r.versioned || !r.checkedIn {
        return MustBeCheckedIn;
      }
      assert CheckedOf(Now(), r.serialno) && Regular(Now(), r.serialno);
      assert r.checkedId in contents;
      status := SetCheckinOut(r, false, r.vrNum);
    }

    /** dav_repos_uncheckout; version vrNum is found by its name in the history. */
    method Uncheckout(r: Resource) returns (status: Status)
      requires Sound(Now()) && Mirrors(r)
      modifies this`contents, this`vcrs, r
      ensures Now() == Reverted(old(Now()), r.serialno)
      ensures var out := old(r.versioned && !r.checkedIn);
        status == if !out then MustBeCheckedOut else if old(r.vrNum) > 0 then Ok else ServerError
      ensures Mirrors(r)
    {
      if !r.versioned || r.checkedIn {
        return MustBeCheckedOut;
      }
      var v;
      assert Numbered(versions, r.serialno, r.vrNum) && CheckedOf(Now(), r.serialno) && Regular(Now(), r.serialno);
      assert r.vrNum > 0 <==> HasVersion(versions, r.serialno, r.vrNum) by {
        assert r.vrNum > 0 ==> IsVersion(versions, r.checkedId, r.serialno, r.vrNum);
      }
      status, v := GetVersionId(r.serialno, r.vrNum);
      if status != Ok {
        return;
      }
      assert v == r.checkedId;
      contents := contents[r.serialno := contents[v]];
      status := SetCheckinOut(r, true, r.vrNum);
    }

    method Checkin(r: Resource) returns (status: Status)
      requires Mirrors(r) && r.serialno in contents && r.serialno < next
      requires next !in versions && (r.versioned ==> Numbered(versions, r.serialno, r.vrNum))
      modifies this, r
      ensures Now() == CheckedIn(old(Now()), r.serialno)
      ensures old(!r.versioned) ==> status == MustBeVersionControlled
      ensures old(r.versioned) ==> status == if old(r.checkedIn) then MustBeCheckedOut else Ok
      ensures Mirrors(r)
    {
      if !r.versioned {
        return MustBeVersionControlled;
      }
      if r.checkedIn {
        return MustBeCheckedOut;
      }
      ghost var before := Now();
      var v := MkNewVersion(r);
      if r.vrNum == 0 {
        vhrs := vhrs[r.vhrId := v];
      }
      versions := versions[v := Version(r.vrNum + 1, r.serialno, r.vhrId)];
      assert IsVersion(versions, v, r.serialno, r.vrNum + 1);
      ghost var n: int := r.vrNum + 1;
      assert forall w :: IsVersion(versions, w, r.serialno, n) ==>
        w == v || IsVersion(before.versions, w, r.serialno, n);
      status := SetCheckinOut(r, true, r.vrNum + 1);
    }
  }
}
