/** Quota accounting: the rules on media, resource deletion and the check before a commit
    (limestone/create_postgres_full.sql, limestone/dbms.c, limestone/transaction.c,
    limestone/dbms_transaction.c). */
module Quota {
  import opened Common

  type Id = nat

  /** Body stands for the types Resource, Versioned and Version. */
  datatype Kind = Body | LockNull | Bodiless

  datatype Res = Res(owner: Id, kind: Kind)

  /** A row of media. */
  datatype Medium = Medium(resource: Id, size: nat)

  /** A row of quota; a total of 0 or less is no limit. */
  datatype Account = Account(used: int, total: int)

  datatype Store = Store(resources: map<Id, Res>, media: seq<Medium>, quota: map<Id, Account>, next: Id)

  // ---------------------------------------------------------------- rows of media

  /** The size of the body of r: its first row. */
  function SizeOf(rows: seq<Medium>, r: Id): Option<nat> {
    if rows == [] then None else if rows[0].resource == r then Some(rows[0].size) else SizeOf(rows[1..], r)
  }

  function Without(rows: seq<Medium>, r: Id): seq<Medium> {
    if rows == [] then [] else (if rows[0].resource == r then [] else [rows[0]]) + Without(rows[1..], r)
  }

  function Resized(rows: seq<Medium>, r: Id, size: nat): seq<Medium> {
    if rows == [] then []
    else [if rows[0].resource == r then Medium(r, size) else rows[0]] + Resized(rows[1..], r, size)
  }

  /** No resource has two bodies; the table itself does not forbid it. */
  predicate Single(rows: seq<Medium>) {
    rows == [] || (SizeOf(rows[1..], rows[0].resource) == None && Single(rows[1..]))
  }

  predicate Owns(resources: map<Id, Res>, p: Id, r: Id) {
    r in resources && resources[r].owner == p
  }

  /** The sizes of the bodies p owns, added up. */
  function Owned(rows: seq<Medium>, resources: map<Id, Res>, p: Id): nat {
    if rows == [] then 0
    else
      var first := if Owns(resources, p, rows[0].resource) then rows[0].size else 0;
      first + Owned(rows[1..], resources, p)
  }

  /** The size of the body of r, 0 without one, counted for its owner p only. */
  function Share(rows: seq<Medium>, resources: map<Id, Res>, p: Id, r: Id): nat {
    var size := SizeOf(rows, r);
    if Owns(resources, p, r) && size.Some? then size.value else 0
  }

  lemma {:induction false} OwnedAppend(rows: seq<Medium>, resources: map<Id, Res>, p: Id, m: Medium)
    ensures var more := if Owns(resources, p, m.resource) then m.size else 0;
      Owned(rows + [m], resources, p) == Owned(rows, resources, p) + more
  {
    if rows == [] {
      assert [m][1..] == [];
    } else {
      OwnedAppend(rows[1..], resources, p, m);
      assert (rows + [m])[1..] == rows[1..] + [m];
    }
  }

  lemma {:induction false} NoneLeft(rows: seq<Medium>, r: Id, size: nat)
    requires SizeOf(rows, r) == None
    ensures Without(rows, r) == rows && Resized(rows, r, size) == rows
  {
    if rows != [] {
      NoneLeft(rows[1..], r, size);
    }
  }

  lemma {:induction false} OwnedWithout(rows: seq<Medium>, resources: map<Id, Res>, p: Id, r: Id)
    requires Single(rows)
    ensures Owned(Without(rows, r), resources, p) == Owned(rows, resources, p) - Share(rows, resources, p, r)
  {
    if rows != [] {
      var rest := Without(rows[1..], r);
      if rows[0].resource == r {
        NoneLeft(rows[1..], r, 0);
        assert [] + rest == rows[1..];
      } else {
        OwnedWithout(rows[1..], resources, p, r);
        assert ([rows[0]] + rest)[1..] == rest;
      }
    }
  }

  lemma {:induction false} OwnedResized(rows: seq<Medium>, resources: map<Id, Res>, p: Id, r: Id, size: nat)
    requires Single(rows)
    ensures SizeOf(rows, r).Some? ==>
      Owned(Resized(rows, r, size), resources, p) ==
      Owned(rows, resources, p) - Share(rows, resources, p, r) + if Owns(resources, p, r) then size else 0
  {
    if rows != [] {
      var more := Resized(rows, r, size);
      assert more[1..] == Resized(rows[1..], r, size);
      if rows[0].resource == r {
        NoneLeft(rows[1..], r, size);
      } else {
        OwnedResized(rows[1..], resources, p, r, size);
      }
    }
  }

  /** Only rows of resources whose owner has changed matter. */
  lemma {:induction false} OwnedFrame(rows: seq<Medium>, a: map<Id, Res>, b: map<Id, Res>, p: Id)
    requires forall r :: SizeOf(rows, r).Some? ==> (Owns(a, p, r) <==> Owns(b, p, r))
    ensures Owned(rows, a, p) == Owned(rows, b, p)
  {
    if rows != [] {
      forall r | SizeOf(rows[1..], r).Some?
        ensures Owns(a, p, r) <==> Owns(b, p, r)
      {
        assert SizeOf(rows, r).Some?;
      }
      assert SizeOf(rows, rows[0].resource).Some?;
      OwnedFrame(rows[1..], a, b, p);
    }
  }

  lemma {:induction false} SizesAppend(rows: seq<Medium>, m: Medium, r: Id)
    ensures var size := SizeOf(rows, r);
      SizeOf(rows + [m], r) == if size.Some? then size else if m.resource == r then Some(m.size) else None
  {
    if rows == [] {
      assert [m][1..] == [];
    } else {
      assert (rows + [m])[1..] == rows[1..] + [m];
      SizesAppend(rows[1..], m, r);
    }
  }

  lemma {:induction false} SingleAppend(rows: seq<Medium>, m: Medium)
    requires Single(rows) && SizeOf(rows, m.resource) == None
    ensures Single(rows + [m])
  {
    if rows == [] {
      assert [m][1..] == [];
    } else {
      assert (rows + [m])[1..] == rows[1..] + [m];
      SingleAppend(rows[1..], m);
      SizesAppend(rows[1..], m, rows[0].resource);
    }
  }

  lemma {:induction false} SizesWithout(rows: seq<Medium>, r: Id, q: Id)
    ensures SizeOf(Without(rows, r), q) == if q == r then None else SizeOf(rows, q)
  {
    if rows != [] {
      SizesWithout(rows[1..], r, q);
      var rest := Without(rows[1..], r);
      assert ([rows[0]] + rest)[1..] == rest;
      assert [] + rest == rest;
    }
  }

  lemma {:induction false} SingleWithout(rows: seq<Medium>, r: Id)
    requires Single(rows)
    ensures Single(Without(rows, r))
  {
    if rows != [] {
      SingleWithout(rows[1..], r);
      var rest := Without(rows[1..], r);
      assert ([rows[0]] + rest)[1..] == rest;
      assert [] + rest == rest;
      SizesWithout(rows[1..], r, rows[0].resource);
    }
  }

  lemma {:induction false} SizesResized(rows: seq<Medium>, r: Id, size: nat, q: Id)
    ensures SizeOf(Resized(rows, r, size), q) == if q == r && SizeOf(rows, r).Some? then Some(size) else SizeOf(rows, q)
  {
    if rows != [] {
      SizesResized(rows[1..], r, size, q);
      assert Resized(rows, r, size)[1..] == Resized(rows[1..], r, size);
    }
  }

  lemma {:induction false} SingleResized(rows: seq<Medium>, r: Id, size: nat)
    requires Single(rows)
    ensures Single(Resized(rows, r, size))
  {
    if rows != [] {
      SingleResized(rows[1..], r, size);
      assert Resized(rows, r, size)[1..] == Resized(rows[1..], r, size);
      SizesResized(rows[1..], r, size, rows[0].resource);
    }
  }

  // ---------------------------------------------------------------- statements

  /** UPDATE quota for the owner of r.  Owners without a row are not charged; a negative
      result fails the check on the table. */
  function Charged(s: Store, r: Id, delta: int): Option<Store> {
    if r !in s.resources || s.resources[r].owner !in s.quota then Some(s)
    else
      var p := s.resources[r].owner;
      var a := s.quota[p];
      if a.used + delta < 0 then None else Some(s.(quota := s.quota[p := a.(used := a.used + delta)]))
  }

  /** INSERT INTO media; its rule comes after it. */
  function Inserted(s: Store, r: Id, size: nat): Option<Store> {
    if r !in s.resources then None else Charged(s.(media := s.media + [Medium(r, size)]), r, size)
  }

  /** UPDATE media; its rule comes first, and only if there is a row. */
  function Updated(s: Store, r: Id, size: nat): Option<Store> {
    var had := SizeOf(s.media, r);
    if had == None then Some(s)
    else
      var t := Charged(s, r, size - had.value);
      if t == None then None else Some(t.value.(media := Resized(s.media, r, size)))
  }

  /** DELETE FROM media; its rule comes first, and only if there is a row. */
  function MediaDeleted(s: Store, r: Id): Option<Store> {
    var had := SizeOf(s.media, r);
    if had == None then Some(s)
    else
      var t := Charged(s, r, 0 - had.value);
      if t == None then None else Some(t.value.(media := Without(s.media, r)))
  }

  /** dbms_copy_media_props: a deletion, then an insertion of what is selected after it. */
  function Copied(s: Store, src: Id, dst: Id): Option<Store> {
    var t := MediaDeleted(s, dst);
    if t == None then None
    else
      var size := SizeOf(t.value.media, src);
      if size == None then t else Inserted(t.value, dst, size.value)
  }

  /** dbms_delete_resource: the account is adjusted by hand for types with a body, since the
      cascade to media fires no rule.  Subtracting the size of a missing body is an error.
      The cascade also takes the account of a principal. */
  function Deleted(s: Store, r: Id): Option<Store> {
    if r !in s.resources then Some(s)
    else
      var size := SizeOf(s.media, r);
      var t :=
        if s.resources[r].kind != Body || s.resources[r].owner !in s.quota then Some(s)
        else if size == None then None
        else Charged(s, r, 0 - size.value);
      if t == None then None
      else
        Some(t.value.(resources := t.value.resources - {r}, media := Without(s.media, r), quota := t.value.quota - {r}))
  }

  // ---------------------------------------------------------------- requests

  datatype Request =
    | CreateBody(owner: Id, size: nat)
    | CreateLockNull(owner: Id)
    | CreateBodiless(owner: Id)
    | CreateUser(total: int)
    | Put(r: Id, size: nat)
    | Copy(src: Id, dst: Id)
    | Delete(r: Id)

  function Added(s: Store, owner: Id, kind: Kind): Store {
    s.(resources := s.resources[s.next := Res(owner, kind)], next := s.next + 1)
  }

  function Opened(s: Store, p: Id, total: int): Store {
    s.(quota := s.quota[p := Account(0, total)])
  }

  /** A lock-null resource gets an empty body and the type that goes with it. */
  function GivenBody(s: Store, r: Id): Option<Store>
    requires r in s.resources
  {
    Inserted(s.(resources := s.resources[r := s.resources[r].(kind := Body)]), r, 0)
  }

  /** What a request does, or nothing when one of its statements fails.  An owner is the
      principal of a request; whether it still exists is looked at on commit. */
  function Do(s: Store, q: Request): Option<Store> {
    match q
    case CreateBody(owner, size) => if owner < s.next then Inserted(Added(s, owner, Body), s.next, size) else None
    case CreateLockNull(owner) => if owner < s.next then Some(Added(s, owner, LockNull)) else None
    case CreateBodiless(owner) => if owner < s.next then Some(Added(s, owner, Bodiless)) else None
    case CreateUser(total) => Some(Opened(Added(s, s.next, Bodiless), s.next, total))
    case Put(r, size) =>
      if r !in s.resources || s.resources[r].kind == Bodiless then Some(s)
      else if s.resources[r].kind == Body then Updated(s, r, size)
      else
        var t := GivenBody(s, r);
        if t == None then None else Updated(t.value, r, size)
    case Copy(src, dst) =>
      if src !in s.resources || s.resources[src].kind != Body then Some(s)
      else if dst !in s.resources || s.resources[dst].kind == Bodiless then Some(s)
      else if s.resources[dst].kind == Body then Copied(s, src, dst)
      else
        var t := GivenBody(s, dst);
        if t == None then None else Copied(t.value, src, dst)
    case Delete(r) => Deleted(s, r)
  }

  // ---------------------------------------------------------------- the accounts are right

  predicate Exact(s: Store) {
    forall p :: p in s.quota ==> s.quota[p].used == Owned(s.media, s.resources, p)
  }

  /** Bodies belong to resources with a type that has one, and one each. */
  ghost predicate Tidy(s: Store) {
    && Single(s.media)
    && (forall r :: SizeOf(s.media, r).Some? ==> r in s.resources && s.resources[r].kind == Body)
    && (forall r :: r in s.resources ==> r < s.next)
    && (forall p :: p in s.quota ==> p in s.resources)
    && (forall r :: r in s.resources ==> s.resources[r].owner < s.next)
  }

  ghost predicate Sound(s: Store) {
    Exact(s) && Tidy(s)
  }

  lemma ChargedBy(s: Store, r: Id, delta: int, p: Id)
    requires Charged(s, r, delta).Some?
    ensures var t := Charged(s, r, delta).value;
      && t == s.(quota := t.quota) && t.quota.Keys == s.quota.Keys
      && (p in s.quota ==> t.quota[p].total == s.quota[p].total)
      && (p in s.quota ==> t.quota[p].used == s.quota[p].used + if Owns(s.resources, p, r) then delta else 0)
  {
  }

  lemma InsertedKeeps(s: Store, r: Id, size: nat)
    requires Sound(s) && r in s.resources && s.resources[r].kind == Body && SizeOf(s.media, r) == None
    ensures Inserted(s, r, size).Some? && Sound(Inserted(s, r, size).value)
  {
    var m := Medium(r, size);
    var mid := s.(media := s.media + [m]);
    SingleAppend(s.media, m);
    var t := Inserted(s, r, size).value;
    forall q
      ensures var had := SizeOf(s.media, q);
        SizeOf(t.media, q) == if had.Some? then had else if r == q then Some(size) else None
    {
      SizesAppend(s.media, m, q);
    }
    forall p | p in t.quota
      ensures t.quota[p].used == Owned(t.media, t.resources, p)
    {
      ChargedBy(mid, r, size, p);
      OwnedAppend(s.media, s.resources, p, m);
    }
  }

  lemma UpdatedKeeps(s: Store, r: Id, size: nat)
    requires Sound(s)
    ensures Updated(s, r, size).Some? && Sound(Updated(s, r, size).value)
  {
    var had := SizeOf(s.media, r);
    if had.Some? {
      var p0 := s.resources[r].owner;
      OwnedResized(s.media, s.resources, p0, r, size);
      var t := Updated(s, r, size).value;
      SingleResized(s.media, r, size);
      forall q
        ensures SizeOf(t.media, q).Some? <==> SizeOf(s.media, q).Some?
      {
        SizesResized(s.media, r, size, q);
      }
      forall p | p in t.quota
        ensures t.quota[p].used == Owned(t.media, t.resources, p)
      {
        ChargedBy(s, r, size - had.value, p);
        OwnedResized(s.media, s.resources, p, r, size);
      }
    }
  }

  lemma MediaDeletedKeeps(s: Store, r: Id)
    requires Sound(s)
    ensures MediaDeleted(s, r).Some? && Sound(MediaDeleted(s, r).value)
    ensures var t := MediaDeleted(s, r).value; t.resources == s.resources && t.media == Without(s.media, r)
  {
    var had := SizeOf(s.media, r);
    if had == None {
      NoneLeft(s.media, r, 0);
    } else {
      OwnedWithout(s.media, s.resources, s.resources[r].owner, r);
      var t := MediaDeleted(s, r).value;
      SingleWithout(s.media, r);
      forall q
        ensures SizeOf(t.media, q).Some? ==> SizeOf(s.media, q).Some?
      {
        SizesWithout(s.media, r, q);
      }
      forall p | p in t.quota
        ensures t.quota[p].used == Owned(t.media, t.resources, p)
      {
        ChargedBy(s, r, 0 - had.value, p);
        OwnedWithout(s.media, s.resources, p, r);
      }
    }
  }

  lemma CopiedKeeps(s: Store, src: Id, dst: Id)
    requires Sound(s) && dst in s.resources && s.resources[dst].kind == Body
    ensures Copied(s, src, dst).Some? && Sound(Copied(s, src, dst).value)
    ensures SizeOf(Copied(s, src, dst).value.media, dst) == if src == dst then None else SizeOf(s.media, src)
  {
    MediaDeletedKeeps(s, dst);
    var t := MediaDeleted(s, dst).value;
    SizesWithout(s.media, dst, dst);
    SizesWithout(s.media, dst, src);
    var size := SizeOf(t.media, src);
    if size.Some? {
      InsertedKeeps(t, dst, size.value);
      SizesAppend(t.media, Medium(dst, size.value), dst);
    }
  }

  /** What is left after a deletion that did not fail. */
  lemma DeletedLeaves(s: Store, r: Id)
    requires Tidy(s) && Deleted(s, r).Some?
    ensures Tidy(Deleted(s, r).value)
    ensures forall p :: r in s.resources ==>
      var t := Deleted(s, r).value;
      Owned(t.media, t.resources, p) == Owned(s.media, s.resources, p) - Share(s.media, s.resources, p, r)
  {
    var t := Deleted(s, r).value;
    SingleWithout(s.media, r);
    forall q
      ensures SizeOf(Without(s.media, r), q) == if q == r then None else SizeOf(s.media, q)
    {
      SizesWithout(s.media, r, q);
    }
    forall p | r in s.resources
      ensures Owned(t.media, t.resources, p) == Owned(s.media, s.resources, p) - Share(s.media, s.resources, p, r)
    {
      OwnedWithout(s.media, s.resources, p, r);
      OwnedFrame(t.media, t.resources, s.resources, p);
    }
  }

  lemma DeletedKeeps(s: Store, r: Id)
    requires Sound(s) && Deleted(s, r).Some?
    ensures Sound(Deleted(s, r).value)
  {
    DeletedLeaves(s, r);
    if r in s.resources {
      var t := Deleted(s, r).value;
      forall p | p in t.quota
        ensures t.quota[p].used == Owned(t.media, t.resources, p)
      {
        var size := SizeOf(s.media, r);
        if s.resources[r].kind == Body && s.resources[r].owner in s.quota {
          ChargedBy(s, r, 0 - size.value, p);
        }
      }
    }
  }

  /** Deleting fails exactly for a missing body whose owner has an account. */
  lemma DeletedFailsIff(s: Store, r: Id)
    requires Sound(s)
    ensures Deleted(s, r) == None <==>
      r in s.resources && s.resources[r].kind == Body && s.resources[r].owner in s.quota && SizeOf(s.media, r) == None
  {
    if r in s.resources && SizeOf(s.media, r).Some? {
      OwnedWithout(s.media, s.resources, s.resources[r].owner, r);
    }
  }

  lemma AddedKeeps(s: Store, owner: Id, kind: Kind)
    requires Sound(s) && owner <= s.next
    ensures Sound(Added(s, owner, kind)) && SizeOf(s.media, s.next) == None
  {
    var t := Added(s, owner, kind);
    forall p | p in t.quota
      ensures Owned(t.media, t.resources, p) == Owned(s.media, s.resources, p)
    {
      OwnedFrame(s.media, t.resources, s.resources, p);
    }
  }

  lemma CreatedUserKeeps(s: Store, total: int)
    requires Sound(s)
    ensures Sound(Opened(Added(s, s.next, Bodiless), s.next, total))
  {
    AddedKeeps(s, s.next, Bodiless);
    NothingOwned(s.media, s.resources, s.next);
    var mid := Added(s, s.next, Bodiless);
    OwnedFrame(s.media, mid.resources, s.resources, s.next);
  }

  lemma {:induction false} NothingOwned(rows: seq<Medium>, resources: map<Id, Res>, p: Id)
    requires forall r :: !Owns(resources, p, r)
    ensures Owned(rows, resources, p) == 0
  {
    if rows != [] {
      NothingOwned(rows[1..], resources, p);
    }
  }

  lemma GivenBodyKeeps(s: Store, r: Id)
    requires Sound(s) && r in s.resources && s.resources[r].kind == LockNull
    ensures GivenBody(s, r).Some? && Sound(GivenBody(s, r).value)
    ensures var t := GivenBody(s, r).value; r in t.resources && t.resources[r].kind == Body
    ensures var t := GivenBody(s, r).value; forall q :: q != r ==> SizeOf(t.media, q) == SizeOf(s.media, q)
  {
    var mid := s.(resources := s.resources[r := s.resources[r].(kind := Body)]);
    forall p | p in mid.quota
      ensures mid.quota[p].used == Owned(mid.media, mid.resources, p)
    {
      OwnedFrame(s.media, mid.resources, s.resources, p);
    }
    InsertedKeeps(mid, r, 0);
    forall q
      ensures q != r ==> SizeOf(s.media + [Medium(r, 0)], q) == SizeOf(s.media, q)
    {
      SizesAppend(s.media, Medium(r, 0), q);
    }
  }

  lemma DoKeeps(s: Store, q: Request)
    requires Sound(s) && Do(s, q).Some?
    ensures Sound(Do(s, q).value)
  {
    match q
    case CreateBody(owner, size) =>
      AddedKeeps(s, owner, Body);
      InsertedKeeps(Added(s, owner, Body), s.next, size);
    case CreateLockNull(owner) => AddedKeeps(s, owner, LockNull);
    case CreateBodiless(owner) => AddedKeeps(s, owner, Bodiless);
    case CreateUser(total) => CreatedUserKeeps(s, total);
    case Put(r, size) =>
      if r in s.resources && s.resources[r].kind == LockNull {
        GivenBodyKeeps(s, r);
        UpdatedKeeps(GivenBody(s, r).value, r, size);
      } else {
        UpdatedKeeps(s, r, size);
      }
    case Copy(src, dst) =>
      if src in s.resources && dst in s.resources && s.resources[src].kind == Body {
        if s.resources[dst].kind == LockNull {
          GivenBodyKeeps(s, dst);
          CopiedKeeps(GivenBody(s, dst).value, src, dst);
        } else if s.resources[dst].kind == Body {
          CopiedKeeps(s, src, dst);
        }
      }
    case Delete(r) => DeletedKeeps(s, r);
  }

  // ---------------------------------------------------------------- where it can go wrong

  /** Deleting keeps the accounts right exactly when the type has a body, or there is
      nothing to subtract, or nobody to subtract it from, or the account goes as well. */
  lemma DeletedExactIff(s: Store, r: Id)
    requires Exact(s) && Single(s.media) && r in s.resources && Deleted(s, r).Some?
    ensures Exact(Deleted(s, r).value) <==>
      || s.resources[r].kind == Body
      || s.resources[r].owner !in s.quota || s.resources[r].owner == r
      || SizeOf(s.media, r) == None
      || SizeOf(s.media, r).value == 0
  {
    var t := Deleted(s, r).value;
    var p0 := s.resources[r].owner;
    forall p
      ensures Owned(t.media, t.resources, p) == Owned(s.media, s.resources, p) - Share(s.media, s.resources, p, r)
    {
      OwnedWithout(s.media, s.resources, p, r);
      SizesWithout(s.media, r, r);
      forall q | SizeOf(t.media, q).Some?
        ensures q != r
      {
      }
      OwnedFrame(t.media, t.resources, s.resources, p);
    }
    if s.resources[r].kind == Body && p0 in s.quota {
      forall p | p in t.quota
        ensures t.quota[p].used == Owned(t.media, t.resources, p)
      {
        ChargedBy(s, r, 0 - SizeOf(s.media, r).value, p);
      }
    }
  }

  /** Every resource whose type has a body has one. */
  ghost predicate Bodied(s: Store) {
    forall r :: r in s.resources && s.resources[r].kind == Body ==> SizeOf(s.media, r).Some?
  }

  /** Copying keeps a body behind every resource exactly when source and destination are
      different resources: copied onto another name of itself, a resource loses its body. */
  lemma CopyBodiedIff(s: Store, src: Id, dst: Id)
    requires Sound(s) && Bodied(s) && src in s.resources && dst in s.resources
    requires s.resources[src].kind == Body && s.resources[dst].kind == Body
    ensures Copied(s, src, dst).Some? && (Bodied(Copied(s, src, dst).value) <==> src != dst)
  {
    CopiedKeeps(s, src, dst);
    var t := Copied(s, src, dst).value;
    assert t.resources == s.resources;
    forall q | q != dst
      ensures SizeOf(t.media, q) == SizeOf(s.media, q)
    {
      SizesWithout(s.media, dst, q);
      SizesWithout(s.media, dst, src);
      MediaDeletedKeeps(s, dst);
      if src != dst {
        SizesAppend(Without(s.media, dst), Medium(dst, SizeOf(s.media, src).value), q);
      }
    }
    if src == dst {
      assert SizeOf(t.media, dst) == None && t.resources[dst].kind == Body;
    }
  }

  // ---------------------------------------------------------------- what each request stores

  ghost predicate SameSizes(s: Store, t: Store, r: Id) {
    forall q :: q != r ==> SizeOf(t.media, q) == SizeOf(s.media, q)
  }

  /** The account of the owner of r, if there is one, has grown by delta, and no other. */
  predicate Grown(s: Store, t: Store, r: Id, delta: int) {
    t.quota.Keys == s.quota.Keys && forall p :: p in s.quota ==>
      t.quota[p] == Account(s.quota[p].used + (if Owns(s.resources, p, r) then delta else 0), s.quota[p].total)
  }

  lemma InsertedIs(s: Store, r: Id, size: nat)
    requires Inserted(s, r, size).Some? && SizeOf(s.media, r) == None
    ensures var t := Inserted(s, r, size).value;
      && SizeOf(t.media, r) == Some(size) && SameSizes(s, t, r) && Grown(s, t, r, size)
      && t.resources == s.resources && t.next == s.next
  {
    forall q
      ensures SizeOf(s.media + [Medium(r, size)], q) == if q == r then Some(size) else SizeOf(s.media, q)
    {
      SizesAppend(s.media, Medium(r, size), q);
    }
  }

  lemma UpdatedIs(s: Store, r: Id, size: nat)
    requires Updated(s, r, size).Some? && SizeOf(s.media, r).Some?
    ensures var t := Updated(s, r, size).value;
      && SizeOf(t.media, r) == Some(size) && SameSizes(s, t, r)
      && Grown(s, t, r, size - SizeOf(s.media, r).value)
      && t.resources == s.resources && t.next == s.next
  {
    forall q
      ensures SizeOf(Resized(s.media, r, size), q) == if q == r then Some(size) else SizeOf(s.media, q)
    {
      SizesResized(s.media, r, size, q);
    }
  }

  lemma CopiedIs(s: Store, src: Id, dst: Id)
    requires Copied(s, src, dst).Some?
    ensures var t := Copied(s, src, dst).value;
      && SizeOf(t.media, dst) == (if src == dst then None else SizeOf(s.media, src)) && SameSizes(s, t, dst)
      && t.resources == s.resources && t.next == s.next
  {
    var t := MediaDeleted(s, dst).value;
    forall q
      ensures SizeOf(t.media, q) == if q == dst then None else SizeOf(s.media, q)
    {
      SizesWithout(s.media, dst, q);
    }
    if SizeOf(t.media, src).Some? {
      InsertedIs(t, dst, SizeOf(t.media, src).value);
    }
  }

  lemma DeletedIs(s: Store, r: Id)
    requires r in s.resources && Deleted(s, r).Some?
    ensures var t := Deleted(s, r).value;
      && t.resources == s.resources - {r} && SizeOf(t.media, r) == None && SameSizes(s, t, r)
      && t.quota.Keys == s.quota.Keys - {r} && t.next == s.next
  {
    forall q
      ensures SizeOf(Without(s.media, r), q) == if q == r then None else SizeOf(s.media, q)
    {
      SizesWithout(s.media, r, q);
    }
  }

  /** Whether a PUT or a copy onto r stores anything: r has a body, or gets one. */
  predicate Storable(s: Store, r: Id) {
    r in s.resources &&
    (s.resources[r].kind == LockNull || (s.resources[r].kind == Body && SizeOf(s.media, r).Some?))
  }

  lemma PutIs(s: Store, r: Id, size: nat)
    requires Sound(s) && Do(s, Put(r, size)).Some?
    ensures var t := Do(s, Put(r, size)).value;
      if Storable(s, r) then
        && SizeOf(t.media, r) == Some(size) && SameSizes(s, t, r)
        && t.resources == s.resources[r := Res(s.resources[r].owner, Body)] && t.next == s.next
      else t == s
  {
    if Storable(s, r) {
      if s.resources[r].kind == LockNull {
        GivenBodyKeeps(s, r);
        GivenBodyIs(s, r);
        UpdatedIs(GivenBody(s, r).value, r, size);
      } else {
        UpdatedIs(s, r, size);
      }
    }
  }

  lemma GivenBodyIs(s: Store, r: Id)
    requires Sound(s) && r in s.resources && s.resources[r].kind == LockNull && GivenBody(s, r).Some?
    ensures var t := GivenBody(s, r).value;
      && SizeOf(t.media, r) == Some(0) && SameSizes(s, t, r)
      && t.resources == s.resources[r := Res(s.resources[r].owner, Body)] && t.next == s.next
  {
    InsertedIs(s.(resources := s.resources[r := s.resources[r].(kind := Body)]), r, 0);
  }

  lemma CopyIs(s: Store, src: Id, dst: Id)
    requires Sound(s) && Do(s, Copy(src, dst)).Some?
    ensures var t := Do(s, Copy(src, dst)).value;
      if src in s.resources && s.resources[src].kind == Body && dst in s.resources && s.resources[dst].kind != Bodiless
      then
        && SizeOf(t.media, dst) == (if src == dst then None else SizeOf(s.media, src)) && SameSizes(s, t, dst)
        && t.resources == s.resources[dst := Res(s.resources[dst].owner, Body)] && t.next == s.next
      else t == s
  {
    if src in s.resources && s.resources[src].kind == Body && dst in s.resources {
      if s.resources[dst].kind == LockNull {
        GivenBodyIs(s, dst);
        CopiedIs(GivenBody(s, dst).value, src, dst);
      } else if s.resources[dst].kind == Body {
        CopiedIs(s, src, dst);
      }
    }
  }

  /** The new rows, and that all others are as they were. */
  lemma CreateIs(s: Store, q: Request)
    requires Sound(s) && Do(s, q).Some? && (q.CreateBody? || q.CreateLockNull? || q.CreateBodiless? || q.CreateUser?)
    ensures var t := Do(s, q).value;
      && t.next == s.next + 1 && SameSizes(s, t, s.next)
      && match q
         case CreateBody(owner, size) =>
           t.resources == s.resources[s.next := Res(owner, Body)] && SizeOf(t.media, s.next) == Some(size)
         case CreateLockNull(owner) =>
           t.resources == s.resources[s.next := Res(owner, LockNull)] && SizeOf(t.media, s.next) == None
         case CreateBodiless(owner) =>
           t.resources == s.resources[s.next := Res(owner, Bodiless)] && SizeOf(t.media, s.next) == None
         case CreateUser(total) =>
           && t.resources == s.resources[s.next := Res(s.next, Bodiless)] && SizeOf(t.media, s.next) == None
           && t.quota == s.quota[s.next := Account(0, total)]
         case _ => true
  {
    assert SizeOf(s.media, s.next) == None;
    if q.CreateBody? {
      InsertedIs(Added(s, q.owner, Body), s.next, q.size);
    }
  }

  // ---------------------------------------------------------------- the tables

  class Tables {
    var resources: map<Id, Res>
    var media: seq<Medium>
    var quota: map<Id, Account>
    var next: Id

    function Now(): Store
      reads this
    {
      Store(resources, media, quota, next)
    }

    method Charge(r: Id, delta: int) returns (ok: bool)
      modifies this`quota
      ensures ok <==> Charged(old(Now()), r, delta).Some?
      ensures ok ==> Now() == Charged(old(Now()), r, delta).value
    {
      if r in resources && resources[r].owner in quota {
        var p := resources[r].owner;
        var used := quota[p].used + delta;
        if used < 0 {
          return false;
        }
        quota := quota[p := quota[p].(used := used)];
      }
      ok := true;
    }

    method FindSize(r: Id) returns (size: Option<nat>)
      ensures size == SizeOf(media, r)
    {
      var i := 0;
      while i < |media|
        invariant 0 <= i <= |media|
        invariant SizeOf(media, r) == SizeOf(media[i..], r)
      {
        if media[i].resource == r {
          return Some(media[i].size);
        }
        assert media[i..][1..] == media[i + 1..];
        i := i + 1;
      }
      size := None;
    }

    /** The statement with its rule after it. */
    method InsertMedia(r: Id, size: nat) returns (ok: bool)
      modifies this`media, this`quota
      ensures ok <==> Inserted(old(Now()), r, size).Some?
      ensures ok ==> Now() == Inserted(old(Now()), r, size).value
      ensures ok && SizeOf(old(media), r) == None ==>
        && SizeOf(media, r) == Some(size) && (forall q :: q != r ==> SizeOf(media, q) == SizeOf(old(media), q))
        && Grown(old(Now()), Now(), r, size)
    {
      if Inserted(Now(), r, size).Some? && SizeOf(media, r) == None {
        InsertedIs(Now(), r, size);
      }
      if r !in resources {
        return false;
      }
      media := media + [Medium(r, size)];
      ok := Charge(r, size);
    }

    /** The statement with its rule before it. */
    method UpdateMediaProps(r: Id, size: nat) returns (ok: bool)
      modifies this`media, this`quota
      ensures ok <==> Updated(old(Now()), r, size).Some?
      ensures ok ==> Now() == Updated(old(Now()), r, size).value
      ensures ok && SizeOf(old(media), r).Some? ==>
        && SizeOf(media, r) == Some(size) && (forall q :: q != r ==> SizeOf(media, q) == SizeOf(old(media), q))
        && Grown(old(Now()), Now(), r, size - SizeOf(old(media), r).value)
    {
      if Updated(Now(), r, size).Some? && SizeOf(media, r).Some? {
        UpdatedIs(Now(), r, size);
      }
      var had := FindSize(r);
      if had == None {
        return true;
      }
      ok := Charge(r, size - had.value);
      if ok {
        media := Resized(media, r, size);
      }
    }

    method DeleteMedia(r: Id) returns (ok: bool)
      modifies this`media, this`quota
      ensures ok <==> MediaDeleted(old(Now()), r).Some?
      ensures ok ==> Now() == MediaDeleted(old(Now()), r).value
    {
      var had := FindSize(r);
      if had == None {
        return true;
      }
      ok := Charge(r, 0 - had.value);
      if ok {
        media := Without(media, r);
      }
    }

    method CopyMediaProps(src: Id, dst: Id) returns (ok: bool)
      modifies this`media, this`quota
      ensures ok <==> Copied(old(Now()), src, dst).Some?
      ensures ok ==> Now() == Copied(old(Now()), src, dst).value
      ensures ok ==> SizeOf(media, dst) == if src == dst then None else SizeOf(old(media), src)
      ensures ok ==> forall q :: q != dst ==> SizeOf(media, q) == SizeOf(old(media), q)
    {
      if Copied(Now(), src, dst).Some? {
        CopiedIs(Now(), src, dst);
      }
      ok := DeleteMedia(dst);
      if !ok {
        return;
      }
      var size := FindSize(src);
      if size.Some? {
        ok := InsertMedia(dst, size.value);
      }
    }

    method DeleteResource(r: Id) returns (ok: bool)
      modifies this
      ensures ok <==> Deleted(old(Now()), r).Some?
      ensures ok ==> Now() == Deleted(old(Now()), r).value
      ensures ok && r in old(resources) ==>
        && resources == old(resources) - {r} && SizeOf(media, r) == None && r !in quota
        && forall q :: q != r ==> SizeOf(media, q) == SizeOf(old(media), q)
    {
      if r in resources && Deleted(Now(), r).Some? {
        DeletedIs(Now(), r);
      }
      if r !in resources {
        return true;
      }
      if resources[r].kind == Body && resources[r].owner in quota {
        var size := FindSize(r);
        if size == None {
          return false;
        }
        ok := Charge(r, 0 - size.value);
        if !ok {
          return;
        }
      }
      resources, media, quota := resources - {r}, Without(media, r), quota - {r};
      ok := true;
    }
  }

  // ---------------------------------------------------------------- transactions

  /** dbms_quota_pre_commit_checks finds somebody. */
  predicate OverLimit(s: Store) {
    exists p :: p in s.quota && s.quota[p].used > s.quota[p].total && s.quota[p].total > 0
  }

  /** Somebody owns a resource and is gone: resources_owner_id_fkey, which has no cascade. */
  predicate Dangling(s: Store) {
    exists r :: r in s.resources && s.resources[r].owner !in s.resources
  }

  /** A principal cannot be deleted while it owns anything else. */
  lemma DeletionDanglesIff(s: Store, p: Id)
    requires !Dangling(s) && Deleted(s, p).Some?
    ensures Dangling(Deleted(s, p).value) <==>
      p in s.resources && exists q :: q in s.resources && q != p && s.resources[q].owner == p
  {
    var t := Deleted(s, p).value;
    if p in s.resources {
      assert forall q :: q in t.resources <==> q in s.resources && q != p;
      if q :| q in s.resources && q != p && s.resources[q].owner == p {
        assert q in t.resources && t.resources[q].owner !in t.resources;
      }
    }
  }

  datatype Mode = Commit | Rollback | IgnoreErrors

  datatype Error = QuotaNotExceeded | DbError | NotEnded

  /** dav_transaction: its own mode, and the mode of the database transaction. */
  class Transaction {
    const start: Store
    var store: Store
    var failed: bool
    var mode: Mode
    var dbMode: Mode

    constructor (start: Store)
      ensures this.start == start && store == start && !failed && mode == Commit && dbMode == Commit
    {
      this.start := start;
      store := start;
      failed := false;
      mode, dbMode := Commit, Commit;
    }

    /** After a failed statement the database refuses all others, unless errors are ignored. */
    method Perform(q: Request)
      modifies this`store, this`failed
      ensures old(failed) ==> failed && store == old(store)
      ensures !old(failed) ==>
        var t := Do(old(store), q);
        if t.Some? then !failed && store == t.value else store == old(store) && (failed <==> dbMode != IgnoreErrors)
    {
      if !failed {
        var t := Do(store, q);
        if t.Some? {
          store := t.value;
        } else {
          failed := dbMode != IgnoreErrors;
        }
      }
    }

    /** dav_repos_transaction_mode_set sets the mode of the database transaction only. */
    method ModeSet(mode: Mode)
      modifies this`dbMode
      ensures dbMode == mode
    {
      dbMode := mode;
    }

    /** The check before the commit finds something and is heeded. */
    predicate Refused()
      reads this
    {
      (failed || OverLimit(store)) && mode != IgnoreErrors
    }

    predicate Undone()
      reads this
    {
      Refused() || dbMode == Rollback || (failed && dbMode != IgnoreErrors)
    }

    method PreCommitChecks() returns (err: Option<Error>)
      modifies this`mode, this`dbMode
      ensures err.Some? <==> old(Refused())
      ensures err.Some? ==> err.value == (if failed then DbError else QuotaNotExceeded) && mode == dbMode == Rollback
      ensures err == None ==> mode == old(mode) && dbMode == old(dbMode)
    {
      err := None;
      var over := set p | p in store.quota && store.quota[p].used > store.quota[p].total && store.quota[p].total > 0;
      if failed {
        err := Some(DbError);
      } else if over != {} {
        var p :| p in over;
        err := Some(QuotaNotExceeded);
      } else {
        assert !OverLimit(store) by {
          assert forall p :: p in store.quota ==> p !in over;
        }
      }
      if err.Some? && mode != IgnoreErrors {
        mode, dbMode := Rollback, Rollback;
      } else {
        err := None;
      }
    }

    /** A transaction that keeps what it did and is not told to ignore errors leaves nobody
        over the limit, and in no mode a resource without its owner: the database refuses to
        commit that. */
    method End() returns (err: Option<Error>)
      modifies this
      ensures store == if old(Undone()) || Dangling(old(store)) then start else old(store)
      ensures err.Some? <==> old(Refused()) || (!old(Undone()) && Dangling(old(store)))
      ensures store != start ==> (old(mode) != IgnoreErrors ==> !OverLimit(store)) && !Dangling(store)
    {
      err := PreCommitChecks();
      if dbMode == Rollback || (failed && dbMode != IgnoreErrors) {
        store := start;
      } else if Dangling(store) {
        store, err := start, Some(NotEnded);
      }
    }
  }

  /** A request with its transaction, or a turn of the collector, which commits without the
      check. */
  datatype Session = Checked(requests: seq<Request>) | Collected(dead: seq<Id>)

  function DoAll(s: Store, qs: seq<Request>): Option<Store>
    decreases |qs|
  {
    if qs == [] then Some(s)
    else
      var t := DoAll(s, qs[..|qs| - 1]);
      if t == None then None else Do(t.value, qs[|qs| - 1])
  }

  function Deletions(dead: seq<Id>): seq<Request> {
    seq(|dead|, i requires 0 <= i < |dead| => Delete(dead[i]))
  }

  /** What is committed in the usual mode. */
  function After(s: Store, x: Session): Store {
    match x
    case Checked(qs) =>
      var t := DoAll(s, qs);
      if t == None || OverLimit(t.value) || Dangling(t.value) then s else t.value
    case Collected(dead) =>
      var t := DoAll(s, Deletions(dead));
      if t == None || Dangling(t.value) then s else t.value
  }

  function AfterAll(s: Store, xs: seq<Session>): Store
    decreases |xs|
  {
    if xs == [] then s else After(AfterAll(s, xs[..|xs| - 1]), xs[|xs| - 1])
  }

  lemma {:induction false} DoAllKeeps(s: Store, qs: seq<Request>)
    requires Sound(s) && DoAll(s, qs).Some?
    ensures Sound(DoAll(s, qs).value)
    decreases |qs|
  {
    if qs != [] {
      DoAllKeeps(s, qs[..|qs| - 1]);
      DoKeeps(DoAll(s, qs[..|qs| - 1]).value, qs[|qs| - 1]);
    }
  }

  /** Deleting charges nobody. */
  lemma {:induction false} DeletionsLower(s: Store, dead: seq<Id>)
    requires Sound(s) && DoAll(s, Deletions(dead)).Some? && !OverLimit(s)
    ensures !OverLimit(DoAll(s, Deletions(dead)).value)
    decreases |dead|
  {
    if dead != [] {
      var less := dead[..|dead| - 1];
      var qs := Deletions(dead);
      assert qs[..|qs| - 1] == Deletions(less) && qs[|qs| - 1] == Delete(dead[|dead| - 1]);
      DeletionsLower(s, less);
      DoAllKeeps(s, Deletions(less));
      var mid := DoAll(s, Deletions(less)).value;
      DeletedLowers(mid, dead[|dead| - 1]);
    }
  }

  lemma DeletedLowers(s: Store, r: Id)
    requires Sound(s) && Deleted(s, r).Some? && !OverLimit(s)
    ensures !OverLimit(Deleted(s, r).value)
  {
  }

  lemma AfterKeeps(s: Store, x: Session)
    requires Sound(s) && !OverLimit(s) && !Dangling(s)
    ensures Sound(After(s, x)) && !OverLimit(After(s, x)) && !Dangling(After(s, x))
  {
    match x
    case Checked(qs) =>
      if DoAll(s, qs).Some? {
        DoAllKeeps(s, qs);
      }
    case Collected(dead) =>
      if DoAll(s, Deletions(dead)).Some? {
        DoAllKeeps(s, Deletions(dead));
        DeletionsLower(s, dead);
      }
  }

  /** In every committed state each account belongs to a principal that is there and holds the
      sizes of the bodies it owns, nobody with a limit owns more than it, and every owner is
      there. */
  lemma {:induction false} CommittedWithin(s: Store, xs: seq<Session>)
    requires Sound(s) && !OverLimit(s) && !Dangling(s)
    ensures var t := AfterAll(s, xs);
      && Sound(t) && !OverLimit(t) && !Dangling(t)
      && (forall p :: p in t.quota ==> p in t.resources)
      && (forall r :: r in t.resources ==> t.resources[r].owner in t.resources)
      && (forall p :: p in t.quota ==> t.quota[p].used == Owned(t.media, t.resources, p))
      && (forall p :: p in t.quota && t.quota[p].total > 0 ==> Owned(t.media, t.resources, p) <= t.quota[p].total)
    decreases |xs|
  {
    if xs != [] {
      CommittedWithin(s, xs[..|xs| - 1]);
      AfterKeeps(AfterAll(s, xs[..|xs| - 1]), xs[|xs| - 1]);
    }
  }

  // ---------------------------------------------------------------- whole transactions

  /** A request in the usual mode: its statements, then the end.  Committing through the
      two objects is what After says. */
  method RunSession(start: Store, qs: seq<Request>) returns (store: Store, err: Option<Error>)
    ensures store == After(start, Checked(qs))
    ensures err.Some? <==>
      DoAll(start, qs) == None || OverLimit(DoAll(start, qs).value) || Dangling(DoAll(start, qs).value)
    ensures err.Some? && DoAll(start, qs).Some? ==> var t := DoAll(start, qs).value;
      || (exists p :: p in t.quota && t.quota[p].used > t.quota[p].total > 0)
      || (exists r :: r in t.resources && t.resources[r].owner !in t.resources)
    ensures err == None ==>
      && (forall p :: p in store.quota && store.quota[p].total > 0 ==> store.quota[p].used <= store.quota[p].total)
      && (forall r :: r in store.resources ==> store.resources[r].owner in store.resources)
  {
    var t := new Transaction(start);
    for i := 0 to |qs|
      invariant t.mode == t.dbMode == Commit && t.start == start
      invariant if t.failed then DoAll(start, qs[..i]) == None else DoAll(start, qs[..i]) == Some(t.store)
    {
      assert qs[..i + 1][..i] == qs[..i];
      t.Perform(qs[i]);
    }
    assert qs[..|qs|] == qs;
    err := t.End();
    store := t.store;
  }

  /** Each request in turn, or nothing in place of one that fails. */
  function DoEach(s: Store, qs: seq<Request>): Store
    decreases |qs|
  {
    if qs == [] then s
    else
      var t := DoEach(s, qs[..|qs| - 1]);
      var u := Do(t, qs[|qs| - 1]);
      if u == None then t else u.value
  }

  lemma DoEachNext(s: Store, qs: seq<Request>, i: nat)
    requires i < |qs|
    ensures var t := DoEach(s, qs[..i]);
      DoEach(s, qs[..i + 1]) == if Do(t, qs[i]) == None then t else Do(t, qs[i]).value
  {
    assert qs[..i + 1][..i] == qs[..i];
  }

  lemma {:induction false} DoEachKeeps(s: Store, qs: seq<Request>)
    requires Sound(s)
    ensures Sound(DoEach(s, qs))
    decreases |qs|
  {
    if qs != [] {
      var t := DoEach(s, qs[..|qs| - 1]);
      DoEachKeeps(s, qs[..|qs| - 1]);
      if Do(t, qs[|qs| - 1]).Some? {
        DoKeeps(t, qs[|qs| - 1]);
      }
    }
  }

  /** What is committed when errors are ignored. */
  function AfterIgnoring(s: Store, qs: seq<Request>): Store {
    var t := DoEach(s, qs);
    if OverLimit(t) || Dangling(t) then s else t
  }

  lemma AfterIgnoringKeeps(s: Store, qs: seq<Request>)
    requires Sound(s) && !OverLimit(s) && !Dangling(s)
    ensures Sound(AfterIgnoring(s, qs)) && !OverLimit(AfterIgnoring(s, qs)) && !Dangling(AfterIgnoring(s, qs))
  {
    DoEachKeeps(s, qs);
  }

  /** Telling the transaction through its hook to ignore errors lets the statements after a
      failure go on, and the limits still hold: the hook leaves the mode that the check
      looks at as it was. */
  method RunIgnoringErrors(start: Store, qs: seq<Request>) returns (store: Store, err: Option<Error>)
    ensures store == AfterIgnoring(start, qs)
    ensures err.Some? <==> OverLimit(DoEach(start, qs)) || Dangling(DoEach(start, qs))
  {
    var t := new Transaction(start);
    t.ModeSet(IgnoreErrors);
    for i := 0 to |qs|
      invariant t.mode == Commit && t.dbMode == IgnoreErrors && t.start == start && !t.failed
      invariant t.store == DoEach(start, qs[..i])
    {
      DoEachNext(start, qs, i);
      t.Perform(qs[i]);
    }
    assert qs[..|qs|] == qs;
    err := t.End();
    store := t.store;
  }

  /** create_postgres_full.sql: eight resources and no bodies yet; 3, 4 and 5 own themselves,
      and user 1 has no limit. */
  lemma SeedSound(resources: map<Id, Res>, quota: map<Id, Account>)
    requires forall r :: r in resources <==> 1 <= r <= 8
    requires forall r :: r in resources ==> resources[r] == Res(if 3 <= r <= 5 then r else 1, Bodiless)
    requires forall p :: p in quota <==> p == 1 || 3 <= p <= 5
    requires forall p :: p in quota ==> quota[p] == Account(0, if p == 1 then 0 else 1073741824)
    ensures var s := Store(resources, [], quota, 9); Sound(s) && !OverLimit(s) && !Dangling(s) && Bodied(s)
  {
  }
}
