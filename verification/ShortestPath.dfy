/** Backward breadth-first search for a shortest path in the bind graph
    (dbms_find_shortest_path_excl_binds in limestone/dbms_bind.c). */
module ShortestPath {
  import opened Common
  import opened BindGraph
  import opened UriText

  /** The binds a round of the search reads. */
  function Parents(binds: set<Bind>, seen: set<int>, excl: set<int>): set<Bind> {
    set b | b in binds && b.res in seen && b.id !in excl
  }

  function Colls(binds: set<Bind>): set<int> {
    set b | b in binds :: b.coll
  }

  /** What the search knows of the resources it has met: the text of a path to `to`
      and the walk it renders. */
  ghost predicate Known(binds: set<Bind>, to: int, text: map<int, string>, via: map<int, seq<Bind>>) {
    text.Keys == via.Keys && to in via &&
    forall x :: x in via ==> IsWalk(binds, x, via[x], to) && text[x] == Render(Names(via[x]))
  }

  /** Every walk to `to` of at most `k` binds starts at a resource already met. */
  ghost predicate MetWithin(binds: set<Bind>, to: int, met: set<int>, k: int) {
    forall x: int, p: seq<Bind> :: IsWalk(binds, x, p, to) && |p| <= k ==> x in met
  }

  ghost predicate NoLonger(via: map<int, seq<Bind>>, k: int) {
    forall x :: x in via ==> |via[x]| <= k
  }

  /** No walk from the start of `walk` to `to` is shorter by more than `slack`. */
  ghost predicate NearlyShortest(binds: set<Bind>, from: int, to: int, walk: seq<Bind>, slack: int) {
    forall p: seq<Bind> :: IsWalk(binds, from, p, to) ==> |walk| <= |p| + slack
  }

  lemma NextLayer(binds: set<Bind>, to: int, before: set<int>, met: set<int>, k: nat)
    requires MetWithin(binds, to, before, k) && to in before
    requires before <= met && forall b :: b in binds && b.res in before ==> b.coll in met
    ensures MetWithin(binds, to, met, k + 1)
  {
  }

  /** A bind into `to`, other than a self-bind, that the first round may use. */
  ghost predicate OpenDoor(binds: set<Bind>, to: int, excl: set<int>) {
    exists b :: b in binds && b.res == to && b.coll != to && b.id !in excl
  }

  lemma NoWayIn(binds: set<Bind>, from: int, to: int, met: set<int>)
    requires to in met && from !in met
    requires forall b :: b in binds && b.res in met ==> b.coll in met
    ensures !Reach(binds, from, to)
  {
    if Reach(binds, from, to) {
      var p :| IsWalk(binds, from, p, to);
      var b := Crossing(binds, from, p, to, met);
      assert false;
    }
  }

  /** `via'` has `via` in it, and walks one bind longer than some walk of `via`. */
  ghost predicate Grown(via: map<int, seq<Bind>>, via': map<int, seq<Bind>>, read: set<Bind>) {
    (forall x :: x in via ==> x in via' && via'[x] == via[x]) &&
    (forall b :: b in read ==> b.res in via) &&
    forall x :: x in via' && x !in via ==> exists b :: b in read && b.coll == x && via'[x] == [b] + via[b.res]
  }

  function Without(binds: set<Bind>, excl: set<int>): set<Bind> {
    set b | b in binds && b.id !in excl
  }

  /** The first round meets the collection of every excluded bind. */
  ghost predicate FirstRoundCovers(binds: set<Bind>, to: int, excl: set<int>) {
    forall b :: b in binds && b.id in excl ==> b.coll == to || Door(binds, b.coll, to, excl)
  }

  ghost predicate Door(binds: set<Bind>, c: int, to: int, excl: set<int>) {
    exists d :: d in binds && d.coll == c && d.res == to && d.id !in excl
  }

  /** How much longer than a shortest walk the walk found can be. */
  ghost function Slack(binds: set<Bind>, to: int, excl: set<int>): int {
    if FirstRoundCovers(binds, to, excl) then 0 else 1
  }

  /** When the first round covers them, no walk uses an excluded bind. */
  ghost predicate Avoids(binds: set<Bind>, to: int, excl: set<int>, via: map<int, seq<Bind>>) {
    FirstRoundCovers(binds, to, excl) ==> forall x :: x in via ==> IsWalk(Without(binds, excl), x, via[x], to)
  }

  ghost predicate DoorsMet(binds: set<Bind>, to: int, excl: set<int>, met: set<int>) {
    forall b :: b in binds && b.res == to && b.id !in excl ==> b.coll in met
  }

  lemma AvoidsKept(binds: set<Bind>, to: int, excl: set<int>, via: map<int, seq<Bind>>, via': map<int, seq<Bind>>,
      read: set<Bind>)
    requires Avoids(binds, to, excl, via) && Grown(via, via', read) && read <= binds && to in via
    requires read <= Without(binds, excl) || DoorsMet(binds, to, excl, via.Keys)
    ensures Avoids(binds, to, excl, via')
  {
    if FirstRoundCovers(binds, to, excl) {
      forall x | x in via'
        ensures IsWalk(Without(binds, excl), x, via'[x], to)
      {
        if x !in via {
          var b :| b in read && b.coll == x && via'[x] == [b] + via[b.res];
          assert b in Without(binds, excl);
          assert via'[x][1..] == via[b.res];
        }
      }
    }
  }

  lemma LongerKept(via: map<int, seq<Bind>>, via': map<int, seq<Bind>>, read: set<Bind>, k: nat)
    requires NoLonger(via, k) && Grown(via, via', read)
    ensures NoLonger(via', k + 1)
  {
  }

  lemma Fewer(all: set<int>, small: set<int>, big: set<int>)
    requires small < big <= all
    ensures |all - big| < |all - small|
  {
    assert big - small != {};
    var x := Pick(big - small);
    Subsets(all - big, all - small - {x});
  }

  lemma LastDoor(binds: set<Bind>, from: int, to: int)
    requires from != to && Reach(binds, from, to)
    ensures OpenDoor(binds, to, {})
  {
    var p :| IsWalk(binds, from, p, to);
    var b := Crossing(binds, from, p, to, {to});
  }

  lemma Meet(binds: set<Bind>, to: int, via: map<int, seq<Bind>>, read: set<Bind>,
             text': map<int, string>, via': map<int, seq<Bind>>, b: Bind)
    requires Known(binds, to, text', via') && Grown(via, via', read)
    requires b in read && b in binds && b.coll !in via'
    ensures Known(binds, to, text'[b.coll := "/" + b.name + text'[b.res]], via'[b.coll := [b] + via'[b.res]])
    ensures Grown(via, via'[b.coll := [b] + via'[b.res]], read)
  {
  }

  /** One round: every bind into the resources met before it is read, in any order. */
  method Round(binds: set<Bind>, from: int, to: int, excluded: set<int>,
               text: map<int, string>, ghost via: map<int, seq<Bind>>)
    returns (path: Option<string>, text': map<int, string>, ghost via': map<int, seq<Bind>>)
    requires Known(binds, to, text, via) && from !in via
    ensures Known(binds, to, text', via')
    ensures path.Some? ==> from in via' && path.value == text'[from]
    ensures path.None? ==> from !in via'
    ensures via.Keys <= via'.Keys <= via.Keys + Colls(binds)
    ensures Grown(via, via', Parents(binds, via.Keys, excluded))
    ensures path.None? ==> forall b :: b in Parents(binds, via.Keys, excluded) ==> b.coll in via'
  {
    text', via' := text, via;
    var todo := Parents(binds, text.Keys, excluded);
    while todo != {}
      invariant todo <= Parents(binds, via.Keys, excluded)
      invariant Known(binds, to, text', via') && via.Keys <= via'.Keys <= via.Keys + Colls(binds)
      invariant from !in via'
      invariant Grown(via, via', Parents(binds, via.Keys, excluded))
      invariant forall b :: b in Parents(binds, via.Keys, excluded) - todo ==> b.coll in via'
      decreases |todo|
    {
      var b: Bind :| b in todo;
      todo := todo - {b};
      if b.coll !in text' {
        Meet(binds, to, via, Parents(binds, via.Keys, excluded), text', via', b);
        text' := text'[b.coll := "/" + b.name + text'[b.res]];
        via' := via'[b.coll := [b] + via'[b.res]];
        if b.coll == from {
          return Some(text'[from]), text', via';
        }
      }
    }
    path := None;
  }

  /** What holds after `k` rounds that did not meet `from`; `more` says that the last
      one met something new. */
  ghost predicate Searched(binds: set<Bind>, from: int, to: int, excl: set<int>, via: map<int, seq<Bind>>,
      k: nat, more: bool) {
    && from !in via && to in via && via.Keys <= {to} + Colls(binds)
    && (k == 0 ==> via.Keys == {to} && more)
    && (more && k > 0 ==> OpenDoor(binds, to, excl))
    && (!more ==> !OpenDoor(binds, to, excl) || !Reach(binds, from, to))
    && NoLonger(via, k) && MetWithin(binds, to, via.Keys, k - Slack(binds, to, excl))
    && Avoids(binds, to, excl, via) && (k > 0 ==> DoorsMet(binds, to, excl, via.Keys))
  }

  lemma AfterRound(binds: set<Bind>, from: int, to: int, excl: set<int>,
                   met: map<int, seq<Bind>>, via: map<int, seq<Bind>>, k: nat)
    requires Searched(binds, from, to, excl, met, k, true) && from !in via
    requires met.Keys <= via.Keys <= met.Keys + Colls(binds)
    requires var read := Parents(binds, met.Keys, if k == 0 then excl else {});
      Grown(met, via, read) && forall b :: b in read ==> b.coll in via
    ensures Searched(binds, from, to, excl, via, k + 1, via.Keys != met.Keys)
    ensures var all := {to} + Colls(binds); via.Keys != met.Keys ==> |all - via.Keys| < |all - met.Keys|
  {
    var read := Parents(binds, met.Keys, if k == 0 then excl else {});
    if via.Keys == met.Keys {
      if k > 0 {
        forall b | b in binds && b.res in via
          ensures b.coll in via
        {
          assert b in read;
        }
        NoWayIn(binds, from, to, via.Keys);
      }
    } else if k == 0 {
      assert via.Keys - met.Keys != {};
      var x := Pick(via.Keys - met.Keys);
      assert x in via && x !in met;
    }
    if via.Keys != met.Keys {
      Fewer({to} + Colls(binds), met.Keys, via.Keys);
    }
    LongerKept(met, via, read, k);
    AvoidsKept(binds, to, excl, met, via, read);
    RoundMeets(binds, to, excl, met.Keys, via.Keys, read, k);
  }

  /** What a round reads meets one more layer, save that a first round may fall short. */
  lemma RoundMeets(binds: set<Bind>, to: int, excl: set<int>, met: set<int>, via: set<int>, read: set<Bind>, k: nat)
    requires to in met && met <= via && read == Parents(binds, met, if k == 0 then excl else {})
    requires MetWithin(binds, to, met, k - Slack(binds, to, excl)) && (k == 0 ==> met == {to})
    requires forall b :: b in read ==> b.coll in via
    ensures MetWithin(binds, to, via, k + 1 - Slack(binds, to, excl)) && DoorsMet(binds, to, excl, via)
  {
    forall b | b in binds && b.res == to && b.id !in excl
      ensures b.coll in via
    {
      assert b in read;
    }
    if k > 0 || FirstRoundCovers(binds, to, excl) {
      forall b | b in binds && b.res in met
        ensures b.coll in via
      {
        if k == 0 && b.id in excl && b.coll != to {
          var d :| d in binds && d.coll == b.coll && d.res == to && d.id !in excl;
        } else {
          assert b in read || b.coll == to;
        }
      }
      NextLayer(binds, to, met, via, k - Slack(binds, to, excl));
    }
  }

  lemma Found(binds: set<Bind>, from: int, to: int, excl: set<int>,
              met: map<int, seq<Bind>>, via: map<int, seq<Bind>>, k: nat)
    requires Searched(binds, from, to, excl, met, k, true) && from in via && from != to
    requires IsWalk(binds, from, via[from], to)
    requires Grown(met, via, Parents(binds, met.Keys, if k == 0 then excl else {}))
    ensures Reach(binds, from, to) && OpenDoor(binds, to, excl)
    ensures NearlyShortest(binds, from, to, via[from], Slack(binds, to, excl))
    ensures Avoids(binds, to, excl, via)
  {
    var read := Parents(binds, met.Keys, if k == 0 then excl else {});
    LongerKept(met, via, read, k);
    AvoidsKept(binds, to, excl, met, via, read);
  }

  lemma SearchStart(binds: set<Bind>, from: int, to: int, excl: set<int>, text: map<int, string>, via: map<int,
      seq<Bind>>)
    requires from != to && text == map[to := ""] && via == map[to := []]
    ensures Known(binds, to, text, via) && Searched(binds, from, to, excl, via, 0, true)
  {
  }

  /** The rounds, until `from` is met or a round meets nothing new. */
  method Search(binds: set<Bind>, from: int, to: int, excl: set<int>)
    returns (path: Option<string>, ghost walk: seq<Bind>)
    requires from != to
    ensures path.Some? ==> IsWalk(binds, from, walk, to) && path.value == Render(Names(walk))
    ensures path.Some? <==> Reach(binds, from, to) && OpenDoor(binds, to, excl)
    ensures path.Some? ==> NearlyShortest(binds, from, to, walk, Slack(binds, to, excl))
    ensures path.Some? && FirstRoundCovers(binds, to, excl) ==> IsWalk(Without(binds, excl), from, walk, to)
  {
    walk := [];
    var text: map<int, string> := map[to := ""];
    ghost var via: map<int, seq<Bind>> := map[to := []];
    SearchStart(binds, from, to, excl, text, via);
    var excluded := excl;
    var more := true;
    ghost var k: nat := 0;
    while more
      invariant Known(binds, to, text, via)
      invariant Searched(binds, from, to, excl, via, k, more)
      invariant excluded == if k == 0 then excl else {}
      decreases |({to} + Colls(binds)) - via.Keys|, more
    {
      ghost var met := via;
      var known := text.Keys;
      path, text, via := Round(binds, from, to, excluded, text, via);
      if path.Some? {
        Found(binds, from, to, excl, met, via, k);
        walk := via[from];
        return;
      }
      AfterRound(binds, from, to, excl, met, via, k);
      more := text.Keys != known;
      k := k + 1;
      excluded := {};
    }
    path := None;
  }

  /** The search.  `excl` is the list of bind ids to leave out; as in the source it is
      used up by the first round, and the later rounds read every bind.  The walk is at most
      one bind too long; it is minimal and avoids the excluded binds when the first round
      meets all their collections. */
  method FindShortestPathExclBinds(binds: set<Bind>, from: int, to: int, excl: set<int>)
    returns (path: Option<string>, ghost walk: seq<Bind>)
    ensures path.Some? ==> IsWalk(binds, from, walk, to) && path.value == Render(Names(walk))
    ensures path.Some? <==> from == to || (Reach(binds, from, to) && OpenDoor(binds, to, excl))
    ensures excl == {} ==> (path.Some? <==> Reach(binds, from, to))
    ensures excl == {} && path.Some? ==> forall p: seq<Bind> :: IsWalk(binds, from, p, to) ==> |walk| <= |p|
    ensures path.Some? ==> forall p: seq<Bind> :: IsWalk(binds, from, p, to) ==> |walk| <= |p| + 1
    ensures path.Some? && FirstRoundCovers(binds, to, excl) ==>
      && (forall i :: 0 <= i < |walk| ==> walk[i] in binds && walk[i].id !in excl)
      && forall p: seq<Bind> :: IsWalk(binds, from, p, to) ==> |walk| <= |p|
  {
    if from == to {
      ReachSelf(binds, from);
      return Some(""), [];
    }
    if excl == {} && Reach(binds, from, to) {
      LastDoor(binds, from, to);
    }
    path, walk := Search(binds, from, to, excl);
    if path.Some? && FirstRoundCovers(binds, to, excl) {
      WalkBinds(Without(binds, excl), from, walk, to);
    }
  }

  /** The search with the binds left out of every round, as its callers mean it: exact, and
      shortest among the walks that avoid them. */
  method FindShortestPathWithout(binds: set<Bind>, from: int, to: int, excl: set<int>)
    returns (path: Option<string>, ghost walk: seq<Bind>)
    ensures path.Some? <==> Reach(Without(binds, excl), from, to)
    ensures path.Some? ==> IsWalk(Without(binds, excl), from, walk, to) && path.value == Render(Names(walk))
    ensures path.Some? ==> forall p: seq<Bind> :: IsWalk(Without(binds, excl), from, p, to) ==> |walk| <= |p|
    ensures path.Some? ==> IsWalk(binds, from, walk, to) && forall i :: 0 <= i < |walk| ==> walk[i].id !in excl
    ensures forall p: seq<Bind> :: IsWalk(binds, from, p, to) && (forall i :: 0 <= i < |p| ==> p[i].id !in excl) ==>
      path.Some? && |walk| <= |p|
  {
    path, walk := FindShortestPathExclBinds(Without(binds, excl), from, to, {});
    forall p: seq<Bind>
      ensures IsWalk(Without(binds, excl), from, p, to) <==>
        IsWalk(binds, from, p, to) && forall i :: 0 <= i < |p| ==> p[i].id !in excl
    {
      WalkWithout(binds, excl, from, p, to);
    }
  }

  lemma WalkWithout(binds: set<Bind>, excl: set<int>, from: int, p: seq<Bind>, to: int)
    ensures IsWalk(Without(binds, excl), from, p, to) <==>
      IsWalk(binds, from, p, to) && forall i :: 0 <= i < |p| ==> p[i].id !in excl
  {
    if IsWalk(Without(binds, excl), from, p, to) {
      WalkBinds(Without(binds, excl), from, p, to);
      WalkMonotone(Without(binds, excl), binds, from, p, to);
    }
    if IsWalk(binds, from, p, to) && forall i :: 0 <= i < |p| ==> p[i].id !in excl {
      WalkMonotone(binds, Without(binds, excl), from, p, to);
    }
  }

  /** What can be reached without the excluded binds is always found. */
  lemma NothingMissed(binds: set<Bind>, from: int, to: int, excl: set<int>)
    requires from != to && Reach(Without(binds, excl), from, to)
    ensures Reach(binds, from, to) && OpenDoor(binds, to, excl)
  {
    LastDoor(Without(binds, excl), from, to);
    ReachMonotone(Without(binds, excl), binds, from, to);
  }

  /** From every start, the search finds a path exactly when one avoids the excluded binds, if
      and only if the first round has nothing to follow, or whatever an excluded bind leads
      to `to` gets there without excluded binds as well. */
  lemma ExclusionExactIff(binds: set<Bind>, to: int, excl: set<int>)
    ensures (forall from :: from != to ==>
        (Reach(binds, from, to) && OpenDoor(binds, to, excl) <==> Reach(Without(binds, excl), from, to))) <==>
      !OpenDoor(binds, to, excl) || DetoursAround(binds, to, excl)
  {
    forall from | from != to && Reach(Without(binds, excl), from, to)
      ensures Reach(binds, from, to) && OpenDoor(binds, to, excl)
    {
      NothingMissed(binds, from, to, excl);
    }
    if DetoursAround(binds, to, excl) {
      forall from | from != to && Reach(binds, from, to)
        ensures Reach(Without(binds, excl), from, to)
      {
        var p :| IsWalk(binds, from, p, to);
        Detour(binds, to, excl, from, p);
      }
    }
    if !DetoursAround(binds, to, excl) {
      var b :| b in binds && NoDetour(binds, to, excl, b);
      OneBind(binds, b);
      ReachTrans(binds, b.coll, b.res, to);
    }
  }

  ghost predicate DetoursAround(binds: set<Bind>, to: int, excl: set<int>) {
    forall b :: b in binds ==> !NoDetour(binds, to, excl, b)
  }

  /** b is excluded and leads to `to`, and its collection does not without excluded binds. */
  ghost predicate NoDetour(binds: set<Bind>, to: int, excl: set<int>, b: Bind) {
    b.id in excl && b.coll != to && Reach(binds, b.res, to) && !Reach(Without(binds, excl), b.coll, to)
  }

  lemma {:induction false} Detour(binds: set<Bind>, to: int, excl: set<int>, from: int, p: seq<Bind>)
    requires DetoursAround(binds, to, excl) && IsWalk(binds, from, p, to)
    ensures Reach(Without(binds, excl), from, to)
    decreases |p|
  {
    if from == to {
      ReachSelf(Without(binds, excl), to);
    } else {
      var b := p[0];
      assert Reach(binds, b.res, to);
      if b.id !in excl {
        Detour(binds, to, excl, b.res, p[1..]);
        OneBind(Without(binds, excl), b);
        ReachTrans(Without(binds, excl), from, b.res, to);
      }
    }
  }

  /** The converse of NothingMissed fails: bind 2 is excluded, yet the path found goes through it, because
      bind 3 gives the first round something new to look at. */
  lemma ExclusionForgotten()
    ensures var binds := {Bind(1, 2, "a", 10), Bind(2, 10, "b", 12), Bind(3, 11, "c", 12)};
      Reach(binds, 2, 12) && OpenDoor(binds, 12, {2}) && !Reach(Without(binds, {2}), 2, 12)
  {
    var a, b, c := Bind(1, 2, "a", 10), Bind(2, 10, "b", 12), Bind(3, 11, "c", 12);
    var binds := {a, b, c};
    OneBind(binds, a);
    ReachStep(binds, 2, b);
    NoWayIn(Without(binds, {2}), 2, 12, {11, 12});
  }
}
