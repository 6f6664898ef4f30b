/** What each request on roles commits and announces, and who is told. */
module RoleEffects {
  import opened Text
  import opened RoleEvents

  /* ---- roles ---- */

  /** The four roles, from the lowest to the highest. */
  lemma RolesInOrder(r: Role, s: Role)
    ensures AtLeast(r, s) <==> r == s || s == NoRole || r == Admin || (s == User && r == Moderator)
    ensures AtLeast(r, s) || AtLeast(s, r)
  {
  }

  /** A request leaves a row exactly for a role other than None, and the rows of other users and miniverses stay. */
  lemma SetRowKeepsRows(rows: RoleTable, u: UserId, m: MiniId, role: Role, v: UserId, k: MiniId)
    ensures var rows' := SetRow(rows, u, m, role);
            k in RolesOf(rows', v) <==> if v == u && k == m then role != NoRole else k in RolesOf(rows, v)
  {
  }

  /** Dropping a miniverse removes the rows for it and no other. */
  lemma DropIsExact(rows: RoleTable, m: MiniId, v: UserId)
    ensures RolesOf(DropMiniverse(rows, m), v) == RolesOf(rows, v) - {m}
  {
  }

  /** The users loaded for an announcement are those with a row for the miniverse. */
  lemma UsersHaveRows(rows: RoleTable, m: MiniId, v: UserId)
    ensures v in UsersOf(rows, m) <==> m in RolesOf(rows, v)
  {
  }

  /* ---- undisturbed requests ---- */

  /** Nothing is on its way. */
  ghost predicate Quiet(w: World) {
    w.pending == [] && w.queue == [] && w.creating == {}
  }

  /** The requests' steps, from the commit to the handling of the event by the subscriber. */
  function SetRoleSteps(u: UserId, m: MiniId, role: Role): seq<Step> {
    [CommitRole(u, m, role), Publish(0), HandleNext]
  }

  function CreateSteps(m: MiniId, creator: UserId): seq<Step> {
    [CommitCreate(m, creator), LoadCreated(m), Publish(0), HandleNext]
  }

  function DeleteSteps(m: MiniId): seq<Step> {
    [LoadDelete(m), CommitDelete(m), Publish(0), HandleNext]
  }

  /** The one event on its way is published and handled. */
  lemma PublishAndHandle(w: World, me: UserId, e: Event)
    requires w.pending == [e] && w.queue == []
    ensures Runs(w, me, [Publish(0), HandleNext])
    ensures Run(w, me, [Publish(0), HandleNext]) ==
            w.(pending := [], queue := [], published := w.published + [e], handled := w.handled + [e],
               cached := if Names(e, me) then RolesOf(w.rows, me) else w.cached,
               sent := if Delivered(w.cached, me, RolesOf(w.rows, me), e) then w.sent + [e] else w.sent)
  {
    var steps := [Publish(0), HandleNext];
    var w1 := Next(w, me, steps[0]);
    assert w1.queue == [e] && w1.pending == [];
    RunOne(w, me, steps);
    RunOne(w1, me, steps[1..]);
    assert w1.queue[1..] == [];
  }

  /** A role set on a quiet world: the user named holds it in the cache, and is told, as is everyone with a role on
      the miniverse; a revoked role is told to the user who loses it. */
  lemma RoleIsAnnounced(w: World, me: UserId, u: UserId, m: MiniId, role: Role)
    requires Quiet(w)
    ensures Runs(w, me, SetRoleSteps(u, m, role))
    ensures var end, e := Run(w, me, SetRoleSteps(u, m, role)), Event(Updated, Some(m), Some({u}));
            && Quiet(end) && end.published == w.published + [e]
            && end.cached == (if u == me then RolesOf(end.rows, me) else w.cached)
            && end.sent == w.sent + (if GetRole(w.cached, m) != NoRole || (u == me && role != NoRole) then [e] else [])
  {
    var steps, e := SetRoleSteps(u, m, role), Event(Updated, Some(m), Some({u}));
    var w1 := Next(w, me, steps[0]);
    RunOne(w, me, steps);
    assert w1.pending == [e] && steps[1..] == [Publish(0), HandleNext];
    PublishAndHandle(w1, me, e);
    SetRowIsExact(w.rows, u, m, role, me, m);
    assert Names(e, me) <==> u == me;
  }

  lemma NewMiniverseUsers(rows: RoleTable, m: MiniId, creator: UserId)
    requires UsersOf(rows, m) == {}
    ensures UsersOf(SetRow(rows, creator, m, Admin), m) == {creator}
  {
    forall v ensures v in UsersOf(SetRow(rows, creator, m, Admin), m) <==> v == creator {
      assert v !in UsersOf(rows, m);
    }
  }

  /** A creation on a quiet world: its creator is its administrator, in the rows and in the creator's cache, and is
      the one user named and told. */
  lemma CreationIsAnnounced(w: World, me: UserId, m: MiniId, creator: UserId)
    requires Quiet(w) && UsersOf(w.rows, m) == {} && m !in w.cached
    ensures Runs(w, me, CreateSteps(m, creator))
    ensures var end, e := Run(w, me, CreateSteps(m, creator)), Event(Created, Some(m), Some({creator}));
            && Quiet(end) && end.published == w.published + [e]
            && UsersOf(end.rows, m) == {creator} && GetRole(RolesOf(end.rows, creator), m) == Admin
            && end.cached == (if creator == me then RolesOf(end.rows, me) else w.cached)
            && end.sent == w.sent + (if creator == me then [e] else [])
  {
    var steps, e := CreateSteps(m, creator), Event(Created, Some(m), Some({creator}));
    NewMiniverseUsers(w.rows, m, creator);
    var w1 := Next(w, me, steps[0]);
    var w2 := Next(w1, me, steps[1]);
    RunOne(w, me, steps);
    RunOne(w1, me, steps[1..]);
    assert steps[1..][1..] == [Publish(0), HandleNext];
    assert w2.pending == [e] && w2.creating == {};
    PublishAndHandle(w2, me, e);
    assert Names(e, me) <==> creator == me;
  }

  /** A deletion on a quiet world: all rows for the miniverse are gone and no others, and everyone who had one is
      named; who is told is who had a role on it. */
  lemma DeletionIsAnnounced(w: World, me: UserId, m: MiniId)
    requires Quiet(w) && w.cached == RolesOf(w.rows, me)
    ensures Runs(w, me, DeleteSteps(m))
    ensures var end, e := Run(w, me, DeleteSteps(m)), Event(Deleted, Some(m), Some(UsersOf(w.rows, m)));
            && Quiet(end) && end.published == w.published + [e]
            && UsersOf(end.rows, m) == {} && end.deleting == w.deleting - {m} && end.cached == w.cached - {m} && end.cached == RolesOf(end.rows, me)
            && end.sent == w.sent + (if GetRole(w.cached, m) != NoRole then [e] else [])
  {
    var steps, e := DeleteSteps(m), Event(Deleted, Some(m), Some(UsersOf(w.rows, m)));
    var w1 := Next(w, me, steps[0]);
    var w2 := Next(w1, me, steps[1]);
    RunOne(w, me, steps);
    RunOne(w1, me, steps[1..]);
    assert steps[1..][1..] == [Publish(0), HandleNext];
    assert w2.pending == [e];
    PublishAndHandle(w2, me, e);
    DropIsExact(w.rows, m, me);
    UsersHaveRows(w.rows, m, me);
  }

  /** A notice that names nobody, as for a start or a player list: sent if it is about no miniverse, or to who has a
      role on its own; it reloads nothing. */
  lemma NoticeIsSent(w: World, me: UserId, e: Event)
    requires Quiet(w) && e.named == None
    ensures Runs(w, me, [Notify(e), Publish(0), HandleNext])
    ensures var end := Run(w, me, [Notify(e), Publish(0), HandleNext]);
            && Quiet(end) && end.rows == w.rows && end.cached == w.cached && end.published == w.published + [e]
            && end.sent == w.sent + (if e.miniverse.None? || GetRole(w.cached, e.miniverse.value) != NoRole then [e] else [])
  {
    var steps := [Notify(e), Publish(0), HandleNext];
    var w1 := Next(w, me, steps[0]);
    RunOne(w, me, steps);
    assert w1.pending == [e] && steps[1..] == [Publish(0), HandleNext];
    PublishAndHandle(w1, me, e);
  }

  /** Two changes committed in one order may be published, and so handled, in the other. */
  lemma EventsMayOvertake(w: World, me: UserId, u: UserId, v: UserId, m: MiniId, role: Role)
    requires Quiet(w)
    ensures var steps := [CommitRole(u, m, role), CommitRole(v, m, role), Publish(1), Publish(0)];
            Runs(w, me, steps) && Run(w, me, steps).pending == []
            && Run(w, me, steps).queue == [Event(Updated, Some(m), Some({v})), Event(Updated, Some(m), Some({u}))]
  {
    var steps := [CommitRole(u, m, role), CommitRole(v, m, role), Publish(1), Publish(0)];
    var e, f := Event(Updated, Some(m), Some({u})), Event(Updated, Some(m), Some({v}));
    var w1 := Next(w, me, steps[0]);
    var w2 := Next(w1, me, steps[1]);
    assert w2.pending == [e, f];
    var w3 := Next(w2, me, steps[2]);
    assert w3.pending == [e] && w3.queue == [f];
    RunOne(w, me, steps); RunOne(w1, me, steps[1..]); RunOne(w2, me, steps[1..][1..]); RunOne(w3, me, steps[1..][1..][1..]);
  }

  /* ---- nothing is lost ---- */

  /** What a step gives to be published. */
  function Announces(w: World, s: Step): multiset<Event>
    requires Enabled(w, s)
  {
    match s
    case CommitRole(u, m, _) => multiset{Event(Updated, Some(m), Some({u}))}
    case LoadCreated(m) => multiset{Event(Created, Some(m), Some(UsersOf(w.rows, m)))}
    case CommitDelete(m) => multiset{Event(Deleted, Some(m), Some(w.deleting[m]))}
    case Notify(e) => multiset{e}
    case _ => multiset{}
  }

  function AnnouncedInRun(w: World, me: UserId, steps: seq<Step>): multiset<Event>
    requires Runs(w, me, steps)
    decreases |steps|
  {
    if steps == [] then multiset{}
    else Announces(w, steps[0]) + AnnouncedInRun(Next(w, me, steps[0]), me, steps[1..])
  }

  lemma WithoutOne<T>(s: seq<T>, i: nat)
    requires i < |s|
    ensures multiset(Without(s, i)) + multiset{s[i]} == multiset(s)
  {
    assert s == s[..i] + [s[i]] + s[i + 1..];
  }

  lemma OneMore<T>(s: seq<T>, e: T)
    ensures multiset(s + [e]) == multiset(s) + multiset{e}
  {
  }

  lemma PublishLosesNothing(w: World, me: UserId, i: nat)
    requires i < |w.pending|
    ensures var w' := Next(w, me, Publish(i));
            multiset(w'.pending) + multiset(w'.published) == multiset(w.pending) + multiset(w.published)
  {
    WithoutOne(w.pending, i);
    OneMore(w.published, w.pending[i]);
  }

  lemma StepLosesNothing(w: World, me: UserId, s: Step)
    requires Enabled(w, s)
    ensures var w' := Next(w, me, s);
            multiset(w'.pending) + multiset(w'.published) == multiset(w.pending) + multiset(w.published) + Announces(w, s)
  {
    match s
    case Publish(i) => PublishLosesNothing(w, me, i);
    case CommitRole(u, m, _) => OneMore(w.pending, Event(Updated, Some(m), Some({u})));
    case LoadCreated(m) => OneMore(w.pending, Event(Created, Some(m), Some(UsersOf(w.rows, m))));
    case CommitDelete(m) => OneMore(w.pending, Event(Deleted, Some(m), Some(w.deleting[m])));
    case Notify(e) => OneMore(w.pending, e);
    case _ =>
  }

  /** In every interleaving: each change's event is published once, or is still to be, no other event is, and events
      are handled in the order of publishing. */
  lemma {:induction false} NothingIsLost(w: World, me: UserId, steps: seq<Step>)
    requires Runs(w, me, steps) && w.published == w.handled + w.queue
    ensures var end := Run(w, me, steps);
            && multiset(end.pending) + multiset(end.published) == multiset(w.pending) + multiset(w.published) + AnnouncedInRun(w, me, steps)
            && end.published == end.handled + end.queue
    decreases |steps|
  {
    if steps != [] {
      StepLosesNothing(w, me, steps[0]);
      StepHandlesInOrder(w, me, steps[0]);
      NothingIsLost(Next(w, me, steps[0]), me, steps[1..]);
    }
  }
}
