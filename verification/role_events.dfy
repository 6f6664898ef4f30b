/** Role changes, the events that announce them, and a subscriber that caches its user's roles. */
module RoleEvents {
  import opened Text

  type UserId = string
  type MiniId = string

  datatype Role = NoRole | User | Moderator | Admin

  function RoleValue(r: Role): nat {
    match r
    case NoRole => 0
    case User => 1
    case Moderator => 2
    case Admin => 3
  }

  predicate AtLeast(r: Role, s: Role) {
    RoleValue(r) >= RoleValue(s)
  }

  /** `max(a, b)`: the first of two equal ones. */
  function MaxRole(a: Role, b: Role): (r: Role)
    ensures AtLeast(r, a) && AtLeast(r, b) && (r == a || r == b)
  {
    if RoleValue(b) > RoleValue(a) then b else a
  }

  /** One user's role rows; the table's key allows one row for a miniverse. */
  type Roles = map<MiniId, Role>

  type RoleTable = map<UserId, Roles>

  function RolesOf(rows: RoleTable, u: UserId): Roles {
    if u in rows then rows[u] else map[]
  }

  function GetRole(roles: Roles, m: MiniId): Role {
    if m in roles then roles[m] else NoRole
  }

  /** A row as a user's list of roles holds it. */
  datatype RoleRow = RoleRow(miniverse: MiniId, role: Role)

  /** The search through the list: the first row for the miniverse, or no role. */
  function SearchRole(list: seq<RoleRow>, m: MiniId): Role {
    if list == [] then NoRole
    else if list[0].miniverse == m then list[0].role
    else SearchRole(list[1..], m)
  }

  ghost predicate OneRowEach(list: seq<RoleRow>) {
    forall i, j | 0 <= i < j < |list| :: list[i].miniverse != list[j].miniverse
  }

  /** The list holds the user's rows, in some order. */
  ghost predicate ListsRoles(list: seq<RoleRow>, roles: Roles) {
    && OneRowEach(list)
    && (forall m :: m in roles <==> exists i :: 0 <= i < |list| && list[i].miniverse == m)
    && forall i | 0 <= i < |list| :: roles[list[i].miniverse] == list[i].role
  }

  lemma {:induction false} SearchFinds(list: seq<RoleRow>, m: MiniId)
    ensures SearchRole(list, m) == NoRole || exists i :: 0 <= i < |list| && list[i] == RoleRow(m, SearchRole(list, m))
    ensures forall i | 0 <= i < |list| && list[i].miniverse == m && (forall j | 0 <= j < i :: list[j].miniverse != m) ::
              SearchRole(list, m) == list[i].role
  {
    if list != [] && list[0].miniverse != m {
      SearchFinds(list[1..], m);
      assert forall i | 0 <= i < |list| - 1 :: list[1..][i] == list[i + 1];
      forall i | 0 <= i < |list| && list[i].miniverse == m && (forall j | 0 <= j < i :: list[j].miniverse != m)
        ensures SearchRole(list, m) == list[i].role
      {
        assert list[1..][i - 1] == list[i];
      }
    }
  }

  /** In whatever order the rows are listed, the search finds the user's role. */
  lemma SearchIsLookup(list: seq<RoleRow>, roles: Roles, m: MiniId)
    requires ListsRoles(list, roles)
    ensures SearchRole(list, m) == GetRole(roles, m)
  {
    SearchFinds(list, m);
    if m in roles {
      var i :| 0 <= i < |list| && list[i].miniverse == m;
      assert forall j | 0 <= j < i :: list[j].miniverse != m;
    }
  }

  function UsersOf(rows: RoleTable, m: MiniId): set<UserId> {
    set u | u in rows && m in rows[u]
  }

  /** The role row after an administrator's request: added, changed, or deleted for the role None. */
  function SetRow(rows: RoleTable, u: UserId, m: MiniId, role: Role): RoleTable {
    var mine := RolesOf(rows, u);
    if role == NoRole && m !in mine then rows
    else rows[u := if role == NoRole then mine - {m} else mine[m := role]]
  }

  function DropMiniverse(rows: RoleTable, m: MiniId): RoleTable {
    map u | u in rows :: rows[u] - {m}
  }

  datatype EventKind = Created | Deleted | Updated | Control

  /** An event names the users whose roles changed, or nobody. */
  datatype Event = Event(kind: EventKind, miniverse: Option<MiniId>, named: Option<set<UserId>>)

  predicate Names(e: Event, u: UserId) {
    e.named.Some? && u in e.named.value
  }

  predicate About(e: Event, m: MiniId) {
    e.miniverse == Some(m)
  }

  /* ---- the subscriber ---- */

  function RoleFor(roles: Roles, e: Event): Role {
    if e.miniverse.Some? then GetRole(roles, e.miniverse.value) else NoRole
  }

  function CacheAfter(cached: Roles, me: UserId, stored: Roles, e: Event): Roles {
    if Names(e, me) then stored else cached
  }

  predicate Delivered(cached: Roles, me: UserId, stored: Roles, e: Event) {
    e.miniverse.None? || AtLeast(MaxRole(RoleFor(cached, e), RoleFor(CacheAfter(cached, me, stored, e), e)), User)
  }

  /** An event is withheld exactly when it is about a miniverse on which the user had no role, and either does not
      name the user or the stored roles have none there either. */
  lemma WithheldExactlyWhen(cached: Roles, me: UserId, stored: Roles, e: Event)
    ensures !Delivered(cached, me, stored, e) <==>
            exists m :: About(e, m) && GetRole(cached, m) == NoRole && (Names(e, me) ==> GetRole(stored, m) == NoRole)
  {
    if !Delivered(cached, me, stored, e) {
      assert About(e, e.miniverse.value);
    }
  }

  class Subscriber {
    const me: UserId
    var cached: Roles
    var sent: seq<Event>

    constructor (me: UserId, roles: Roles)
      ensures this.me == me && cached == roles && sent == []
    {
      this.me, cached, sent := me, roles, [];
    }

    method HandleMessage(e: Event, rows: RoleTable)
      modifies this
      ensures cached == CacheAfter(old(cached), me, RolesOf(rows, me), e)
      ensures sent == old(sent) + (if Delivered(old(cached), me, RolesOf(rows, me), e) then [e] else [])
    {
      var before := RoleFor(cached, e);
      var max := before;
      if e.named.Some? && me in e.named.value {
        cached := RolesOf(rows, me);
        var after := RoleFor(cached, e);
        max := MaxRole(before, after);
      }
      if e.miniverse.None? || AtLeast(max, User) {
        sent := sent + [e];
      }
    }
  }

  /** The endpoint that sets a user's role on a miniverse: change the row, commit, then publish. */
  class RoleService {
    var rows: RoleTable
    var channel: seq<Event>

    constructor (rows: RoleTable)
      ensures this.rows == rows && channel == []
    {
      this.rows, channel := rows, [];
    }

    method SetUserRole(m: MiniId, u: UserId, role: Role)
      modifies this
      ensures rows == SetRow(old(rows), u, m, role)
      ensures channel == old(channel) + [Event(Updated, Some(m), Some({u}))]
    {
      var mine := RolesOf(rows, u);
      if m !in mine {
        if role != NoRole {
          rows := rows[u := mine[m := role]];
        }
      } else {
        if role == NoRole {
          rows := rows[u := mine - {m}];
        } else {
          rows := rows[u := mine[m := role]];
        }
      }
      channel := channel + [Event(Updated, Some(m), Some({u}))];
    }
  }

  /** The row is the requested role afterwards, and no other row of the table changes. */
  lemma SetRowIsExact(rows: RoleTable, u: UserId, m: MiniId, role: Role, v: UserId, k: MiniId)
    ensures GetRole(RolesOf(SetRow(rows, u, m, role), v), k) ==
            if v == u && k == m then role else GetRole(RolesOf(rows, v), k)
  {
  }

  /* ---- the protocol ---- */

  /** Everything that interleaves. `creating` holds the miniverses whose creator's row is committed but whose
      creation event has not taken its user list yet; `deleting` holds the user lists loaded for deletions under
      way; `pending` holds the events of committed changes that are not published yet. */
  datatype World = World(
    rows: RoleTable,
    creating: set<MiniId>,
    deleting: map<MiniId, set<UserId>>,
    pending: seq<Event>,
    queue: seq<Event>,
    published: seq<Event>,
    handled: seq<Event>,
    cached: Roles,
    sent: seq<Event>)

  datatype Step =
    | CommitRole(user: UserId, miniverse: MiniId, role: Role)
    | CommitCreate(miniverse: MiniId, creator: UserId)
    | LoadCreated(miniverse: MiniId)
    | LoadDelete(miniverse: MiniId)
    | CommitDelete(miniverse: MiniId)
    | Notify(event: Event)
    | Publish(index: nat)
    | HandleNext

  predicate Enabled(w: World, s: Step) {
    match s
    case CommitCreate(m, _) => m !in w.creating && UsersOf(w.rows, m) == {}
    case LoadCreated(m) => m in w.creating
    case CommitDelete(m) => m in w.deleting
    case Notify(e) => e.named.None?
    case Publish(i) => i < |w.pending|
    case HandleNext => w.queue != []
    case _ => true
  }

  function Without<T>(s: seq<T>, i: nat): seq<T>
    requires i < |s|
  {
    s[..i] + s[i + 1..]
  }

  function Next(w: World, me: UserId, s: Step): World
    requires Enabled(w, s)
  {
    match s
    case CommitRole(u, m, role) =>
      w.(rows := SetRow(w.rows, u, m, role), pending := w.pending + [Event(Updated, Some(m), Some({u}))])
    case CommitCreate(m, creator) =>
      w.(rows := SetRow(w.rows, creator, m, Admin), creating := w.creating + {m})
    case LoadCreated(m) =>
      w.(creating := w.creating - {m}, pending := w.pending + [Event(Created, Some(m), Some(UsersOf(w.rows, m)))])
    case LoadDelete(m) =>
      w.(deleting := w.deleting[m := UsersOf(w.rows, m)])
    case CommitDelete(m) =>
      w.(rows := DropMiniverse(w.rows, m), deleting := w.deleting - {m},
         pending := w.pending + [Event(Deleted, Some(m), Some(w.deleting[m]))])
    case Notify(e) =>
      w.(pending := w.pending + [e])
    case Publish(i) =>
      w.(pending := Without(w.pending, i), queue := w.queue + [w.pending[i]], published := w.published + [w.pending[i]])
    case HandleNext =>
      var e, stored := w.queue[0], RolesOf(w.rows, me);
      w.(queue := w.queue[1..], handled := w.handled + [e], cached := CacheAfter(w.cached, me, stored, e),
         sent := w.sent + (if Delivered(w.cached, me, stored, e) then [e] else []))
  }

  predicate Runs(w: World, me: UserId, steps: seq<Step>)
    decreases |steps|
  {
    steps != [] ==> Enabled(w, steps[0]) && Runs(Next(w, me, steps[0]), me, steps[1..])
  }

  function Run(w: World, me: UserId, steps: seq<Step>): World
    requires Runs(w, me, steps)
    decreases |steps|
  {
    if steps == [] then w else Run(Next(w, me, steps[0]), me, steps[1..])
  }

  /* ---- the cache and the stored roles ---- */

  /** An event naming the user is still to be published or to be handled. */
  ghost predicate Announced(w: World, me: UserId) {
    (exists i :: 0 <= i < |w.pending| && Names(w.pending[i], me)) || (exists i :: 0 <= i < |w.queue| && Names(w.queue[i], me))
  }

  /** The cached role for a miniverse is the stored one, or the difference is announced, or it is the creator's
      row of a miniverse whose creation event is still to be made. */
  ghost predicate Synced(w: World, me: UserId) {
    Announced(w, me) || forall m :: SyncedAt(w, me, m)
  }

  predicate SyncedAt(w: World, me: UserId, m: MiniId) {
    var stored := RolesOf(w.rows, me);
    || ((m in w.cached <==> m in stored) && (m in stored ==> w.cached[m] == stored[m]))
    || (m in w.creating && m in stored)
  }

  /** A deletion commits with a user list that still covers every row it removes. */
  predicate TimelyDelete(w: World, s: Step) {
    s.CommitDelete? && s.miniverse in w.deleting ==> UsersOf(w.rows, s.miniverse) <= w.deleting[s.miniverse]
  }

  ghost predicate Timely(w: World, me: UserId, steps: seq<Step>)
    requires Runs(w, me, steps)
    decreases |steps|
  {
    steps != [] ==> TimelyDelete(w, steps[0]) && Timely(Next(w, me, steps[0]), me, steps[1..])
  }

  lemma StepKeepsSync(w: World, me: UserId, s: Step)
    requires Synced(w, me) && Enabled(w, s) && TimelyDelete(w, s)
    ensures Synced(Next(w, me, s), me)
  {
    var w' := Next(w, me, s);
    match s
    case CommitRole(u, m, role) =>
      assert w'.pending[|w.pending|] == Event(Updated, Some(m), Some({u}));
      AnnouncedStays(w, w', me);
      if u == me {
        assert Names(w'.pending[|w.pending|], me);
      } else {
        assert RolesOf(w'.rows, me) == RolesOf(w.rows, me);
        forall k ensures SyncedAt(w, me, k) ==> SyncedAt(w', me, k) {
        }
      }
    case CommitCreate(m, creator) =>
      AnnouncedStays(w, w', me);
      forall k ensures SyncedAt(w, me, k) ==> SyncedAt(w', me, k) {
      }
    case LoadCreated(m) =>
      assert w'.pending[|w.pending|] == Event(Created, Some(m), Some(UsersOf(w.rows, m)));
      AnnouncedStays(w, w', me);
      if m in RolesOf(w.rows, me) {
        assert Names(w'.pending[|w.pending|], me);
      } else {
        forall k ensures SyncedAt(w, me, k) ==> SyncedAt(w', me, k) {
        }
      }
    case LoadDelete(m) =>
      AnnouncedStays(w, w', me);
      SameRolesStaySynced(w, w', me);
    case CommitDelete(m) =>
      assert w'.pending[|w.pending|] == Event(Deleted, Some(m), Some(w.deleting[m]));
      AnnouncedStays(w, w', me);
      if me in w.deleting[m] {
        assert Names(w'.pending[|w.pending|], me);
      } else {
        assert me !in UsersOf(w.rows, m);
        forall k ensures SyncedAt(w, me, k) ==> SyncedAt(w', me, k) {
        }
      }
    case Notify(e) =>
      AnnouncedStays(w, w', me);
      SameRolesStaySynced(w, w', me);
    case Publish(i) =>
      PublishKeepsAnnounced(w, me, i);
      SameRolesStaySynced(w, w', me);
    case HandleNext =>
      if !Names(w.queue[0], me) {
        HandleKeepsAnnounced(w, me);
        SameRolesStaySynced(w, w', me);
      }
  }

  lemma SameRolesStaySynced(w: World, w': World, me: UserId)
    requires w'.rows == w.rows && w'.cached == w.cached && w'.creating == w.creating
    requires Synced(w, me) && (Announced(w, me) ==> Announced(w', me))
    ensures Synced(w', me)
  {
    forall k ensures SyncedAt(w, me, k) ==> SyncedAt(w', me, k) {
    }
  }

  lemma AnnouncedStays(w: World, w': World, me: UserId)
    requires w.pending <= w'.pending && w'.queue == w.queue
    ensures Announced(w, me) ==> Announced(w', me)
  {
    if i :| 0 <= i < |w.pending| && Names(w.pending[i], me) {
      assert Names(w'.pending[i], me);
    }
  }

  lemma PublishKeepsAnnounced(w: World, me: UserId, i: nat)
    requires i < |w.pending|
    ensures Announced(w, me) ==> Announced(Next(w, me, Publish(i)), me)
  {
    var w' := Next(w, me, Publish(i));
    if k :| 0 <= k < |w.pending| && Names(w.pending[k], me) {
      if k == i {
        assert w'.queue[|w.queue|] == w.pending[k];
      } else {
        assert w'.pending[if k < i then k else k - 1] == w.pending[k];
      }
    } else if k :| 0 <= k < |w.queue| && Names(w.queue[k], me) {
      assert w'.queue[k] == w.queue[k];
    }
  }

  lemma HandleKeepsAnnounced(w: World, me: UserId)
    requires w.queue != [] && !Names(w.queue[0], me)
    ensures Announced(w, me) ==> Announced(Next(w, me, HandleNext), me)
  {
    var w' := Next(w, me, HandleNext);
    if k :| 0 <= k < |w.queue| && Names(w.queue[k], me) {
      assert w'.queue[k - 1] == w.queue[k];
    }
  }

  /** Exactly when a deletion keeps the promise to one subscriber: something naming the user is under way, or the
      loaded list names the user, or the user's cache does not hold the miniverse. */
  lemma DeleteKeepsSyncExactlyWhen(w: World, me: UserId, m: MiniId)
    requires Synced(w, me) && m in w.deleting
    ensures Synced(Next(w, me, CommitDelete(m)), me) <==>
            Announced(w, me) || me in w.deleting[m] || m !in w.cached
  {
    var w' := Next(w, me, CommitDelete(m));
    assert w'.pending[|w.pending|] == Event(Deleted, Some(m), Some(w.deleting[m]));
    AnnouncedStays(w, w', me);
    assert m !in RolesOf(w'.rows, me);
    if !Announced(w, me) && me !in w.deleting[m] {
      forall k ensures !(0 <= k < |w'.pending| && Names(w'.pending[k], me)) {
        if 0 <= k < |w.pending| { assert w'.pending[k] == w.pending[k]; }
      }
      assert !Announced(w', me);
      if m in w.cached {
        assert !SyncedAt(w', me, m);
      } else {
        forall k ensures SyncedAt(w', me, k) {
          assert SyncedAt(w, me, k);
        }
      }
    }
  }

  /** At the commit of a deletion something naming the user is under way, or the loaded list names the user, or the
      user's cache does not hold the miniverse. */
  ghost predicate DeleteInTime(w: World, me: UserId, s: Step) {
    s.CommitDelete? && s.miniverse in w.deleting ==>
      Announced(w, me) || me in w.deleting[s.miniverse] || s.miniverse !in w.cached
  }

  ghost predicate DeletesInTime(w: World, me: UserId, steps: seq<Step>)
    requires Runs(w, me, steps)
    decreases |steps|
  {
    steps != [] ==> DeleteInTime(w, me, steps[0]) && DeletesInTime(Next(w, me, steps[0]), me, steps[1..])
  }

  /** The promise holds in every state of the run. */
  ghost predicate AlwaysSynced(w: World, me: UserId, steps: seq<Step>)
    requires Runs(w, me, steps)
    decreases |steps|
  {
    Synced(w, me) && (steps != [] ==> AlwaysSynced(Next(w, me, steps[0]), me, steps[1..]))
  }

  lemma StepKeepsSyncExactlyWhen(w: World, me: UserId, s: Step)
    requires Synced(w, me) && Enabled(w, s)
    ensures Synced(Next(w, me, s), me) <==> DeleteInTime(w, me, s)
  {
    if s.CommitDelete? {
      DeleteKeepsSyncExactlyWhen(w, me, s.miniverse);
    } else {
      StepKeepsSync(w, me, s);
    }
  }

  /** In every interleaving: a cached role differs from the stored one only while the change is still on its way, in
      every state of the run, exactly when every deletion in the run commits in time for the subscriber. */
  lemma {:induction false} AlwaysSyncedExactlyWhen(w: World, me: UserId, steps: seq<Step>)
    requires Synced(w, me) && Runs(w, me, steps)
    ensures AlwaysSynced(w, me, steps) <==> DeletesInTime(w, me, steps)
    decreases |steps|
  {
    if steps != [] {
      StepKeepsSyncExactlyWhen(w, me, steps[0]);
      if Synced(Next(w, me, steps[0]), me) {
        AlwaysSyncedExactlyWhen(Next(w, me, steps[0]), me, steps[1..]);
      }
    }
  }

  lemma {:induction false} AlwaysSyncedAtEnd(w: World, me: UserId, steps: seq<Step>)
    requires Runs(w, me, steps) && AlwaysSynced(w, me, steps)
    ensures Synced(Run(w, me, steps), me)
    decreases |steps|
  {
    if steps != [] {
      AlwaysSyncedAtEnd(Next(w, me, steps[0]), me, steps[1..]);
    }
  }

  /** So the promise holds at the end of such a run. */
  lemma RunKeepsSync(w: World, me: UserId, steps: seq<Step>)
    requires Synced(w, me) && Runs(w, me, steps) && DeletesInTime(w, me, steps)
    ensures Synced(Run(w, me, steps), me)
  {
    AlwaysSyncedExactlyWhen(w, me, steps);
    AlwaysSyncedAtEnd(w, me, steps);
  }

  /** Deletions whose lists cover every row they remove are in time for every subscriber. */
  lemma {:induction false} CoveringListsAreInTime(w: World, me: UserId, steps: seq<Step>)
    requires Synced(w, me) && Runs(w, me, steps) && Timely(w, me, steps)
    ensures DeletesInTime(w, me, steps)
    decreases |steps|
  {
    if steps != [] {
      StepKeepsSync(w, me, steps[0]);
      StepKeepsSyncExactlyWhen(w, me, steps[0]);
      CoveringListsAreInTime(Next(w, me, steps[0]), me, steps[1..]);
    }
  }

  /** Once everything is published and handled, the cache is the stored roles, for all miniverses. */
  lemma DrainedMeansEqual(w: World, me: UserId, steps: seq<Step>)
    requires w.cached == RolesOf(w.rows, me) && Runs(w, me, steps) && DeletesInTime(w, me, steps)
    requires var end := Run(w, me, steps); end.pending == [] && end.queue == [] && end.creating == {}
    ensures var end := Run(w, me, steps); end.cached == RolesOf(end.rows, me)
  {
    RunKeepsSync(w, me, steps);
    var end := Run(w, me, steps);
    forall m ensures (m in end.cached <==> m in RolesOf(end.rows, me))
                     && (m in end.cached ==> end.cached[m] == RolesOf(end.rows, me)[m]) {
      assert SyncedAt(end, me, m);
    }
  }

  /** The events of a grant, and of a deletion whose list was loaded before the grant. */
  function GrantEvent(me: UserId, m: MiniId): Event {
    Event(Updated, Some(m), Some({me}))
  }

  function OutdatedEvent(admin: UserId, m: MiniId): Event {
    Event(Deleted, Some(m), Some({admin}))
  }

  /** The roles while the miniverse's administrator, who may both delete it and grant roles on it, has granted one. */
  function GrantedRows(admin: UserId, me: UserId, m: MiniId): RoleTable {
    map[admin := map[m := Admin], me := map[m := User]]
  }

  /** A deletion's list is loaded, then the role is granted. */
  function GrantedUnpublished(admin: UserId, me: UserId, m: MiniId): World {
    World(GrantedRows(admin, me, m), {}, map[m := {admin}], [GrantEvent(me, m)], [], [], [], map[], [])
  }

  /** After the grant is published and handled. */
  function GrantedWorld(admin: UserId, me: UserId, m: MiniId): World {
    var g := GrantEvent(me, m);
    World(GrantedRows(admin, me, m), {}, map[m := {admin}], [], [], [g], [g], map[m := User], [g])
  }

  lemma GrantDuringDelete(admin: UserId, me: UserId, m: MiniId) returns (w: World)
    requires admin != me
    ensures w == World(map[admin := map[m := Admin]], {}, map[], [], [], [], [], map[], [])
    ensures Runs(w, me, [LoadDelete(m), CommitRole(me, m, User)])
    ensures Run(w, me, [LoadDelete(m), CommitRole(me, m, User)]) == GrantedUnpublished(admin, me, m)
  {
    w := World(map[admin := map[m := Admin]], {}, map[], [], [], [], [], map[], []);
    var steps := [LoadDelete(m), CommitRole(me, m, User)];
    assert UsersOf(w.rows, m) == {admin};
    var w1 := Next(w, me, steps[0]);
    assert SetRow(w1.rows, me, m, User) == GrantedRows(admin, me, m);
    RunOne(w, me, steps);
    RunOne(w1, me, steps[1..]);
  }

  lemma GrantIsHandled(admin: UserId, me: UserId, m: MiniId)
    ensures Runs(GrantedUnpublished(admin, me, m), me, [Publish(0), HandleNext])
    ensures Run(GrantedUnpublished(admin, me, m), me, [Publish(0), HandleNext]) == GrantedWorld(admin, me, m)
  {
    var w, steps := GrantedUnpublished(admin, me, m), [Publish(0), HandleNext];
    var w1 := Next(w, me, steps[0]);
    assert w1.queue == [GrantEvent(me, m)] && w1.pending == [];
    RunOne(w, me, steps);
    RunOne(w1, me, steps[1..]);
  }

  lemma DeleteAfterGrant(admin: UserId, me: UserId, m: MiniId)
    requires admin != me
    ensures var w, steps := GrantedWorld(admin, me, m), [CommitDelete(m), Publish(0), HandleNext];
            Runs(w, me, steps)
            && var end := Run(w, me, steps);
               end.pending == [] && end.queue == [] && end.creating == {}
               && RolesOf(end.rows, me) == map[] && end.cached == map[m := User]
  {
    var w, steps := GrantedWorld(admin, me, m), [CommitDelete(m), Publish(0), HandleNext];
    var w1 := Next(w, me, steps[0]);
    assert w1.pending == [OutdatedEvent(admin, m)];
    var w2 := Next(w1, me, steps[1]);
    assert w2.queue == [OutdatedEvent(admin, m)] && w2.pending == [] && !Names(OutdatedEvent(admin, m), me);
    RunOne(w, me, steps); RunOne(w1, me, steps[1..]); RunOne(w2, me, steps[2..]);
    assert RolesOf(w1.rows, me) == map[];
  }

  lemma {:induction false} RunsJoin(w: World, me: UserId, a: seq<Step>, b: seq<Step>)
    requires Runs(w, me, a) && Runs(Run(w, me, a), me, b)
    ensures Runs(w, me, a + b) && Run(w, me, a + b) == Run(Run(w, me, a), me, b)
    decreases |a|
  {
    if a == [] {
      assert a + b == b;
    } else {
      RunsJoin(Next(w, me, a[0]), me, a[1..], b);
      assert (a + b)[1..] == a[1..] + b;
    }
  }

  /** The promise fails when an administrator grants a role while a deletion is under way: starting with the cache
      equal to the stored roles, after this run everything is drained, the row is gone, and the cache still holds it. */
  lemma OutdatedDeleteLeavesStaleRole(admin: UserId, me: UserId, m: MiniId) returns (w: World, steps: seq<Step>)
    requires admin != me
    ensures w.rows == map[admin := map[m := Admin]] && w.cached == RolesOf(w.rows, me) && Runs(w, me, steps)
    ensures steps == [LoadDelete(m), CommitRole(me, m, User), Publish(0), HandleNext, CommitDelete(m), Publish(0), HandleNext]
    ensures var end := Run(w, me, steps);
            end.pending == [] && end.queue == [] && end.creating == {}
            && RolesOf(end.rows, me) == map[] && end.cached == map[m := User]
  {
    w := GrantDuringDelete(admin, me, m);
    GrantIsHandled(admin, me, m);
    DeleteAfterGrant(admin, me, m);
    var a, b, c := [LoadDelete(m), CommitRole(me, m, User)], [Publish(0), HandleNext], [CommitDelete(m), Publish(0), HandleNext];
    RunsJoin(w, me, a, b);
    RunsJoin(w, me, a + b, c);
    steps := a + b + c;
  }

  /** Unfolds a run by one step. */
  lemma RunOne(w: World, me: UserId, steps: seq<Step>)
    requires steps != [] && Enabled(w, steps[0])
    ensures Runs(w, me, steps) <==> Runs(Next(w, me, steps[0]), me, steps[1..])
    ensures Runs(w, me, steps) ==> Run(w, me, steps) == Run(Next(w, me, steps[0]), me, steps[1..])
    ensures |steps| == 1 ==> Runs(w, me, steps) && Run(w, me, steps) == Next(w, me, steps[0])
  {
  }

  /* ---- what is delivered ---- */

  function EventsAbout(es: seq<Event>, m: MiniId): seq<Event> {
    if es == [] then []
    else EventsAbout(es[..|es| - 1], m) + (if About(es[|es| - 1], m) then [es[|es| - 1]] else [])
  }

  lemma EventsAboutOneMore(es: seq<Event>, e: Event, m: MiniId)
    ensures EventsAbout(es + [e], m) == EventsAbout(es, m) + (if About(e, m) then [e] else [])
  {
    assert (es + [e])[..|es|] == es;
  }

  /** The stored role on the miniverse is User or above in every state of the run. */
  ghost predicate StaysMember(w: World, me: UserId, steps: seq<Step>, m: MiniId)
    requires Runs(w, me, steps)
    decreases |steps|
  {
    && AtLeast(GetRole(RolesOf(w.rows, me), m), User)
    && (steps != [] ==> StaysMember(Next(w, me, steps[0]), me, steps[1..], m))
  }

  /** Events are handled in the order they were published, and so far exactly the handled ones about `m` were sent. */
  ghost predicate InOrder(w: World, m: MiniId) {
    w.published == w.handled + w.queue && EventsAbout(w.sent, m) == EventsAbout(w.handled, m)
  }

  lemma StepHandlesInOrder(w: World, me: UserId, s: Step)
    requires Enabled(w, s) && w.published == w.handled + w.queue
    ensures var w' := Next(w, me, s); w'.published == w'.handled + w'.queue
  {
    if s.HandleNext? {
      assert w.queue == [w.queue[0]] + w.queue[1..];
    }
  }

  lemma MemberIsServed(cached: Roles, me: UserId, stored: Roles, e: Event, m: MiniId)
    requires AtLeast(GetRole(cached, m), User) && AtLeast(GetRole(stored, m), User)
    ensures About(e, m) ==> Delivered(cached, me, stored, e)
    ensures AtLeast(GetRole(CacheAfter(cached, me, stored, e), m), User)
  {
  }

  lemma StepServesMember(w: World, me: UserId, s: Step, m: MiniId)
    requires Enabled(w, s) && EventsAbout(w.sent, m) == EventsAbout(w.handled, m)
    requires AtLeast(GetRole(w.cached, m), User) && AtLeast(GetRole(RolesOf(w.rows, me), m), User)
    ensures var w' := Next(w, me, s);
            EventsAbout(w'.sent, m) == EventsAbout(w'.handled, m) && AtLeast(GetRole(w'.cached, m), User)
  {
    if s.HandleNext? {
      var e := w.queue[0];
      MemberIsServed(w.cached, me, RolesOf(w.rows, me), e, m);
      EventsAboutOneMore(w.handled, e, m);
      EventsAboutOneMore(w.sent, e, m);
      assert w.sent + [] == w.sent;
    }
  }

  /** A subscriber who stays a member receives every event about the miniverse, in publish order. */
  lemma {:induction false} MemberReceivesEverything(w: World, me: UserId, steps: seq<Step>, m: MiniId)
    requires Runs(w, me, steps) && StaysMember(w, me, steps, m)
    requires AtLeast(GetRole(w.cached, m), User) && InOrder(w, m)
    ensures var end := Run(w, me, steps);
            InOrder(end, m) && (end.queue == [] ==> EventsAbout(end.sent, m) == EventsAbout(end.published, m))
    decreases |steps|
  {
    if steps != [] {
      StepHandlesInOrder(w, me, steps[0]);
      StepServesMember(w, me, steps[0], m);
      MemberReceivesEverything(Next(w, me, steps[0]), me, steps[1..], m);
    } else {
      assert w.queue == [] ==> w.handled + w.queue == w.handled;
    }
  }

  /** The user has no role on the miniverse in any state of the run. */
  ghost predicate StaysOutside(w: World, me: UserId, steps: seq<Step>, m: MiniId)
    requires Runs(w, me, steps)
    decreases |steps|
  {
    && GetRole(RolesOf(w.rows, me), m) == NoRole
    && (steps != [] ==> StaysOutside(Next(w, me, steps[0]), me, steps[1..], m))
  }

  lemma NothingToDeliver(cached: Roles, me: UserId, stored: Roles, e: Event, m: MiniId)
    requires GetRole(cached, m) == NoRole && GetRole(stored, m) == NoRole
    ensures About(e, m) ==> !Delivered(cached, me, stored, e)
    ensures GetRole(CacheAfter(cached, me, stored, e), m) == NoRole
  {
  }

  lemma StepKeepsOut(w: World, me: UserId, s: Step, m: MiniId)
    requires Enabled(w, s) && GetRole(w.cached, m) == NoRole && GetRole(RolesOf(w.rows, me), m) == NoRole
    ensures EventsAbout(Next(w, me, s).sent, m) == EventsAbout(w.sent, m) && GetRole(Next(w, me, s).cached, m) == NoRole
  {
    if s.HandleNext? {
      NothingToDeliver(w.cached, me, RolesOf(w.rows, me), w.queue[0], m);
      EventsAboutOneMore(w.sent, w.queue[0], m);
      assert w.sent + [] == w.sent;
    }
  }

  /** A subscriber who is never given a role on a miniverse is sent no event about it. */
  lemma {:induction false} OutsiderReceivesNothing(w: World, me: UserId, steps: seq<Step>, m: MiniId)
    requires Runs(w, me, steps) && StaysOutside(w, me, steps, m) && GetRole(w.cached, m) == NoRole
    ensures EventsAbout(Run(w, me, steps).sent, m) == EventsAbout(w.sent, m)
    decreases |steps|
  {
    if steps != [] {
      StepKeepsOut(w, me, steps[0], m);
      OutsiderReceivesNothing(Next(w, me, steps[0]), me, steps[1..], m);
    }
  }

  /** A grant notice is delivered if the grant still stands when it is handled. */
  lemma GrantIsDelivered(w: World, me: UserId, m: MiniId)
    requires w.queue != [] && About(w.queue[0], m) && Names(w.queue[0], me)
    requires AtLeast(GetRole(RolesOf(w.rows, me), m), User)
    ensures Next(w, me, HandleNext).sent == w.sent + [w.queue[0]]
    ensures AtLeast(GetRole(Next(w, me, HandleNext).cached, m), User)
  {
  }

  /** No event naming the user is handled during the run. */
  ghost predicate Undisturbed(w: World, me: UserId, steps: seq<Step>)
    requires Runs(w, me, steps)
    decreases |steps|
  {
    steps != [] ==>
      && (steps[0].HandleNext? ==> !Names(w.queue[0], me))
      && Undisturbed(Next(w, me, steps[0]), me, steps[1..])
  }

  lemma {:induction false} CacheStays(w: World, me: UserId, steps: seq<Step>)
    requires Runs(w, me, steps) && Undisturbed(w, me, steps)
    ensures Run(w, me, steps).cached == w.cached
    decreases |steps|
  {
    if steps != [] {
      CacheStays(Next(w, me, steps[0]), me, steps[1..]);
    }
  }

  /** A revocation notice, and any other event about the miniverse, is delivered if the role was cached as User or
      above at the revoking commit and no event naming the user is handled between that commit and the notice. */
  lemma RevocationIsDelivered(w: World, me: UserId, m: MiniId, revoke: Step, steps: seq<Step>)
    requires revoke == CommitRole(me, m, NoRole) || (revoke == CommitDelete(m) && m in w.deleting)
    requires AtLeast(GetRole(w.cached, m), User)
    requires var w1 := Next(w, me, revoke); Runs(w1, me, steps) && Undisturbed(w1, me, steps)
    requires var end := Run(Next(w, me, revoke), me, steps); end.queue != [] && About(end.queue[0], m)
    ensures var end := Run(Next(w, me, revoke), me, steps);
            Next(end, me, HandleNext).sent == end.sent + [end.queue[0]]
  {
    CacheStays(Next(w, me, revoke), me, steps);
  }
}
