/** The players online behind the router: what the webhooks since the last stop say, and what the cache shows. */
module RouterPlayers {
  import opened Text
  import opened StatusCache

  function OnlineFrom(hooks: seq<Webhook>): Listing {
    if hooks == [] then [] else OnlineAfter(OnlineFrom(hooks[..|hooks| - 1]), hooks[|hooks| - 1])
  }

  predicate ConnectsId(h: Webhook, id: string) {
    Connects(h) && h.player.value.id == id
  }

  predicate DisconnectsId(h: Webhook, id: string) {
    Disconnects(h) && h.player.value.id == id
  }

  /** The webhook at `i` is the last successful connect of a player, and no disconnect follows it. */
  ghost predicate LastConnect(hooks: seq<Webhook>, e: Entry, i: int) {
    && 0 <= i < |hooks| && Connects(hooks[i]) && hooks[i].player.value == e
    && forall j | i < j < |hooks| :: !ConnectsId(hooks[j], e.id) && !DisconnectsId(hooks[j], e.id)
  }

  /** The webhook at `i` is the connect with which the player arrived: nothing disconnects the player from there on,
      and every earlier connect was followed by a disconnect before it. */
  ghost predicate ArrivesAt(hooks: seq<Webhook>, id: string, i: int) {
    && 0 <= i < |hooks| && ConnectsId(hooks[i], id)
    && (forall j | i <= j < |hooks| :: !DisconnectsId(hooks[j], id))
    && (forall k | 0 <= k < i && ConnectsId(hooks[k], id) :: exists j :: k < j < i && DisconnectsId(hooks[j], id))
  }

  /** The dictionary holds exactly the players whose last word is a successful connect, with the name given there. */
  lemma {:induction false} OnlineIsExact(hooks: seq<Webhook>, e: Entry)
    ensures DistinctIds(OnlineFrom(hooks))
    ensures DictGet(OnlineFrom(hooks), e.id) == Some(e) <==> exists i :: LastConnect(hooks, e, i)
  {
    if hooks != [] {
      var n := |hooks| - 1;
      var front, h := hooks[..n], hooks[n];
      OnlineIsExact(front, e);
      if Connects(h) {
        PutIsUpdate(OnlineFrom(front), h.player.value, e.id);
      } else if Disconnects(h) {
        PopIsRemoval(OnlineFrom(front), h.player.value.id, e.id);
      }
      LastConnectStep(hooks, e);
    }
  }

  lemma LastConnectStep(hooks: seq<Webhook>, e: Entry)
    requires hooks != []
    ensures var n := |hooks| - 1;
            (exists i :: LastConnect(hooks, e, i)) <==>
            if ConnectsId(hooks[n], e.id) then hooks[n].player.value == e
            else !DisconnectsId(hooks[n], e.id) && exists i :: LastConnect(hooks[..n], e, i)
  {
    var n := |hooks| - 1;
    if ConnectsId(hooks[n], e.id) && hooks[n].player.value == e {
      assert LastConnect(hooks, e, n);
    }
    if i :| LastConnect(hooks, e, i) {
      if i < n { assert LastConnect(hooks[..n], e, i); }
    }
    if !ConnectsId(hooks[n], e.id) && !DisconnectsId(hooks[n], e.id) {
      if i :| LastConnect(hooks[..n], e, i) {
        assert LastConnect(hooks, e, i);
      }
    }
  }

  /* ---- insertion order ---- */

  function ArrivalsAfter(a: seq<nat>, online: Listing, h: Webhook, n: nat): (a': seq<nat>)
    requires |a| == |online|
    ensures |a'| == |OnlineAfter(online, h)|
  {
    if Connects(h) then
      if IndexOf(online, h.player.value.id) < |online| then a else a + [n]
    else if Disconnects(h) then
      var i := IndexOf(online, h.player.value.id);
      if i < |online| then a[..i] + a[i + 1..] else a
    else a
  }

  /** The arrival of each entry, in step with the dictionary. */
  function Arrivals(hooks: seq<Webhook>): (a: seq<nat>)
    ensures |a| == |OnlineFrom(hooks)|
  {
    if hooks == [] then []
    else
      var n := |hooks| - 1;
      ArrivalsAfter(Arrivals(hooks[..n]), OnlineFrom(hooks[..n]), hooks[n], n)
  }

  ghost predicate AllArrive(hooks: seq<Webhook>, online: Listing, a: seq<nat>) {
    |a| == |online| && forall i | 0 <= i < |online| :: ArrivesAt(hooks, online[i].id, a[i])
  }

  ghost predicate Increasing(a: seq<nat>) {
    forall i, j | 0 <= i < j < |a| :: a[i] < a[j]
  }

  ghost predicate LeftAfter(hooks: seq<Webhook>, id: string, k: nat) {
    exists j :: k < j < |hooks| && DisconnectsId(hooks[j], id)
  }

  /** A player who connected and is not listed has left since. */
  ghost predicate AbsentHaveLeft(hooks: seq<Webhook>, online: Listing) {
    forall k: nat | k < |hooks| && Connects(hooks[k]) ::
      DictGet(online, hooks[k].player.value.id).Some? || LeftAfter(hooks, hooks[k].player.value.id, k)
  }

  lemma ArrivalStays(front: seq<Webhook>, h: Webhook, id: string, i: nat)
    requires ArrivesAt(front, id, i) && !DisconnectsId(h, id)
    ensures ArrivesAt(front + [h], id, i)
  {
    var hooks := front + [h];
    forall k | 0 <= k < i && ConnectsId(hooks[k], id) ensures exists j :: k < j < i && DisconnectsId(hooks[j], id) {
      assert ConnectsId(front[k], id);
      var j :| k < j < i && DisconnectsId(front[j], id);
      assert DisconnectsId(hooks[j], id);
    }
  }

  /** A connect of a player who is not listed is an arrival. */
  lemma NewArrival(front: seq<Webhook>, h: Webhook, online: Listing)
    requires AbsentHaveLeft(front, online) && Connects(h) && DictGet(online, h.player.value.id).None?
    ensures ArrivesAt(front + [h], h.player.value.id, |front|)
  {
    var hooks, id, n := front + [h], h.player.value.id, |front|;
    forall k | 0 <= k < n && ConnectsId(hooks[k], id) ensures exists j :: k < j < n && DisconnectsId(hooks[j], id) {
      assert ConnectsId(front[k], id) && LeftAfter(front, id, k);
      var j :| k < j < |front| && DisconnectsId(front[j], id);
      assert DisconnectsId(hooks[j], id);
    }
  }

  lemma ConnectKeepsArrivals(front: seq<Webhook>, h: Webhook, online: Listing, a: seq<nat>)
    requires AllArrive(front, online, a) && AbsentHaveLeft(front, online) && Connects(h)
    ensures AllArrive(front + [h], OnlineAfter(online, h), ArrivalsAfter(a, online, h, |front|))
  {
    var online', a' := OnlineAfter(online, h), ArrivalsAfter(a, online, h, |front|);
    forall i | 0 <= i < |online'| ensures ArrivesAt(front + [h], online'[i].id, a'[i]) {
      if i < |online| {
        assert online'[i].id == online[i].id && a'[i] == a[i];
        ArrivalStays(front, h, online[i].id, a[i]);
      } else {
        NewArrival(front, h, online);
      }
    }
  }

  /** What remains after a disconnect stood in the dictionary before, and is not the player who left. */
  lemma RemainingEntry(online: Listing, a: seq<nat>, h: Webhook, n: nat, i: nat) returns (k: nat)
    requires |a| == |online| && DistinctIds(online) && !Connects(h) && i < |OnlineAfter(online, h)|
    ensures k < |online| && OnlineAfter(online, h)[i] == online[k] && ArrivalsAfter(a, online, h, n)[i] == a[k]
    ensures !DisconnectsId(h, online[k].id)
  {
    var gone := if Disconnects(h) then IndexOf(online, h.player.value.id) else |online|;
    k := if i < gone then i else i + 1;
    assert gone < |online| ==> online[k].id != online[gone].id;
  }

  lemma DisconnectKeepsArrivals(front: seq<Webhook>, h: Webhook, online: Listing, a: seq<nat>)
    requires AllArrive(front, online, a) && DistinctIds(online) && !Connects(h)
    ensures AllArrive(front + [h], OnlineAfter(online, h), ArrivalsAfter(a, online, h, |front|))
  {
    var online', a' := OnlineAfter(online, h), ArrivalsAfter(a, online, h, |front|);
    forall i | 0 <= i < |online'| ensures ArrivesAt(front + [h], online'[i].id, a'[i]) {
      var k := RemainingEntry(online, a, h, |front|, i);
      ArrivalStays(front, h, online[k].id, a[k]);
    }
  }

  lemma LeftStays(front: seq<Webhook>, h: Webhook, id: string, k: nat)
    ensures LeftAfter(front, id, k) ==> LeftAfter(front + [h], id, k)
    ensures DisconnectsId(h, id) && k < |front| ==> LeftAfter(front + [h], id, k)
  {
    var hooks := front + [h];
    assert hooks[|front|] == h;
    if j :| k < j < |front| && DisconnectsId(front[j], id) {
      assert DisconnectsId(hooks[j], id);
    }
  }

  lemma AbsentStillLeft(front: seq<Webhook>, h: Webhook, online: Listing)
    requires AbsentHaveLeft(front, online) && DistinctIds(online)
    ensures AbsentHaveLeft(front + [h], OnlineAfter(online, h))
  {
    var hooks, online' := front + [h], OnlineAfter(online, h);
    forall k: nat | k < |hooks| && Connects(hooks[k])
      ensures DictGet(online', hooks[k].player.value.id).Some? || LeftAfter(hooks, hooks[k].player.value.id, k)
    {
      var id := hooks[k].player.value.id;
      LeftStays(front, h, id, k);
      if Connects(h) {
        PutIsUpdate(online, h.player.value, id);
      } else if Disconnects(h) {
        PopIsRemoval(online, h.player.value.id, id);
      }
      assert k < |front| ==> Connects(front[k]) && front[k] == hooks[k];
    }
  }

  lemma ArrivalsAfterIncrease(a: seq<nat>, online: Listing, h: Webhook, n: nat)
    requires |a| == |online| && Increasing(a) && forall i | 0 <= i < |a| :: a[i] < n
    ensures var a' := ArrivalsAfter(a, online, h, n); Increasing(a') && forall i | 0 <= i < |a'| :: a'[i] < n + 1
  {
  }

  lemma {:induction false} ArrivalsFit(hooks: seq<Webhook>)
    ensures AllArrive(hooks, OnlineFrom(hooks), Arrivals(hooks)) && AbsentHaveLeft(hooks, OnlineFrom(hooks))
    ensures Increasing(Arrivals(hooks)) && forall i | 0 <= i < |Arrivals(hooks)| :: Arrivals(hooks)[i] < |hooks|
  {
    if hooks != [] {
      var n := |hooks| - 1;
      var front, h := hooks[..n], hooks[n];
      assert hooks == front + [h];
      ArrivalsFit(front);
      OnlineIsExact(front, Entry("", ""));
      AbsentStillLeft(front, h, OnlineFrom(front));
      ArrivalsAfterIncrease(Arrivals(front), OnlineFrom(front), h, n);
      if Connects(h) {
        ConnectKeepsArrivals(front, h, OnlineFrom(front), Arrivals(front));
      } else {
        DisconnectKeepsArrivals(front, h, OnlineFrom(front), Arrivals(front));
      }
    }
  }

  lemma ArrivalIsUnique(hooks: seq<Webhook>, id: string, i: int, j: int)
    requires ArrivesAt(hooks, id, i) && ArrivesAt(hooks, id, j)
    ensures i == j
  {
    assert ConnectsId(hooks[i], id) && ConnectsId(hooks[j], id);
  }

  /** Players are listed in the order in which they arrived. */
  lemma OnlineInOrderOfArrival(hooks: seq<Webhook>, i: nat, j: nat, a: int, b: int)
    requires i < j < |OnlineFrom(hooks)|
    requires ArrivesAt(hooks, OnlineFrom(hooks)[i].id, a) && ArrivesAt(hooks, OnlineFrom(hooks)[j].id, b)
    ensures a < b
  {
    ArrivalsFit(hooks);
    ArrivalIsUnique(hooks, OnlineFrom(hooks)[i].id, a, Arrivals(hooks)[i]);
    ArrivalIsUnique(hooks, OnlineFrom(hooks)[j].id, b, Arrivals(hooks)[j]);
  }

  /* ---- runs of one router service ---- */

  datatype Action = Hook(hook: Webhook) | Stop | CachedRead

  /** The service's dictionary and the store; every refresh by this service asks its own dictionary. */
  datatype State = State(online: Listing, cache: Cache)

  function After(s: State, id: MiniId, a: Action, sameText: bool): State {
    match a
    case Hook(h) =>
      var online := OnlineAfter(s.online, h);
      State(online, if h.player.None? then s.cache else FetchPlayers(s.cache, id, true, Some(online), sameText))
    case Stop => s.(online := [])
    case CachedRead => s.(cache := FetchPlayers(s.cache, id, false, Some(s.online), sameText))
  }

  function AfterAll(s: State, id: MiniId, actions: seq<Action>, sameText: bool): State {
    if actions == [] then s
    else After(AfterAll(s, id, actions[..|actions| - 1], sameText), id, actions[|actions| - 1], sameText)
  }

  /** The webhooks since the last stop. */
  function HooksSinceStop(actions: seq<Action>): seq<Webhook> {
    if actions == [] then []
    else
      var before := HooksSinceStop(actions[..|actions| - 1]);
      match actions[|actions| - 1]
      case Hook(h) => before + [h]
      case Stop => []
      case CachedRead => before
  }

  lemma {:induction false} OnlineIsHooksSinceStop(cache: Cache, id: MiniId, actions: seq<Action>, sameText: bool)
    ensures AfterAll(State([], cache), id, actions, sameText).online == OnlineFrom(HooksSinceStop(actions))
  {
    if actions != [] {
      OnlineIsHooksSinceStop(cache, id, actions[..|actions| - 1], sameText);
      match actions[|actions| - 1]
      case Hook(h) =>
        var before := HooksSinceStop(actions[..|actions| - 1]);
        assert (before + [h])[..|before|] == before;
      case _ =>
    }
  }

  /** After every webhook that carries a player, the stored player list is the dictionary, which is what the webhooks
      since the last stop say. */
  lemma WebhookShowsOnline(cache: Cache, id: MiniId, actions: seq<Action>, sameText: bool)
    requires actions != [] && actions[|actions| - 1].Hook? && actions[|actions| - 1].hook.player.Some?
    ensures var end := AfterAll(State([], cache), id, actions, sameText);
            Lookup(end.cache.data, Key(id, Players)) == Some(end.online) && end.online == OnlineFrom(HooksSinceStop(actions))
  {
    OnlineIsHooksSinceStop(cache, id, actions, sameText);
  }

  /** A stop empties the dictionary and leaves the stored list: a cached read right after it shows who is online
      exactly when nobody was listed. */
  lemma ReadAfterStopIsStale(s: State, id: MiniId, sameText: bool)
    requires Lookup(s.cache.data, Key(id, Players)) == Some(s.online)
    ensures var end := After(After(s, id, Stop, sameText), id, CachedRead, sameText);
            Lookup(end.cache.data, Key(id, Players)) == Some(s.online)
            && (Lookup(end.cache.data, Key(id, Players)) == Some(end.online) <==> s.online == [])
  {
  }

  /** Such a run: a player connects, the miniverse stops, and the cached list still shows the player. */
  lemma StopLeavesPlayerListed(id: MiniId, e: Entry, sameText: bool) returns (actions: seq<Action>)
    ensures actions == [Hook(Webhook("connect", "success", Some(e))), Stop, CachedRead]
    ensures var end := AfterAll(State([], Cache(map[], [])), id, actions, sameText);
            end.online == [] && Lookup(end.cache.data, Key(id, Players)) == Some([e])
  {
    var connect := Hook(Webhook("connect", "success", Some(e)));
    actions := [connect, Stop, CachedRead];
    var start := State([], Cache(map[], []));
    assert actions[..2] == [connect, Stop] && [connect, Stop][..1] == [connect] && [connect][..0] == [];
    assert AfterAll(start, id, [connect], sameText) == After(start, id, connect, sameText);
    ReadAfterStopIsStale(AfterAll(start, id, [connect], sameText), id, sameText);
  }
}
