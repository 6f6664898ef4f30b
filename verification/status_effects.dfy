/** What reads, writes and webhooks leave of the status cache, and which of the published events are changes. */
module StatusEffects {
  import opened Text
  import opened StatusCache
  import opened RouterPlayers
  import opened Routes

  /* ---- reads and writes ---- */

  /** A read leaves the cache alone exactly where a value is stored and no refresh is asked for; otherwise the source's
      answer is stored, or nothing is if it has none. The other keys keep what they had. */
  lemma ReadIsExact(c: Cache, key: Key, refresh: bool, source: Option<Listing>, sameText: bool, k: Key)
    ensures var c' := Fetch(c, key, refresh, source, sameText);
            && (!refresh && key in c.data ==> c' == c)
            && (refresh || key !in c.data ==> Lookup(c'.data, key) == source)
            && (k != key ==> (k in c'.data <==> k in c.data) && (k in c.data ==> c'.data[k] == c.data[k]))
  {
  }

  /** A refresh publishes the answer as the last event unless it was stored already; where the text read back never
      equals the text written, it is withheld only when nothing was stored and nothing is. */
  lemma RefreshPublishes(c: Cache, key: Key, source: Option<Listing>, sameText: bool)
    ensures var c' := Fetch(c, key, true, source, sameText);
            c'.published == c.published + (
              if (sameText && Lookup(c.data, key) == source) || (key !in c.data && source == None) then []
              else [ControlEvent(key, source)])
  {
  }

  /** A refreshed player list is stored and published as any list is; every player in it is seen afterwards, in the
      latest entry, and nothing is published about the players seen. */
  lemma PlayerRefreshIsExact(c: Cache, m: MiniId, listed: Listing, sameText: bool, id: string)
    requires DistinctIds(SeenOf(c, m))
    ensures var c' := FetchPlayers(c, m, true, Some(listed), sameText);
            && Lookup(c'.data, Key(m, Players)) == Some(listed)
            && c'.published == Fetch(c, Key(m, Players), true, Some(listed), sameText).published
            && DictGet(SeenOf(c', m), id) == if LastWith(listed, id).Some? then LastWith(listed, id) else DictGet(SeenOf(c, m), id)
  {
    var c1 := Fetch(c, Key(m, Players), true, Some(listed), sameText);
    assert SeenOf(c1, m) == SeenOf(c, m);
    MergeKeepsLatest(SeenOf(c, m), listed, id);
  }

  /** Where the source has no answer a player list is stored as missing, and the players seen stay. */
  lemma UnansweredRefresh(c: Cache, m: MiniId, sameText: bool)
    ensures var c' := FetchPlayers(c, m, true, None, sameText);
            Key(m, Players) !in c'.data && SeenOf(c', m) == SeenOf(c, m)
  {
  }

  /* ---- the events of a run ---- */

  /** No event is about the players seen, and each tells a listener who has applied the earlier ones something new. */
  ghost predicate EachIsNews(start: map<Key, Listing>, events: seq<ControlEvent>) {
    forall i | 0 <= i < |events| ::
      events[i].key.name != SeenPlayers
      && Replay(Lookup(start, events[i].key), events[..i], events[i].key) != events[i].data
  }

  ghost predicate InStep(start: map<Key, Listing>, c: Cache) {
    forall k: Key | k.name != SeenPlayers :: Replay(Lookup(start, k), c.published, k) == Lookup(c.data, k)
  }

  lemma WriteKeepsStep(start: map<Key, Listing>, c: Cache, key: Key, value: Option<Listing>, publish: bool)
    requires InStep(start, c) && (publish <==> key.name != SeenPlayers)
    ensures InStep(start, PutValue(c, key, value, publish, true))
  {
    var c' := PutValue(c, key, value, publish, true);
    forall k: Key | k.name != SeenPlayers ensures Replay(Lookup(start, k), c'.published, k) == Lookup(c'.data, k) {
      PutIsReplayed(c, key, value, publish, true, Lookup(start, k), k);
    }
  }

  lemma OneMoreIsNews(start: map<Key, Listing>, events: seq<ControlEvent>, e: ControlEvent)
    requires EachIsNews(start, events) && e.key.name != SeenPlayers && Replay(Lookup(start, e.key), events, e.key) != e.data
    ensures EachIsNews(start, events + [e])
  {
    var all, n := events + [e], |events|;
    assert all[..n] == events;
    forall i | 0 <= i < |all|
      ensures all[i].key.name != SeenPlayers && Replay(Lookup(start, all[i].key), all[..i], all[i].key) != all[i].data
    {
      if i < n {
        assert all[..i] == events[..i];
      }
    }
  }

  lemma WriteIsNews(start: map<Key, Listing>, c: Cache, key: Key, value: Option<Listing>, publish: bool)
    requires InStep(start, c) && EachIsNews(start, c.published)
    requires publish <==> key.name != SeenPlayers
    ensures var c' := PutValue(c, key, value, publish, true); InStep(start, c') && EachIsNews(start, c'.published)
  {
    WriteKeepsStep(start, c, key, value, publish);
    if publish && Lookup(c.data, key) != value {
      OneMoreIsNews(start, c.published, ControlEvent(key, value));
    } else {
      assert c.published + [] == c.published;
    }
  }

  /** Where the text read back equals the text written, through any run of reads and refreshes, every published event
      is a change of its list, none repeats the one before it, and none is about the players seen. */
  lemma {:induction false} EveryEventIsNews(c: Cache, accesses: seq<Access>)
    requires c.published == [] && forall i | 0 <= i < |accesses| :: accesses[i].Read? ==> accesses[i].key.name != SeenPlayers
    ensures var end := AfterAccesses(c, accesses, true); InStep(c.data, end) && EachIsNews(c.data, end.published)
  {
    if accesses != [] {
      var n := |accesses| - 1;
      EveryEventIsNews(c, accesses[..n]);
      var c1 := AfterAccesses(c, accesses[..n], true);
      match accesses[n]
      case Read(k, refresh, source) =>
        WriteIsNews(c.data, c1, k, source, true);
      case ReadPlayers(m, refresh, source) =>
        WriteIsNews(c.data, c1, Key(m, Players), source, true);
        var c2 := Fetch(c1, Key(m, Players), refresh, source, true);
        if source.Some? {
          WriteIsNews(c.data, c2, Key(m, SeenPlayers), Some(DictMerge(SeenOf(c2, m), source.value)), false);
        }
    }
  }

  /** Where it does not, the same refresh is published every time: such a run repeats its event. */
  lemma UnrecognisedTextIsRepeated(key: Key, listed: Listing) returns (accesses: seq<Access>)
    ensures accesses == [Read(key, true, Some(listed)), Read(key, true, Some(listed))]
    ensures AfterAccesses(Cache(map[], []), accesses, false).published == [ControlEvent(key, Some(listed)), ControlEvent(key, Some(listed))]
    ensures AfterAccesses(Cache(map[], []), accesses, true).published == [ControlEvent(key, Some(listed))]
  {
    var one := Read(key, true, Some(listed));
    accesses := [one, one];
    assert accesses[..1] == [one] && [one][..0] == [];
    var start := Cache(map[], []);
    forall sameText ensures AfterAccesses(start, accesses, sameText) == AfterAccess(AfterAccess(start, one, sameText), one, sameText) {
      assert AfterAccesses(start, [one], sameText) == AfterAccess(start, one, sameText);
    }
  }

  /* ---- webhooks ---- */

  /** What each webhook does to the dictionary: a successful connect lists the player, a disconnect takes the player
      off, and any other, a failed connect among them, changes nothing. */
  lemma WebhookIsExact(online: Listing, h: Webhook, id: string)
    requires DistinctIds(online)
    ensures var online' := OnlineAfter(online, h);
            if h.player == None then online' == online
            else if h.event == "connect" then
              if h.status != "success" then online' == online
              else DictGet(online', id) == if id == h.player.value.id then h.player else DictGet(online, id)
            else if h.event == "disconnect" then
              DictGet(online', id) == if id == h.player.value.id then None else DictGet(online, id)
            else online' == online
  {
    if Connects(h) {
      PutIsUpdate(online, h.player.value, id);
    } else if Disconnects(h) {
      PopIsRemoval(online, h.player.value.id, id);
    }
  }

  /** A webhook without a player leaves the dictionary and the store as they were. */
  lemma PlayerlessWebhook(s: State, id: MiniId, event: string, status: string, sameText: bool)
    ensures After(s, id, Hook(Webhook(event, status, None)), sameText) == s
  {
  }

  /* ---- routes ---- */

  /** Of the miniverses with one host name the last listed has the route, by its own subdomain and container name. */
  lemma {:induction false} LastSiteHasTheRoute(sites: seq<Site>, domain: string, i: nat)
    requires i < |sites| && forall j | i < j < |sites| :: sites[j].subdomain != sites[i].subdomain
    ensures var routes, host := GenerateRoutes(sites, domain), sites[i].subdomain + "." + domain;
            host in routes && routes[host] == "miniverse-" + sites[i].id + ":25565"
  {
    var n := |sites| - 1;
    if i < n {
      var front := sites[..n];
      assert front[i] == sites[i];
      LastSiteHasTheRoute(front, domain, i);
      if Host(sites[n].subdomain, domain) == Host(sites[i].subdomain, domain) {
        HostInjective(sites[n].subdomain, sites[i].subdomain, domain);
      }
    }
  }

  /** The letters the webhook handler strips. */
  lemma StrippedLetters(c: char)
    ensures c in CharsOf("miniverse-") <==> c in {'m', 'i', 'n', 'v', 'e', 'r', 's', '-'}
  {
    var text := "miniverse-";
    assert text[0] == 'm' && text[1] == 'i' && text[2] == 'n' && text[4] == 'v' && text[5] == 'e';
    assert text[6] == 'r' && text[7] == 's' && text[9] == '-';
  }
}
