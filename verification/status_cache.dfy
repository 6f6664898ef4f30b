/** The status store, the read-through cache over it, and the player service fed by the router's webhooks. */
module StatusCache {
  import opened Text

  type MiniId = string

  datatype Method = Players | Operators | Bans | SeenPlayers

  /** An element of a list: its id and its other fields. */
  datatype Entry = Entry(id: string, text: string)

  type Listing = seq<Entry>

  datatype Key = Key(miniverse: MiniId, name: Method)

  datatype ControlEvent = ControlEvent(key: Key, data: Option<Listing>)

  /** What the store holds, and the events published so far. */
  datatype Cache = Cache(data: map<Key, Listing>, published: seq<ControlEvent>)

  function Lookup(data: map<Key, Listing>, key: Key): Option<Listing> {
    if key in data then Some(data[key]) else None
  }

  function Stored(data: map<Key, Listing>, key: Key, value: Option<Listing>): map<Key, Listing> {
    if value.Some? then data[key := value.value] else data - {key}
  }

  /** Whether a write counts as a change. The text read back may or may not compare equal to the same text written
      (`sameText`); two absent values always do. */
  predicate Differs(before: Option<Listing>, value: Option<Listing>, sameText: bool) {
    if sameText then before != value else before.Some? || value.Some?
  }

  function PutValue(c: Cache, key: Key, value: Option<Listing>, publish: bool, sameText: bool): Cache {
    if Differs(Lookup(c.data, key), value, sameText) then
      Cache(Stored(c.data, key, value), c.published + (if publish then [ControlEvent(key, value)] else []))
    else c
  }

  /** The source is asked when refreshing or when nothing is stored, and its answer is then stored. */
  predicate AsksSource(c: Cache, key: Key, refresh: bool) {
    refresh || Lookup(c.data, key).None?
  }

  function Fetch(c: Cache, key: Key, refresh: bool, source: Option<Listing>, sameText: bool): Cache {
    if AsksSource(c, key, refresh) then PutValue(c, key, source, true, sameText) else c
  }

  /* ---- insertion-ordered dictionaries, keyed by id ---- */

  predicate DistinctIds(d: Listing) {
    forall i, j | 0 <= i < j < |d| :: d[i].id != d[j].id
  }

  /** Position of an id, or the length. */
  function IndexOf(d: Listing, id: string): (i: nat)
    ensures i <= |d| && (i < |d| ==> d[i].id == id) && forall j | 0 <= j < i :: d[j].id != id
  {
    if d == [] || d[0].id == id then 0 else 1 + IndexOf(d[1..], id)
  }

  function DictGet(d: Listing, id: string): Option<Entry> {
    var i := IndexOf(d, id);
    if i < |d| then Some(d[i]) else None
  }

  /** Assignment keeps the position of an id that is there and appends a new one. */
  function DictPut(d: Listing, e: Entry): Listing {
    var i := IndexOf(d, e.id);
    if i < |d| then d[i := e] else d + [e]
  }

  function DictPop(d: Listing, id: string): Listing {
    var i := IndexOf(d, id);
    if i < |d| then d[..i] + d[i + 1..] else d
  }

  /** `d |= {e.id: e for e in es}`. */
  function DictMerge(d: Listing, es: Listing): Listing {
    if es == [] then d else DictPut(DictMerge(d, es[..|es| - 1]), es[|es| - 1])
  }

  lemma IndexOfAt(d: Listing, i: nat)
    requires DistinctIds(d) && i < |d|
    ensures IndexOf(d, d[i].id) == i
  {
    assert forall k | 0 <= k < i :: d[k].id != d[i].id;
  }

  lemma PutIsUpdate(d: Listing, e: Entry, id: string)
    requires DistinctIds(d)
    ensures DistinctIds(DictPut(d, e))
    ensures DictGet(DictPut(d, e), id) == if id == e.id then Some(e) else DictGet(d, id)
  {
    var d' := DictPut(d, e);
    var k := IndexOf(d, e.id);
    assert DistinctIds(d');
    assert d'[k] == e;
    IndexOfAt(d', k);
    var i := IndexOf(d, id);
    if id != e.id && i < |d| {
      assert d'[i] == d[i];
      IndexOfAt(d', i);
    } else if id != e.id {
      assert forall j | 0 <= j < |d'| :: d'[j].id != id;
    }
  }

  lemma PopIsRemoval(d: Listing, gone: string, id: string)
    requires DistinctIds(d)
    ensures DistinctIds(DictPop(d, gone))
    ensures DictGet(DictPop(d, gone), id) == if id == gone then None else DictGet(d, id)
  {
    var d' := DictPop(d, gone);
    var k, i := IndexOf(d, gone), IndexOf(d, id);
    if k < |d| {
      assert forall j | 0 <= j < |d'| :: d'[j] == d[if j < k then j else j + 1];
      forall j | 0 <= j < |d'| ensures d'[j].id != gone {
        if j >= k { assert d[k].id != d[j + 1].id; }
      }
    }
    assert DistinctIds(d');
    if id != gone && i < |d| {
      var j := if i < k then i else if k < |d| then i - 1 else i;
      assert d'[j] == d[i];
      IndexOfAt(d', j);
    }
  }

  /** The last entry with this id. */
  function LastWith(es: Listing, id: string): Option<Entry> {
    if es == [] then None
    else if es[|es| - 1].id == id then Some(es[|es| - 1])
    else LastWith(es[..|es| - 1], id)
  }

  /** After a merge every id merged has its last entry, and the other ids what they had: nothing is lost. */
  lemma {:induction false} MergeKeepsLatest(d: Listing, es: Listing, id: string)
    requires DistinctIds(d)
    ensures DistinctIds(DictMerge(d, es))
    ensures DictGet(DictMerge(d, es), id) == if LastWith(es, id).Some? then LastWith(es, id) else DictGet(d, id)
  {
    if es != [] {
      MergeKeepsLatest(d, es[..|es| - 1], id);
      PutIsUpdate(DictMerge(d, es[..|es| - 1]), es[|es| - 1], id);
    }
  }

  /* ---- the player list ---- */

  function SeenOf(c: Cache, m: MiniId): Listing {
    var seen := Lookup(c.data, Key(m, SeenPlayers));
    if seen.Some? then seen.value else []
  }

  /** A player list that was refreshed is merged into the players seen, without publishing. */
  function FetchPlayers(c: Cache, m: MiniId, refresh: bool, source: Option<Listing>, sameText: bool): Cache {
    var c1 := Fetch(c, Key(m, Players), refresh, source, sameText);
    if AsksSource(c, Key(m, Players), refresh) && source.Some? then
      PutValue(c1, Key(m, SeenPlayers), Some(DictMerge(SeenOf(c1, m), source.value)), false, sameText)
    else c1
  }

  /** A webhook of the router. */
  datatype Webhook = Webhook(event: string, status: string, player: Option<Entry>)

  predicate Connects(h: Webhook) {
    h.player.Some? && h.event == "connect" && h.status == "success"
  }

  predicate Disconnects(h: Webhook) {
    h.player.Some? && h.event == "disconnect"
  }

  function OnlineAfter(online: Listing, h: Webhook): Listing {
    if Connects(h) then DictPut(online, h.player.value)
    else if Disconnects(h) then DictPop(online, h.player.value.id)
    else online
  }

  class StatusStore {
    const sameText: bool
    var data: map<Key, Listing>
    var published: seq<ControlEvent>

    constructor (sameText: bool)
      ensures this.sameText == sameText && View() == Cache(map[], [])
    {
      this.sameText, data, published := sameText, map[], [];
    }

    function View(): Cache
      reads this
    {
      Cache(data, published)
    }

    method Set(key: Key, value: Option<Listing>, publish: bool)
      modifies this
      ensures View() == PutValue(old(View()), key, value, publish, sameText)
    {
      var before := Lookup(data, key);
      if Differs(before, value, sameText) {
        if value.Some? {
          data := data[key := value.value];
        } else {
          data := data - {key};
        }
        if publish {
          published := published + [ControlEvent(key, value)];
        }
      }
    }

    method Get(key: Key) returns (value: Option<Listing>)
      ensures value == Lookup(data, key)
    {
      value := if key in data then Some(data[key]) else None;
    }
  }

  /** The service of one miniverse; `online` is the router service's own dictionary. */
  class PlayerService {
    const id: MiniId
    const store: StatusStore
    var online: Listing

    constructor (id: MiniId, store: StatusStore)
      ensures this.id == id && this.store == store && online == []
    {
      this.id, this.store, online := id, store, [];
    }

    /** `source` is what the source answers if it is asked. The result is the value stored afterwards. */
    method GetDataCached(name: Method, refresh: bool, source: Option<Listing>)
      returns (raw: Option<Listing>, refreshed: bool)
      modifies store
      ensures store.View() == Fetch(old(store.View()), Key(id, name), refresh, source, store.sameText)
      ensures raw == Lookup(store.data, Key(id, name))
      ensures refreshed <==> AsksSource(old(store.View()), Key(id, name), refresh)
      ensures refreshed ==> raw == source
    {
      raw := None;
      if !refresh {
        raw := store.Get(Key(id, name));
      }
      refreshed := false;
      if raw.None? {
        raw := source;
        store.Set(Key(id, name), raw, true);
        refreshed := true;
      }
    }

    method GetPlayerList(refresh: bool, source: Option<Listing>) returns (players: Listing)
      modifies store
      ensures store.View() == FetchPlayers(old(store.View()), id, refresh, source, store.sameText)
      ensures players == var now := Lookup(store.data, Key(id, Players)); if now.Some? then now.value else []
    {
      var raw, refreshed := GetDataCached(Players, refresh, source);
      if raw.None? {
        return [];
      }
      if refreshed {
        var seen := store.Get(Key(id, SeenPlayers));
        var dict := if seen.Some? then seen.value else [];
        ghost var start := dict;
        for i := 0 to |raw.value|
          invariant dict == DictMerge(start, raw.value[..i])
        {
          assert raw.value[..i + 1][..i] == raw.value[..i];
          dict := DictPut(dict, raw.value[i]);
        }
        assert raw.value[..|raw.value|] == raw.value;
        store.Set(Key(id, SeenPlayers), Some(dict), false);
      }
      return raw.value;
    }

    method Stop()
      modifies this
      ensures online == []
    {
      online := [];
    }

    method ProcessWebhook(h: Webhook)
      modifies this, store
      ensures online == OnlineAfter(old(online), h)
      ensures store.View() == if h.player.None? then old(store.View())
                              else FetchPlayers(old(store.View()), id, true, Some(online), store.sameText)
    {
      if h.player.None? {
        return;
      }
      if h.event == "connect" && h.status == "success" {
        online := DictPut(online, h.player.value);
      } else if h.event == "disconnect" {
        online := DictPop(online, h.player.value.id);
      }
      var _ := GetPlayerList(true, Some(online));
    }
  }

  /* ---- replaying the published events ---- */

  /** A read of any kind, by any service. */
  datatype Access =
    | Read(key: Key, refresh: bool, source: Option<Listing>)
    | ReadPlayers(miniverse: MiniId, refresh: bool, source: Option<Listing>)

  function AfterAccess(c: Cache, a: Access, sameText: bool): Cache {
    match a
    case Read(key, refresh, source) => Fetch(c, key, refresh, source, sameText)
    case ReadPlayers(m, refresh, source) => FetchPlayers(c, m, refresh, source, sameText)
  }

  function AfterAccesses(c: Cache, accesses: seq<Access>, sameText: bool): Cache {
    if accesses == [] then c
    else AfterAccess(AfterAccesses(c, accesses[..|accesses| - 1], sameText), accesses[|accesses| - 1], sameText)
  }

  /** What a listener who applies the events of a key holds at the end. */
  function Replay(start: Option<Listing>, events: seq<ControlEvent>, key: Key): Option<Listing> {
    if events == [] then start
    else if events[|events| - 1].key == key then events[|events| - 1].data
    else Replay(start, events[..|events| - 1], key)
  }

  lemma PutIsReplayed(c: Cache, key: Key, value: Option<Listing>, publish: bool, sameText: bool, start: Option<Listing>, k: Key)
    requires publish || key != k
    requires Lookup(c.data, k) == Replay(start, c.published, k)
    ensures var c' := PutValue(c, key, value, publish, sameText); Lookup(c'.data, k) == Replay(start, c'.published, k)
  {
    var c' := PutValue(c, key, value, publish, sameText);
    if c'.published != c.published {
      assert c'.published[..|c.published|] == c.published;
    }
  }

  /** Through any run of reads and refreshes, replaying the published events of a key gives the stored value, whether
      or not writes of an unchanged value are recognised. */
  lemma {:induction false} ReplayGivesStored(c: Cache, accesses: seq<Access>, sameText: bool, key: Key)
    requires key.name != SeenPlayers && c.published == []
    ensures var end := AfterAccesses(c, accesses, sameText);
            Replay(Lookup(c.data, key), end.published, key) == Lookup(end.data, key)
  {
    if accesses != [] {
      var n := |accesses| - 1;
      ReplayGivesStored(c, accesses[..n], sameText, key);
      var c1 := AfterAccesses(c, accesses[..n], sameText);
      var start := Lookup(c.data, key);
      match accesses[n]
      case Read(k, refresh, source) =>
        PutIsReplayed(c1, k, source, true, sameText, start, key);
      case ReadPlayers(m, refresh, source) =>
        PutIsReplayed(c1, Key(m, Players), source, true, sameText, start, key);
        if AsksSource(c1, Key(m, Players), refresh) && source.Some? {
          var c2 := Fetch(c1, Key(m, Players), refresh, source, sameText);
          PutIsReplayed(c2, Key(m, SeenPlayers), Some(DictMerge(SeenOf(c2, m), source.value)), false, sameText, start, key);
        }
    }
  }

  /* ---- the players seen ---- */

  /** The list an access brings into the players seen of a miniverse. */
  function Brought(c: Cache, a: Access, m: MiniId): Listing {
    if a.ReadPlayers? && a.miniverse == m && a.source.Some? && AsksSource(c, Key(m, Players), a.refresh)
    then a.source.value else []
  }

  /** The entries of the lists a miniverse's player refreshes brought in, in order. */
  function Refreshed(c: Cache, accesses: seq<Access>, sameText: bool, m: MiniId): Listing {
    if accesses == [] then []
    else
      var n := |accesses| - 1;
      Refreshed(c, accesses[..n], sameText, m) + Brought(AfterAccesses(c, accesses[..n], sameText), accesses[n], m)
  }

  lemma {:induction false} MergeConcat(d: Listing, a: Listing, b: Listing)
    ensures DictMerge(d, a + b) == DictMerge(DictMerge(d, a), b)
  {
    if b == [] {
      assert a + b == a;
    } else {
      MergeConcat(d, a, b[..|b| - 1]);
      assert (a + b)[..|a + b| - 1] == a + b[..|b| - 1];
    }
  }

  lemma PutLeavesOtherSeen(c: Cache, key: Key, value: Option<Listing>, publish: bool, sameText: bool, m: MiniId)
    ensures SeenOf(PutValue(c, key, value, publish, sameText), m) ==
            if key == Key(m, SeenPlayers) then (if value.Some? then value.value else []) else SeenOf(c, m)
  {
  }

  lemma AccessMergesSeen(c: Cache, a: Access, sameText: bool, m: MiniId)
    requires a.Read? ==> a.key.name != SeenPlayers
    ensures SeenOf(AfterAccess(c, a, sameText), m) == DictMerge(SeenOf(c, m), Brought(c, a, m))
  {
    match a
    case Read(k, refresh, source) =>
      PutLeavesOtherSeen(c, k, source, true, sameText, m);
    case ReadPlayers(k, refresh, source) =>
      PutLeavesOtherSeen(c, Key(k, Players), source, true, sameText, m);
      if AsksSource(c, Key(k, Players), refresh) && source.Some? {
        var c1 := Fetch(c, Key(k, Players), refresh, source, sameText);
        PutLeavesOtherSeen(c1, Key(k, SeenPlayers), Some(DictMerge(SeenOf(c1, k), source.value)), false, sameText, m);
      }
  }

  /** The players seen are the first ones with all refreshed lists merged in. */
  lemma {:induction false} SeenIsMerged(c: Cache, accesses: seq<Access>, sameText: bool, m: MiniId)
    requires forall i | 0 <= i < |accesses| :: accesses[i].Read? ==> accesses[i].key.name != SeenPlayers
    ensures SeenOf(AfterAccesses(c, accesses, sameText), m) == DictMerge(SeenOf(c, m), Refreshed(c, accesses, sameText, m))
  {
    if accesses != [] {
      var n := |accesses| - 1;
      var c1 := AfterAccesses(c, accesses[..n], sameText);
      SeenIsMerged(c, accesses[..n], sameText, m);
      AccessMergesSeen(c1, accesses[n], sameText, m);
      MergeConcat(SeenOf(c, m), Refreshed(c, accesses[..n], sameText, m), Brought(c1, accesses[n], m));
    }
  }

  /** Every id ever refreshed is seen with its latest entry, and an id that was seen stays seen. */
  lemma SeenHasLatest(c: Cache, accesses: seq<Access>, sameText: bool, m: MiniId, id: string)
    requires forall i | 0 <= i < |accesses| :: accesses[i].Read? ==> accesses[i].key.name != SeenPlayers
    requires DistinctIds(SeenOf(c, m))
    ensures var latest := LastWith(Refreshed(c, accesses, sameText, m), id);
            DictGet(SeenOf(AfterAccesses(c, accesses, sameText), m), id) ==
            if latest.Some? then latest else DictGet(SeenOf(c, m), id)
  {
    SeenIsMerged(c, accesses, sameText, m);
    MergeKeepsLatest(SeenOf(c, m), Refreshed(c, accesses, sameText, m), id);
  }
}
