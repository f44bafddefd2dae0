/** Searches, delete routes, store updates, flag changes and restarts, interleaved step by step.

    A search is a cache lookup and, on a miss, an adapter query, perhaps a shadow read, a tombstone
    filter pass and a cache write that also answers the caller.  A delete route is a durable insert, an
    addition to the in-memory filter, an audit write that may fail, and a prefix invalidation. */
module MemoryProtocol {
  import opened Common
  import opened MemoryModel
  import opened TtlCache

  /** The answer to a get; a remote service may raise. */
  datatype Fetched = Raised | Absent | Present(m: Memory)

  /** What stands behind an adapter name.  A remote service answers as it likes, or fails. */
  datatype Adapter =
    | Stub(shelf: Shelf)
    | Null
    | Remote(answer: SearchRequest -> Option<SearchResult>, fetch: Triple -> Fetched)

  datatype Search =
    | Missed(request: SearchRequest)
    | Queried(request: SearchRequest, result: SearchResult)
    | Filtered(request: SearchRequest, result: SearchResult)
    | Finished

  datatype Route = Recorded(t: Triple) | Added(t: Triple) | Audited(t: Triple) | Closed

  datatype World = World(
    clock: real,
    adapters: map<string, Adapter>,
    active: string,                        // the memory.adapter flag
    tombstones: set<Triple>,               // the in-memory filter
    durable: map<string, Triple>,          // the tombstone table, keyed by memory id
    cache: Store<SearchResult>,
    shadowLog: seq<bool>,                  // discrepancies seen by shadow reads
    searches: map<nat, Search>,
    gets: map<nat, Triple>,                // gets that have passed the filter check
    routes: map<nat, Route>)

  datatype Event =
    | Tick(seconds: real)
    | Lookup(sid: nat, request: SearchRequest)
    | Query(sid: nat)
    | ShadowRead(sid: nat, discrepancy: bool)
    | Filter(sid: nat)
    | Write(sid: nat)
    | GetCheck(gid: nat, wanted: Triple)
    | GetFetch(gid: nat)
    | Upsert(m: Memory)
    | Delete(d: Triple)
    | RemoteChange(name: string, answer: SearchRequest -> Option<SearchResult>, fetch: Triple -> Fetched)
    | SetFlag(active: string)
    | Record(rid: nat, t: Triple)
    | AddToFilter(rid: nat)
    | Audit(rid: nat, ok: bool)
    | InvalidateCache(rid: nat)
    | Restart

  datatype Config = Config(ttl: nat, digest: Digest, adapters: map<string, Adapter>, active: string)

  // ---------------------------------------------------------------- adapters

  function ActiveAdapter(w: World): Adapter {
    if w.active in w.adapters then w.adapters[w.active] else Null
  }

  /** None stands for an exception. */
  function AnswerOf(a: Adapter, r: SearchRequest): Option<SearchResult> {
    match a
    case Stub(shelf) => Some(SearchShelf(shelf, r))
    case Null => Some(SearchResult([], "null"))
    case Remote(answer, _) => answer(r)
  }

  function FetchFrom(a: Adapter, t: Triple): Fetched {
    match a
    case Stub(shelf) =>
      var found := GetFrom(shelf, t);
      if found.Some? then Present(found.value) else Absent
    case Null => Absent
    case Remote(_, fetch) => fetch(t)
  }

  function WithActive(w: World, a: Adapter): World {
    if w.active in w.adapters then w.(adapters := w.adapters[w.active := a]) else w
  }

  function Purified(r: SearchResult, tombstones: set<Triple>): SearchResult {
    SearchResult(FilterEntries(r.items, tombstones), r.adapterVersion)
  }

  // ---------------------------------------------------------------- steps

  predicate Enabled(cfg: Config, w: World, e: Event) {
    match e
    case Tick(seconds) => seconds >= 0.0
    case Lookup(sid, _) => sid !in w.searches
    case Query(sid) => sid in w.searches && w.searches[sid].Missed?
    case ShadowRead(sid, _) => sid in w.searches && w.searches[sid].Queried?
    case Filter(sid) => sid in w.searches && w.searches[sid].Queried?
    case Write(sid) => sid in w.searches && w.searches[sid].Filtered?
    case GetCheck(gid, _) => gid !in w.gets
    case GetFetch(gid) => gid in w.gets
    case Record(rid, _) => rid !in w.routes
    case AddToFilter(rid) => rid in w.routes && w.routes[rid].Recorded?
    case Audit(rid, _) => rid in w.routes && w.routes[rid].Added?
    case InvalidateCache(rid) => rid in w.routes && w.routes[rid].Audited?
    case _ => true
  }

  function Apply(cfg: Config, w: World, e: Event): World
    requires Enabled(cfg, w, e)
  {
    match e
    case Tick(seconds) => w.(clock := w.clock + seconds)
    case Lookup(sid, r) =>
      var key := SearchKey(cfg.digest, r);
      w.(cache := AfterLookup(w.cache, key, w.clock),
         searches := w.searches[sid := if Cached(w.cache, key, w.clock).Some? then Finished else Missed(r)])
    case Query(sid) =>
      var r := w.searches[sid].request;
      var answer := AnswerOf(ActiveAdapter(w), r);
      w.(searches := w.searches[sid := if answer.Some? then Queried(r, answer.value) else Finished])
    case ShadowRead(sid, discrepancy) => w.(shadowLog := w.shadowLog + [discrepancy])
    case Filter(sid) =>
      var s := w.searches[sid];
      w.(searches := w.searches[sid := Filtered(s.request, Purified(s.result, w.tombstones))])
    case Write(sid) =>
      var s := w.searches[sid];
      w.(cache := Put(w.cache, SearchKey(cfg.digest, s.request), s.result, w.clock, cfg.ttl),
         searches := w.searches[sid := Finished])
    case Upsert(m) =>
      var a := ActiveAdapter(w);
      if a.Stub? then WithActive(w, Stub(UpsertInto(a.shelf, m))) else w
    case Delete(d) =>
      var a := ActiveAdapter(w);
      if a.Stub? then WithActive(w, Stub(DeleteFrom(a.shelf, d))) else w
    case GetCheck(gid, t) => if t in w.tombstones then w else w.(gets := w.gets[gid := t])
    case GetFetch(gid) => w.(gets := w.gets - {gid})
    case RemoteChange(name, answer, fetch) =>
      if name in w.adapters && w.adapters[name].Remote?
      then w.(adapters := w.adapters[name := Remote(answer, fetch)]) else w
    case SetFlag(active) => w.(active := active)
    case Record(rid, t) =>
      w.(durable := if t.entityId in w.durable then w.durable else w.durable[t.entityId := t],
         routes := w.routes[rid := Recorded(t)])
    case AddToFilter(rid) =>
      w.(tombstones := w.tombstones + {w.routes[rid].t}, routes := w.routes[rid := Added(w.routes[rid].t)])
    case Audit(rid, ok) =>
      w.(routes := w.routes[rid := if ok then Audited(w.routes[rid].t) else Closed])
    case InvalidateCache(rid) =>
      var t := w.routes[rid].t;
      w.(cache := w.cache - KeysUnder(w.cache, InvalidationPrefix(t.tenantId, t.applicationId)),
         routes := w.routes[rid := Closed])
    case Restart =>
      w.(tombstones := Reloaded(w.durable), cache := map[],
         searches := map sid | sid in w.searches :: Finished, gets := map[],
         routes := map rid | rid in w.routes :: Closed)
  }

  function Reloaded(durable: map<string, Triple>): set<Triple> {
    set id | id in durable :: durable[id]
  }

  function FirstWorld(cfg: Config): World {
    World(0.0, cfg.adapters, cfg.active, {}, map[], map[], [], map[], map[], map[])
  }

  predicate Schedule(cfg: Config, h: History<Event>) {
    match h
    case Start => true
    case Then(past, e) => Schedule(cfg, past) && Enabled(cfg, Now(cfg, past), e)
  }

  /** The world after a history; an event that is not enabled changes nothing. */
  function Now(cfg: Config, h: History<Event>): World {
    match h
    case Start => FirstWorld(cfg)
    case Then(past, e) =>
      var w := Now(cfg, past);
      if Enabled(cfg, w, e) then Apply(cfg, w, e) else w
  }

  // ---------------------------------------------------------------- replies

  /** The request an event answers, and the answer. */
  function ReplyTo(cfg: Config, w: World, e: Event): Option<(SearchRequest, SearchResult)> {
    match e
    case Lookup(_, r) =>
      var hit := Cached(w.cache, SearchKey(cfg.digest, r), w.clock);
      if hit.Some? then Some((r, hit.value)) else None
    case Write(sid) =>
      if sid in w.searches && w.searches[sid].Filtered?
      then Some((w.searches[sid].request, w.searches[sid].result)) else None
    case _ => None
  }

  // ---------------------------------------------------------------- where replies come from

  /** The events of one search: it queried, filtered and wrote right after these histories. */
  datatype Origin = Origin(sid: nat, request: SearchRequest,
    queried: History<Event>, filtered: History<Event>, written: History<Event>)

  /** The search queried the adapter, which gave `answer`, in the world after o.queried. */
  ghost predicate QueriedAt(cfg: Config, o: Origin, answer: SearchResult, h: History<Event>) {
    && Within(Then(o.queried, Query(o.sid)), h)
    && AnswerOf(ActiveAdapter(Now(cfg, o.queried)), o.request) == Some(answer)
  }

  /** The search then filtered that answer by the tombstones of the world after o.filtered. */
  ghost predicate FilteredAt(cfg: Config, o: Origin, result: SearchResult, h: History<Event>) {
    && Within(Then(o.filtered, Filter(o.sid)), h)
    && exists answer :: QueriedAt(cfg, o, answer, o.filtered)
        && result == Purified(answer, Now(cfg, o.filtered).tombstones)
  }

  predicate Removes(cfg: Config, w: World, e: Event, key: string) {
    || e.Restart?
    || (e.InvalidateCache? && e.rid in w.routes && w.routes[e.rid].Audited?
        && InvalidationPrefix(w.routes[e.rid].t.tenantId, w.routes[e.rid].t.applicationId) <= key)
  }

  /** h continues `since`, and nothing in between invalidated the key. */
  ghost predicate Undisturbed(cfg: Config, since: History<Event>, h: History<Event>, key: string) {
    h == since
    || (h.Then? && Undisturbed(cfg, since, h.past, key) && !Removes(cfg, Now(cfg, h.past), h.last, key))
  }

  /** The cache entry under a key was written by that search, with this expiry. */
  ghost predicate CachedBy(cfg: Config, o: Origin, key: string, entry: Entry<SearchResult>, h: History<Event>) {
    && key == SearchKey(cfg.digest, o.request)
    && FilteredAt(cfg, o, entry.value, o.written)
    && Undisturbed(cfg, Then(o.written, Write(o.sid)), h, key)
    && entry.expiresAt == Now(cfg, o.written).clock + cfg.ttl as real
  }

  /** A search in flight has come by its result as its phase says. */
  ghost predicate SearchFrom(cfg: Config, o: Origin, sid: nat, s: Search, h: History<Event>) {
    && o.sid == sid
    && (s.Queried? ==> o.request == s.request && QueriedAt(cfg, o, s.result, h))
    && (s.Filtered? ==> o.request == s.request && FilteredAt(cfg, o, s.result, h))
  }

  ghost predicate SearchesHaveOrigins(cfg: Config, h: History<Event>) {
    var w := Now(cfg, h);
    forall sid :: sid in w.searches ==> exists o :: SearchFrom(cfg, o, sid, w.searches[sid], h)
  }

  ghost predicate EntriesHaveOrigins(cfg: Config, h: History<Event>) {
    var w := Now(cfg, h);
    forall key :: key in w.cache ==> exists o :: CachedBy(cfg, o, key, w.cache[key], h)
  }

  lemma SearchStep(cfg: Config, w: World, e: Event, sid: nat)
    requires Enabled(cfg, w, e) && sid in Apply(cfg, w, e).searches
    requires e != Query(sid) && e != Filter(sid)
    ensures var s := Apply(cfg, w, e).searches[sid];
      s.Missed? || s.Finished? || (sid in w.searches && w.searches[sid] == s)
  {
  }

  lemma SearchOriginsKept(cfg: Config, past: History<Event>, e: Event)
    requires Schedule(cfg, Then(past, e)) && SearchesHaveOrigins(cfg, past)
    ensures SearchesHaveOrigins(cfg, Then(past, e))
  {
    var h := Then(past, e);
    var w, v := Now(cfg, past), Now(cfg, h);
    forall sid | sid in v.searches
      ensures exists o :: SearchFrom(cfg, o, sid, v.searches[sid], h)
    {
      if e == Query(sid) {
        var o := Origin(sid, w.searches[sid].request, past, past, past);
        assert SearchFrom(cfg, o, sid, v.searches[sid], h);
      } else if e == Filter(sid) {
        var o :| SearchFrom(cfg, o, sid, w.searches[sid], past);
        var o' := o.(filtered := past);
        assert QueriedAt(cfg, o', w.searches[sid].result, past);
        assert SearchFrom(cfg, o', sid, v.searches[sid], h);
      } else {
        SearchStep(cfg, w, e, sid);
        if v.searches[sid].Missed? || v.searches[sid].Finished? {
          var o := Origin(sid, SearchRequest("", "", "", map[], 1), past, past, past);
          assert SearchFrom(cfg, o, sid, v.searches[sid], h);
        } else {
          var o :| SearchFrom(cfg, o, sid, w.searches[sid], past);
          assert SearchFrom(cfg, o, sid, v.searches[sid], h);
        }
      }
    }
  }

  predicate Writes(cfg: Config, w: World, e: Event, key: string) {
    e.Write? && e.sid in w.searches && w.searches[e.sid].Filtered?
    && key == SearchKey(cfg.digest, w.searches[e.sid].request)
  }

  lemma CacheStep(cfg: Config, w: World, e: Event, key: string)
    requires Enabled(cfg, w, e) && key in Apply(cfg, w, e).cache && !Writes(cfg, w, e, key)
    ensures key in w.cache && Apply(cfg, w, e).cache[key] == w.cache[key] && !Removes(cfg, w, e, key)
  {
  }

  lemma WrittenEntry(cfg: Config, past: History<Event>, e: Event, key: string) returns (o: Origin)
    requires Schedule(cfg, Then(past, e)) && SearchesHaveOrigins(cfg, past)
    requires Writes(cfg, Now(cfg, past), e, key)
    ensures CachedBy(cfg, o, key, Now(cfg, Then(past, e)).cache[key], Then(past, e))
    ensures o.written == past && o.sid == e.sid && o.request == Now(cfg, past).searches[e.sid].request
  {
    var s := Now(cfg, past).searches[e.sid];
    o :| SearchFrom(cfg, o, e.sid, s, past);
    var answer :| QueriedAt(cfg, o, answer, o.filtered)
      && s.result == Purified(answer, Now(cfg, o.filtered).tombstones);
    o := o.(written := past);
    assert QueriedAt(cfg, o, answer, o.filtered);
  }

  lemma EntryOriginsKept(cfg: Config, past: History<Event>, e: Event)
    requires Schedule(cfg, Then(past, e)) && SearchesHaveOrigins(cfg, past) && EntriesHaveOrigins(cfg, past)
    ensures EntriesHaveOrigins(cfg, Then(past, e))
  {
    var h := Then(past, e);
    var w, v := Now(cfg, past), Now(cfg, h);
    forall key | key in v.cache
      ensures exists o :: CachedBy(cfg, o, key, v.cache[key], h)
    {
      if Writes(cfg, w, e, key) {
        var o := WrittenEntry(cfg, past, e, key);
      } else {
        CacheStep(cfg, w, e, key);
        var o :| CachedBy(cfg, o, key, w.cache[key], past);
        assert CachedBy(cfg, o, key, v.cache[key], h);
      }
    }
  }

  lemma {:induction false} EverythingHasAnOrigin(cfg: Config, h: History<Event>)
    requires Schedule(cfg, h)
    ensures SearchesHaveOrigins(cfg, h) && EntriesHaveOrigins(cfg, h)
  {
    match h
    case Start =>
    case Then(past, e) =>
      EverythingHasAnOrigin(cfg, past);
      SearchOriginsKept(cfg, past, e);
      EntryOriginsKept(cfg, past, e);
  }

  /** Every answer, in every interleaving, is what the then-active adapter said to that very search,
      filtered by the tombstones of a later moment; it is given by the search itself, or from the cache
      no later than ttl after the search wrote it and with no invalidation of its key since. */
  lemma EveryReplyHasAnOrigin(cfg: Config, h: History<Event>, e: Event) returns (o: Origin)
    requires Schedule(cfg, Then(h, e)) && ReplyTo(cfg, Now(cfg, h), e).Some?
    ensures var (request, result) := ReplyTo(cfg, Now(cfg, h), e).value;
      && FilteredAt(cfg, o, result, o.written)
      && (e.Write? ==> o.written == h && o.sid == e.sid && o.request == request)
      && (e.Lookup? ==>
          && SearchKey(cfg.digest, o.request) == SearchKey(cfg.digest, request)
          && Undisturbed(cfg, Then(o.written, Write(o.sid)), h, SearchKey(cfg.digest, request))
          && Now(cfg, h).clock <= Now(cfg, o.written).clock + cfg.ttl as real)
  {
    EverythingHasAnOrigin(cfg, h);
    var w := Now(cfg, h);
    if e.Write? {
      o := WrittenEntry(cfg, h, e, SearchKey(cfg.digest, w.searches[e.sid].request));
    } else {
      var key := SearchKey(cfg.digest, e.request);
      o :| CachedBy(cfg, o, key, w.cache[key], h);
    }
  }

  // ---------------------------------------------------------------- what the other events do

  /** The flag names the adapter that answers from then on; an unknown name gives empty answers. */
  lemma FlagNamesTheAdapter(cfg: Config, w: World, name: string, r: SearchRequest, t: Triple)
    ensures var v := Apply(cfg, w, SetFlag(name));
      && v == w.(active := name)
      && AnswerOf(ActiveAdapter(v), r) ==
          (if name in w.adapters then AnswerOf(w.adapters[name], r) else Some(SearchResult([], "null")))
      && FetchFrom(ActiveAdapter(v), t) == (if name in w.adapters then FetchFrom(w.adapters[name], t) else Absent)
  {
  }

  predicate StubIsActive(w: World) {
    w.active in w.adapters && w.adapters[w.active].Stub?
  }

  /** With an active stub an upserted memory is there for the next get and search, and a deleted one is
      not; with any other adapter neither event changes anything. */
  lemma StoreSteps(cfg: Config, w: World, m: Memory, d: Triple)
    ensures StubIsActive(w) ==>
      var shelf := w.adapters[w.active].shelf;
      && Apply(cfg, w, Upsert(m)) == w.(adapters := w.adapters[w.active := Stub(UpsertInto(shelf, m))])
      && Apply(cfg, w, Delete(d)) == w.(adapters := w.adapters[w.active := Stub(DeleteFrom(shelf, d))])
    ensures !StubIsActive(w) ==> Apply(cfg, w, Upsert(m)) == w && Apply(cfg, w, Delete(d)) == w
  {
  }

  lemma DeletedIsNotAnswered(cfg: Config, w: World, d: Triple, r: SearchRequest)
    requires StubIsActive(w) && DistinctIds(w.adapters[w.active].shelf)
    ensures var v := Apply(cfg, w, Delete(d));
      && FetchFrom(ActiveAdapter(v), d) == Absent
      && AnswerOf(ActiveAdapter(v), r).Some?
      && forall m :: m in AnswerOf(ActiveAdapter(v), r).value.items ==> IdOf(m) != d
  {
    var shelf := w.adapters[w.active].shelf;
    StoreSteps(cfg, w, Memory("", "", "", "", map[], Active), d);
    DeleteReadsBack(shelf, d, d);
    forall m | m in SearchShelf(DeleteFrom(shelf, d), r).items
      ensures IdOf(m) != d
    {
      DeletedIsNotFound(shelf, d, r, m);
    }
  }

  /** A restart keeps table and adapters, reads the filter back from the table and forgets all else. */
  lemma RestartForgets(cfg: Config, w: World, t: Triple)
    ensures var v := Apply(cfg, w, Restart);
      && (t in v.tombstones <==> exists id :: id in w.durable && w.durable[id] == t)
      && v.cache == map[] && v.gets == map[]
      && (forall sid :: sid in v.searches ==> v.searches[sid] == Finished)
      && (forall rid :: rid in v.routes ==> v.routes[rid] == Closed)
      && v.durable == w.durable && v.adapters == w.adapters && v.active == w.active && v.clock == w.clock
  {
  }
}
