/** How stale an answer can be when each search runs from lookup to cache write without interruption,
    and what a search that is interrupted can do. */
module MemoryStaleness {
  import opened Common
  import opened MemoryModel
  import opened TtlCache
  import opened MemoryProtocol

  /** What an uncached search would answer now; None if the adapter fails. */
  function Fresh(w: World, r: SearchRequest): Option<SearchResult> {
    var answer := AnswerOf(ActiveAdapter(w), r);
    if answer.Some? then Some(Purified(answer.value, w.tombstones)) else None
  }

  predicate InFlight(s: Search) { !s.Finished? }

  predicate StepOf(sid: nat, e: Event) {
    (e.Query? || e.ShadowRead? || e.Filter? || e.Write?) && e.sid == sid
  }

  ghost predicate AtomicStep(w: World, e: Event) {
    forall sid :: sid in w.searches && InFlight(w.searches[sid]) ==> StepOf(sid, e)
  }

  /** While a search is in flight only that search moves; everything else happens between searches. */
  ghost predicate Atomic(cfg: Config, h: History<Event>) {
    match h
    case Start => true
    case Then(past, e) => Atomic(cfg, past) && AtomicStep(Now(cfg, past), e)
  }

  /** The requests searched for in a run. */
  function Requests(h: History<Event>): set<SearchRequest> {
    match h
    case Start => {}
    case Then(past, e) => Requests(past) + (if e.Lookup? then {e.request} else {})
  }

  /** No two of these requests share a cache key. */
  ghost predicate ToldApart(digest: Digest, rs: set<SearchRequest>) {
    forall r, s :: r in rs && s in rs && SearchKey(digest, r) == SearchKey(digest, s) ==> r == s
  }

  /** The digest tells the payloads of these requests apart. */
  ghost predicate DigestTellsApart(digest: Digest, rs: set<SearchRequest>) {
    forall r, s :: r in rs && s in rs && digest(PayloadOf(r)) == digest(PayloadOf(s)) ==> PayloadOf(r) == PayloadOf(s)
  }

  ghost predicate DigestsHaveOneLength(digest: Digest, rs: set<SearchRequest>) {
    forall r, s :: r in rs && s in rs ==> |digest(PayloadOf(r))| == |digest(PayloadOf(s))|
  }

  /** With digests of one length that do not collide, requests are told apart if and only if no two of
      them with the same payload have tenants and applications that join to the same text. */
  lemma ToldApartIff(digest: Digest, rs: set<SearchRequest>)
    requires DigestTellsApart(digest, rs) && DigestsHaveOneLength(digest, rs)
    ensures ToldApart(digest, rs) <==>
      forall r, s :: r in rs && s in rs && PayloadOf(r) == PayloadOf(s) && Joined(r) == Joined(s) ==> r == s
  {
    forall r, s | r in rs && s in rs
      ensures SearchKey(digest, r) == SearchKey(digest, s) <==> PayloadOf(r) == PayloadOf(s) && Joined(r) == Joined(s)
    {
      KeysCollideIff(digest, r, s);
    }
  }

  /** Ids without ':' are enough, whatever the digests' lengths. */
  lemma PlainIdsAreToldApart(digest: Digest, rs: set<SearchRequest>)
    requires DigestTellsApart(digest, rs)
    requires forall r :: r in rs ==> ColonFree(r.tenantId) && ColonFree(r.applicationId)
    ensures ToldApart(digest, rs)
  {
    forall r, s | r in rs && s in rs && SearchKey(digest, r) == SearchKey(digest, s)
      ensures r == s
    {
      KeysTellRequestsApart(digest, r, s);
    }
  }

  /** A search in flight has read what is still there to be read. */
  ghost predicate Current(w: World, rs: set<SearchRequest>) {
    forall sid :: sid in w.searches && InFlight(w.searches[sid]) ==>
      var s := w.searches[sid];
      && s.request in rs
      && (s.Queried? ==> AnswerOf(ActiveAdapter(w), s.request) == Some(s.result))
      && (s.Filtered? ==> Fresh(w, s.request) == Some(s.result))
  }

  /** The entry under a key holds what a search of that key would have answered at some past moment. */
  ghost predicate CachedFrom(cfg: Config, at: History<Event>, r: SearchRequest, key: string,
    entry: Entry<SearchResult>, h: History<Event>)
  {
    && Within(at, h) && r in Requests(h) && key == SearchKey(cfg.digest, r)
    && Fresh(Now(cfg, at), r) == Some(entry.value)
    && entry.expiresAt == Now(cfg, at).clock + cfg.ttl as real
  }

  ghost predicate CacheIsPast(cfg: Config, h: History<Event>) {
    forall key :: key in Now(cfg, h).cache ==>
      exists at, r :: CachedFrom(cfg, at, r, key, Now(cfg, h).cache[key], h)
  }

  lemma StepKeepsCurrent(cfg: Config, w: World, e: Event, rs: set<SearchRequest>)
    requires Enabled(cfg, w, e) && AtomicStep(w, e) && Current(w, rs)
    ensures Current(Apply(cfg, w, e), rs + if e.Lookup? then {e.request} else {})
  {
  }

  lemma WriteCachesFresh(cfg: Config, past: History<Event>, e: Event, key: string)
    requires Schedule(cfg, Then(past, e)) && Current(Now(cfg, past), Requests(past))
    requires Writes(cfg, Now(cfg, past), e, key)
    ensures var s, h := Now(cfg, past).searches[e.sid], Then(past, e);
      key in Now(cfg, h).cache && CachedFrom(cfg, past, s.request, key, Now(cfg, h).cache[key], h)
  {
    var w, h := Now(cfg, past), Then(past, e);
    var s := w.searches[e.sid];
    assert InFlight(s);
    assert s.request in Requests(past) && Fresh(w, s.request) == Some(s.result);
    assert Requests(h) == Requests(past) + {};
    assert Within(past, past);
    assert Now(cfg, h).cache == Put(w.cache, key, s.result, w.clock, cfg.ttl);
  }

  lemma {:induction false} AtomicRunsCachePastAnswers(cfg: Config, h: History<Event>)
    requires Schedule(cfg, h) && Atomic(cfg, h)
    ensures Current(Now(cfg, h), Requests(h)) && CacheIsPast(cfg, h)
  {
    match h
    case Start =>
    case Then(past, e) =>
      AtomicRunsCachePastAnswers(cfg, past);
      var w, v := Now(cfg, past), Now(cfg, h);
      StepKeepsCurrent(cfg, w, e, Requests(past));
      forall key | key in v.cache
        ensures exists at, r :: CachedFrom(cfg, at, r, key, v.cache[key], h)
      {
        if Writes(cfg, w, e, key) {
          WriteCachesFresh(cfg, past, e, key);
        } else {
          CacheStep(cfg, w, e, key);
          var at, r :| CachedFrom(cfg, at, r, key, w.cache[key], past);
          assert r in Requests(h);
          assert CachedFrom(cfg, at, r, key, v.cache[key], h);
        }
      }
  }

  lemma StepAdvancesClock(cfg: Config, w: World, e: Event)
    requires Enabled(cfg, w, e)
    ensures w.clock <= Apply(cfg, w, e).clock
  {
  }

  lemma {:induction false} ClockNeverGoesBack(cfg: Config, a: History<Event>, h: History<Event>)
    requires Schedule(cfg, h) && Within(a, h)
    ensures Now(cfg, a).clock <= Now(cfg, h).clock
  {
    if a == h {
    } else {
      ClockNeverGoesBack(cfg, a, h.past);
      StepAdvancesClock(cfg, Now(cfg, h.past), h.last);
    }
  }

  /** Bounded staleness: every answer is what an uncached search for the same request would have answered
      at some moment at most ttl ago, whatever upserts, deletes, flag changes, remote changes, tombstones,
      restarts and shadow reads happened in between. */
  lemma AtomicSearchesAreBoundedlyStale(cfg: Config, h: History<Event>, e: Event) returns (at: History<Event>)
    requires Schedule(cfg, Then(h, e)) && Atomic(cfg, Then(h, e)) && ToldApart(cfg.digest, Requests(Then(h, e)))
    requires ReplyTo(cfg, Now(cfg, h), e).Some?
    ensures Within(at, h)
    ensures Now(cfg, at).clock <= Now(cfg, h).clock <= Now(cfg, at).clock + cfg.ttl as real
    ensures var (request, result) := ReplyTo(cfg, Now(cfg, h), e).value;
      Fresh(Now(cfg, at), request) == Some(result)
  {
    AtomicRunsCachePastAnswers(cfg, h);
    var w := Now(cfg, h);
    at := h;
    if e.Lookup? {
      var key, r := SearchKey(cfg.digest, e.request), e.request;
      at, r :| CachedFrom(cfg, at, r, key, w.cache[key], h);
      ClockNeverGoesBack(cfg, at, h);
    }
  }

  // ---------------------------------------------------------------- deletes can be outlived

  const SAMPLE := Memory("m1", "t", "a", "text", map[], Active)

  const SAMPLE_REQUEST := SearchRequest("t", "a", "", map[], 10)

  function SampleConfig(ttl: nat, digest: Digest): Config {
    Config(ttl, digest, map["stub" := Stub([SAMPLE])], "stub")
  }

  /** A search that has filtered and not yet written. */
  const UNWRITTEN: History<Event> := Then(Then(Then(Start, Lookup(0, SAMPLE_REQUEST)), Query(0)), Filter(0))

  lemma OnlyEntryIsFound(m: Memory, r: SearchRequest)
    requires Matches(m, r) && r.limit >= 1
    ensures SearchShelf([m], r) == Purified(SearchShelf([m], r), {}) == SearchResult([m], "stub")
  {
    assert [m][..0] == [];
    assert Matching([m], r) == Matching([], r) + [m];
    assert FilterEntries([m], {}) == FilterEntries([], {}) + [m];
  }

  lemma OneMore(cfg: Config, past: History<Event>, e: Event, next: World)
    requires Schedule(cfg, past) && Enabled(cfg, Now(cfg, past), e) && Apply(cfg, Now(cfg, past), e) == next
    ensures Schedule(cfg, Then(past, e)) && Now(cfg, Then(past, e)) == next
  {
  }

  lemma UnwrittenHoldsTheSample(cfg: Config)
    requires cfg == SampleConfig(cfg.ttl, cfg.digest)
    ensures Schedule(cfg, UNWRITTEN)
    ensures Now(cfg, UNWRITTEN) == FirstWorld(cfg).(
      searches := map[0 := Filtered(SAMPLE_REQUEST, SearchResult([SAMPLE], "stub"))])
  {
    var h1 := Then(Start, Lookup(0, SAMPLE_REQUEST));
    var w1, w2, w3 := SampleSearchRuns(cfg);
    OneMore(cfg, Start, Lookup(0, SAMPLE_REQUEST), w1);
    OneMore(cfg, h1, Query(0), w2);
    OneMore(cfg, Then(h1, Query(0)), Filter(0), w3);
  }

  lemma SampleSearchRuns(cfg: Config) returns (w1: World, w2: World, w3: World)
    requires cfg == SampleConfig(cfg.ttl, cfg.digest)
    ensures w1 == Apply(cfg, FirstWorld(cfg), Lookup(0, SAMPLE_REQUEST))
    ensures Enabled(cfg, w1, Query(0)) && w2 == Apply(cfg, w1, Query(0))
    ensures Enabled(cfg, w2, Filter(0)) && w3 == Apply(cfg, w2, Filter(0))
    ensures w3 == FirstWorld(cfg).(searches := map[0 := Filtered(SAMPLE_REQUEST, SearchResult([SAMPLE], "stub"))])
  {
    OnlyEntryIsFound(SAMPLE, SAMPLE_REQUEST);
    var w := FirstWorld(cfg);
    w1 := w.(searches := map[0 := Missed(SAMPLE_REQUEST)]);
    w2 := w.(searches := map[0 := Queried(SAMPLE_REQUEST, SearchResult([SAMPLE], "stub"))]);
    w3 := w.(searches := map[0 := Filtered(SAMPLE_REQUEST, SearchResult([SAMPLE], "stub"))]);
  }

  /** The whole delete route of the sample, after some history. */
  function Deleting(past: History<Event>): History<Event> {
    Then(Then(Then(Then(past, Record(0, IdOf(SAMPLE))), AddToFilter(0)), Audit(0, true)), InvalidateCache(0))
  }

  lemma DeletingCompletes(cfg: Config, past: History<Event>)
    requires Schedule(cfg, past)
    requires Now(cfg, past).cache == map[] && Now(cfg, past).routes == map[] && Now(cfg, past).durable == map[]
    ensures Schedule(cfg, Deleting(past))
    ensures Now(cfg, Deleting(past)) == Now(cfg, past).(
      durable := map["m1" := IdOf(SAMPLE)], tombstones := Now(cfg, past).tombstones + {IdOf(SAMPLE)},
      routes := map[0 := Closed])
  {
    var t, w := IdOf(SAMPLE), Now(cfg, past);
    var h1 := Then(past, Record(0, t));
    var w1, w2 := RouteAdds(cfg, w, t);
    OneMore(cfg, past, Record(0, t), w1);
    OneMore(cfg, h1, AddToFilter(0), w2);
    var w3, w4 := RouteEnds(cfg, w2, t);
    OneMore(cfg, Then(h1, AddToFilter(0)), Audit(0, true), w3);
    OneMore(cfg, Then(Then(h1, AddToFilter(0)), Audit(0, true)), InvalidateCache(0), w4);
  }

  lemma RouteAdds(cfg: Config, w: World, t: Triple) returns (w1: World, w2: World)
    requires w.routes == map[] && w.durable == map[]
    ensures w1 == Apply(cfg, w, Record(0, t))
    ensures Enabled(cfg, w1, AddToFilter(0)) && w2 == Apply(cfg, w1, AddToFilter(0))
    ensures w2 == w.(
      durable := map[t.entityId := t], tombstones := w.tombstones + {t}, routes := map[0 := Added(t)])
  {
    w1 := w.(durable := map[t.entityId := t], routes := map[0 := Recorded(t)]);
    w2 := w1.(tombstones := w.tombstones + {t}, routes := map[0 := Added(t)]);
  }

  lemma RouteEnds(cfg: Config, w: World, t: Triple) returns (w1: World, w2: World)
    requires w.cache == map[] && w.routes == map[0 := Added(t)]
    ensures Enabled(cfg, w, Audit(0, true)) && w1 == Apply(cfg, w, Audit(0, true))
    ensures Enabled(cfg, w1, InvalidateCache(0)) && w2 == Apply(cfg, w1, InvalidateCache(0))
    ensures w2 == w.(routes := map[0 := Closed])
  {
    w1 := w.(routes := map[0 := Audited(t)]);
    w2 := w1.(routes := map[0 := Closed]);
  }

  /** A search that has found the sample and filtered writes it to the cache, where the next one meets it. */
  lemma WriteIsServed(cfg: Config, past: History<Event>)
    requires Schedule(cfg, past)
    requires Now(cfg, past).searches == map[0 := Filtered(SAMPLE_REQUEST, SearchResult([SAMPLE], "stub"))]
    ensures var h := Then(past, Write(0));
      && Schedule(cfg, h)
      && Now(cfg, h) == Now(cfg, past).(searches := map[0 := Finished], cache := Now(cfg, h).cache)
      && ServesTheSample(cfg, Now(cfg, h))
  {
    var w, key := Now(cfg, past), SearchKey(cfg.digest, SAMPLE_REQUEST);
    var found := SearchResult([SAMPLE], "stub");
    var written := Put(w.cache, key, found, w.clock, cfg.ttl);
    OneMore(cfg, past, Write(0), w.(searches := map[0 := Finished], cache := written));
    assert written[key] == Entry(found, w.clock + cfg.ttl as real);
  }

  /** A lookup for the sample would be a hit. */
  predicate ServesTheSample(cfg: Config, w: World) {
    Cached(w.cache, SearchKey(cfg.digest, SAMPLE_REQUEST), w.clock) == Some(SearchResult([SAMPLE], "stub"))
  }

  lemma NextLookupHits(cfg: Config, h: History<Event>)
    requires Schedule(cfg, h) && 1 !in Now(cfg, h).searches && ServesTheSample(cfg, Now(cfg, h))
    ensures Schedule(cfg, Then(h, Lookup(1, SAMPLE_REQUEST)))
    ensures ReplyTo(cfg, Now(cfg, h), Lookup(1, SAMPLE_REQUEST)) ==
      Some((SAMPLE_REQUEST, SearchResult([SAMPLE], "stub")))
  {
  }

  /** A search interrupted between its filter pass and its cache write brings a memory back into the
      cache after its delete route has completed, for any ttl and digest. */
  lemma InterruptedSearchOutlivesDelete(ttl: nat, digest: Digest) returns (h: History<Event>)
    ensures var cfg := SampleConfig(ttl, digest);
      var e := Lookup(1, SAMPLE_REQUEST);
      && Schedule(cfg, Then(h, e)) && Within(Deleting(UNWRITTEN), h)
      && ReplyTo(cfg, Now(cfg, h), e) == Some((SAMPLE_REQUEST, SearchResult([SAMPLE], "stub")))
      && IdOf(SAMPLE) in Now(cfg, h).tombstones
  {
    var cfg := SampleConfig(ttl, digest);
    UnwrittenHoldsTheSample(cfg);
    DeletingCompletes(cfg, UNWRITTEN);
    WriteIsServed(cfg, Deleting(UNWRITTEN));
    h := Then(Deleting(UNWRITTEN), Write(0));
    NextLookupHits(cfg, h);
    assert Within(Deleting(UNWRITTEN), Deleting(UNWRITTEN));
  }

  /** The delete route of the sample when its audit write raises. */
  function FailingToDelete(past: History<Event>): History<Event> {
    Then(Then(Then(past, Record(0, IdOf(SAMPLE))), AddToFilter(0)), Audit(0, false))
  }

  lemma FailingRouteCloses(cfg: Config, past: History<Event>)
    requires Schedule(cfg, past) && Now(cfg, past).routes == map[] && Now(cfg, past).durable == map[]
    ensures Schedule(cfg, FailingToDelete(past))
    ensures Now(cfg, FailingToDelete(past)) == Now(cfg, past).(
      durable := map["m1" := IdOf(SAMPLE)], tombstones := Now(cfg, past).tombstones + {IdOf(SAMPLE)},
      routes := map[0 := Closed])
  {
    var t, w := IdOf(SAMPLE), Now(cfg, past);
    var h1 := Then(past, Record(0, t));
    var w1, w2 := RouteAdds(cfg, w, t);
    OneMore(cfg, past, Record(0, t), w1);
    OneMore(cfg, h1, AddToFilter(0), w2);
    OneMore(cfg, Then(h1, AddToFilter(0)), Audit(0, false), w2.(routes := map[0 := Closed]));
  }

  /** Without any overlap: a result cached before the route is served after it when the audit write
      raised, because the route then ends before it invalidates. */
  lemma FailedAuditLeavesTheCache(ttl: nat, digest: Digest)
    ensures var cfg := SampleConfig(ttl, digest);
      var h, e := FailingToDelete(Then(UNWRITTEN, Write(0))), Lookup(1, SAMPLE_REQUEST);
      && Schedule(cfg, Then(h, e)) && Now(cfg, h).routes == map[0 := Closed]
      && ReplyTo(cfg, Now(cfg, h), e) == Some((SAMPLE_REQUEST, SearchResult([SAMPLE], "stub")))
      && IdOf(SAMPLE) in Now(cfg, h).tombstones
  {
    var cfg := SampleConfig(ttl, digest);
    UnwrittenHoldsTheSample(cfg);
    WriteIsServed(cfg, UNWRITTEN);
    FailingRouteCloses(cfg, Then(UNWRITTEN, Write(0)));
    NextLookupHits(cfg, FailingToDelete(Then(UNWRITTEN, Write(0))));
  }
}
