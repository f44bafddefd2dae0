/** What searches, deletes and restarts guarantee over every interleaving. */
module MemoryGuarantees {
  import opened Common
  import opened MemoryModel
  import opened TtlCache
  import opened MemoryProtocol

  // ---------------------------------------------------------------- tombstoned answers

  /** A tombstone absent then and present now came in at some step in between: a delete route added it,
      or a restart reloaded it. */
  lemma {:induction false} TombstoneCameIn(cfg: Config, before: History<Event>, h: History<Event>, t: Triple)
    returns (at: History<Event>, e: Event)
    requires Schedule(cfg, h) && Within(before, h)
    requires t !in Now(cfg, before).tombstones && t in Now(cfg, h).tombstones
    ensures Within(before, at) && Within(Then(at, e), h)
    ensures t !in Now(cfg, at).tombstones
    ensures e.Restart? || (e.AddToFilter? && e.rid in Now(cfg, at).routes && Now(cfg, at).routes[e.rid] == Recorded(t))
  {
    match h
    case Then(past, last) =>
      if t in Now(cfg, past).tombstones {
        at, e := TombstoneCameIn(cfg, before, past, t);
      } else {
        TombstoneStep(cfg, Now(cfg, past), last, t);
        at, e := past, last;
      }
  }

  lemma TombstoneStep(cfg: Config, w: World, e: Event, t: Triple)
    requires Enabled(cfg, w, e) && t !in w.tombstones && t in Apply(cfg, w, e).tombstones
    ensures e.Restart? || (e.AddToFilter? && e.rid in w.routes && w.routes[e.rid] == Recorded(t))
  {
  }

  /** A tombstoned memory in any answer traces to a search that filtered before its tombstone came in;
      from the cache it is served no later than ttl after that search wrote. */
  lemma TombstonedAnswerPredatesTombstone(cfg: Config, h: History<Event>, e: Event, m: Memory)
    returns (o: Origin, at: History<Event>, added: Event)
    requires Schedule(cfg, Then(h, e)) && ReplyTo(cfg, Now(cfg, h), e).Some?
    requires m in ReplyTo(cfg, Now(cfg, h), e).value.1.items && IdOf(m) in Now(cfg, h).tombstones
    ensures FilteredAt(cfg, o, ReplyTo(cfg, Now(cfg, h), e).value.1, o.written)
    ensures IdOf(m) !in Now(cfg, o.filtered).tombstones
    ensures Within(o.filtered, at) && Within(Then(at, added), h)
    ensures added.Restart?
      || (added.AddToFilter? && added.rid in Now(cfg, at).routes && Now(cfg, at).routes[added.rid] == Recorded(IdOf(m)))
    ensures e.Write? ==> o.written == h && o.sid == e.sid
    ensures e.Lookup? ==> Within(Then(o.written, Write(o.sid)), h)
    ensures e.Lookup? ==> Now(cfg, h).clock <= Now(cfg, o.written).clock + cfg.ttl as real
  {
    o := EveryReplyHasAnOrigin(cfg, h, e);
    var result := ReplyTo(cfg, Now(cfg, h), e).value.1;
    var answer :| QueriedAt(cfg, o, answer, o.filtered)
      && result == Purified(answer, Now(cfg, o.filtered).tombstones);
    FilterKeepsTheOthers(answer.items, Now(cfg, o.filtered).tombstones, m);
    if e.Lookup? {
      UndisturbedIsWithin(cfg, Then(o.written, Write(o.sid)), h, SearchKey(cfg.digest, e.request));
    }
    assert Within(Then(o.filtered, Filter(o.sid)), o.written);
    assert Within(o.filtered, Then(o.filtered, Filter(o.sid)));
    WithinTrans(o.filtered, Then(o.filtered, Filter(o.sid)), o.written);
    if e.Lookup? {
      assert Within(o.written, Then(o.written, Write(o.sid)));
      WithinTrans(o.written, Then(o.written, Write(o.sid)), h);
      WithinTrans(o.filtered, o.written, h);
    }
    at, added := TombstoneCameIn(cfg, o.filtered, h, IdOf(m));
  }

  lemma {:induction false} UndisturbedIsWithin(cfg: Config, since: History<Event>, h: History<Event>, key: string)
    requires Undisturbed(cfg, since, h, key)
    ensures Within(since, h)
  {
    if h == since {
    } else {
      UndisturbedIsWithin(cfg, since, h.past, key);
    }
  }

  // ---------------------------------------------------------------- completed deletes

  ghost predicate Stamped(r: SearchRequest, s: SearchResult) {
    forall m :: m in s.items ==> m.tenantId == r.tenantId && m.applicationId == r.applicationId
  }

  /** A remote service only answers with memories of the tenant and application asked about. */
  ghost predicate Honest(answer: SearchRequest -> Option<SearchResult>) {
    forall r :: answer(r).Some? ==> Stamped(r, answer(r).value)
  }

  ghost predicate HonestAdapters(adapters: map<string, Adapter>) {
    forall name :: name in adapters && adapters[name].Remote? ==> Honest(adapters[name].answer)
  }

  ghost predicate HonestRun(cfg: Config, h: History<Event>) {
    match h
    case Start => HonestAdapters(cfg.adapters)
    case Then(past, e) => HonestRun(cfg, past) && (e.RemoteChange? ==> Honest(e.answer))
  }

  lemma StepKeepsAdaptersHonest(cfg: Config, w: World, e: Event)
    requires Enabled(cfg, w, e) && HonestAdapters(w.adapters) && (e.RemoteChange? ==> Honest(e.answer))
    ensures HonestAdapters(Apply(cfg, w, e).adapters)
  {
  }

  lemma {:induction false} RunKeepsAdaptersHonest(cfg: Config, h: History<Event>)
    requires HonestRun(cfg, h)
    ensures HonestAdapters(Now(cfg, h).adapters)
  {
    match h
    case Start =>
    case Then(past, e) =>
      RunKeepsAdaptersHonest(cfg, past);
      if Enabled(cfg, Now(cfg, past), e) {
        StepKeepsAdaptersHonest(cfg, Now(cfg, past), e);
      }
  }

  lemma AnswersAreStamped(w: World, r: SearchRequest)
    requires HonestAdapters(w.adapters) && AnswerOf(ActiveAdapter(w), r).Some?
    ensures Stamped(r, AnswerOf(ActiveAdapter(w), r).value)
  {
    var a := ActiveAdapter(w);
    if a.Stub? {
      MatchingAreMatches(a.shelf, r);
      assert forall m :: m in Take(Matching(a.shelf, r), r.limit) ==> m in Matching(a.shelf, r);
    } else if a.Remote? {
      assert Honest(a.answer);
    }
  }

  lemma {:induction false} HonestWithin(cfg: Config, a: History<Event>, h: History<Event>)
    requires HonestRun(cfg, h) && Within(a, h)
    ensures HonestRun(cfg, a)
  {
    if a == h {
    } else {
      HonestWithin(cfg, a, h.past);
    }
  }

  /** An event that removes a key is not among those since which the key is undisturbed. */
  lemma {:induction false} RemovalComesFirst(cfg: Config, since: History<Event>, h: History<Event>, key: string,
    at: History<Event>, e: Event)
    requires Undisturbed(cfg, since, h, key) && Within(Then(at, e), h) && Removes(cfg, Now(cfg, at), e, key)
    ensures Within(Then(at, e), since)
  {
    if h == since {
    } else {
      RemovalComesFirst(cfg, since, h.past, key, at, e);
    }
  }

  /** Once the delete route of a memory has run to its end, a cache hit can still return the memory only
      if the search behind it filtered before the tombstone came in and wrote after the invalidation. */
  lemma CompletedDeleteIsOutlivedOnlyByARace(cfg: Config, h: History<Event>, e: Event, m: Memory,
    end: History<Event>, rid: nat) returns (o: Origin)
    requires Schedule(cfg, Then(h, e)) && HonestRun(cfg, h) && e.Lookup?
    requires ReplyTo(cfg, Now(cfg, h), e).Some? && m in ReplyTo(cfg, Now(cfg, h), e).value.1.items
    requires IdOf(m) in Now(cfg, h).tombstones
    requires Within(Then(end, InvalidateCache(rid)), h)
    requires rid in Now(cfg, end).routes && Now(cfg, end).routes[rid] == Audited(IdOf(m))
    ensures FilteredAt(cfg, o, ReplyTo(cfg, Now(cfg, h), e).value.1, o.written)
    ensures IdOf(m) !in Now(cfg, o.filtered).tombstones
    ensures Within(Then(end, InvalidateCache(rid)), o.written)
    ensures Now(cfg, h).clock <= Now(cfg, o.written).clock + cfg.ttl as real
  {
    o := EveryReplyHasAnOrigin(cfg, h, e);
    var key := SearchKey(cfg.digest, e.request);
    var result := ReplyTo(cfg, Now(cfg, h), e).value.1;
    var answer :| QueriedAt(cfg, o, answer, o.filtered)
      && result == Purified(answer, Now(cfg, o.filtered).tombstones);
    FilterKeepsTheOthers(answer.items, Now(cfg, o.filtered).tombstones, m);
    OriginIsWithin(cfg, o, answer, h, key);
    HonestWithin(cfg, o.queried, h);
    RunKeepsAdaptersHonest(cfg, o.queried);
    AnswersAreStamped(Now(cfg, o.queried), o.request);
    assert InvalidationPrefix(m.tenantId, m.applicationId) <= SearchKey(cfg.digest, o.request) == key;
    RemovalComesFirst(cfg, Then(o.written, Write(o.sid)), h, key, end, InvalidateCache(rid));
  }

  lemma OriginIsWithin(cfg: Config, o: Origin, answer: SearchResult, h: History<Event>, key: string)
    requires QueriedAt(cfg, o, answer, o.filtered) && Within(Then(o.filtered, Filter(o.sid)), o.written)
    requires Undisturbed(cfg, Then(o.written, Write(o.sid)), h, key)
    ensures Within(o.queried, h) && Within(o.filtered, h) && Within(o.written, h)
  {
    UndisturbedIsWithin(cfg, Then(o.written, Write(o.sid)), h, key);
    assert Within(o.written, Then(o.written, Write(o.sid)));
    WithinTrans(o.written, Then(o.written, Write(o.sid)), h);
    assert Within(o.filtered, Then(o.filtered, Filter(o.sid)));
    WithinTrans(o.filtered, Then(o.filtered, Filter(o.sid)), o.written);
    WithinTrans(o.filtered, o.written, h);
    assert Within(o.queried, Then(o.queried, Query(o.sid)));
    WithinTrans(o.queried, Then(o.queried, Query(o.sid)), o.filtered);
    WithinTrans(o.queried, o.filtered, h);
  }

  // ---------------------------------------------------------------- gets

  /** A get in flight passed the filter check at some step, when the memory was not tombstoned. */
  ghost predicate CheckedAt(cfg: Config, at: History<Event>, gid: nat, t: Triple, h: History<Event>) {
    Within(Then(at, GetCheck(gid, t)), h) && t !in Now(cfg, at).tombstones
  }

  lemma GetStep(cfg: Config, w: World, e: Event, gid: nat)
    requires Enabled(cfg, w, e) && gid in Apply(cfg, w, e).gets
    ensures var t := Apply(cfg, w, e).gets[gid];
      if gid in w.gets then w.gets[gid] == t else e == GetCheck(gid, t) && t !in w.tombstones
  {
  }

  lemma {:induction false} GetsWereChecked(cfg: Config, h: History<Event>, gid: nat) returns (at: History<Event>)
    requires Schedule(cfg, h) && gid in Now(cfg, h).gets
    ensures CheckedAt(cfg, at, gid, Now(cfg, h).gets[gid], h)
  {
    match h
    case Then(past, e) =>
      GetStep(cfg, Now(cfg, past), e, gid);
      if gid in Now(cfg, past).gets {
        at := GetsWereChecked(cfg, past, gid);
      } else {
        at := past;
      }
  }

  /** A get hands out a tombstoned memory only if its tombstone came in between the get's filter check and
      its read, whatever the adapter; and what the stub hands out is the active memory asked for. */
  lemma TombstonedGetPredatesTombstone(cfg: Config, h: History<Event>, gid: nat)
    returns (checked: History<Event>, at: History<Event>, added: Event)
    requires Schedule(cfg, Then(h, GetFetch(gid)))
    requires FetchFrom(ActiveAdapter(Now(cfg, h)), Now(cfg, h).gets[gid]).Present?
    ensures ActiveAdapter(Now(cfg, h)).Stub? ==>
      var m := FetchFrom(ActiveAdapter(Now(cfg, h)), Now(cfg, h).gets[gid]).m;
      IdOf(m) == Now(cfg, h).gets[gid] && m.status == Active
    ensures CheckedAt(cfg, checked, gid, Now(cfg, h).gets[gid], h)
    ensures Now(cfg, h).gets[gid] in Now(cfg, h).tombstones ==>
      Within(checked, at) && Within(Then(at, added), h) && Now(cfg, h).gets[gid] !in Now(cfg, at).tombstones
      && (added.Restart? || added.AddToFilter?)
  {
    checked := GetsWereChecked(cfg, h, gid);
    at, added := h, Restart;
    if Now(cfg, h).gets[gid] in Now(cfg, h).tombstones {
      assert Within(checked, Then(checked, GetCheck(gid, Now(cfg, h).gets[gid])));
      WithinTrans(checked, Then(checked, GetCheck(gid, Now(cfg, h).gets[gid])), h);
      at, added := TombstoneCameIn(cfg, checked, h, Now(cfg, h).gets[gid]);
    }
  }

  // ---------------------------------------------------------------- orderly deletes

  predicate InMidDelete(r: Route) { r.Added? || r.Audited? }

  /** No search is between its filter pass and its cache write when a tombstone is added, and from then
      to the invalidation only that route moves and its audit succeeds. */
  ghost predicate OrderlyStep(w: World, e: Event) {
    && (e.AddToFilter? ==> forall sid :: sid in w.searches ==> !w.searches[sid].Filtered?)
    && (forall rid :: rid in w.routes && InMidDelete(w.routes[rid]) ==>
        e == Audit(rid, true) || e == InvalidateCache(rid))
  }

  ghost predicate Orderly(cfg: Config, h: History<Event>) {
    match h
    case Start => true
    case Then(past, e) => Orderly(cfg, past) && OrderlyStep(Now(cfg, past), e)
  }

  /** The item's key starts with its own prefix, and the item is not tombstoned, except while the route
      that tombstoned it is on its way to the invalidation. */
  ghost predicate CleanItem(w: World, key: string, m: Memory) {
    && InvalidationPrefix(m.tenantId, m.applicationId) <= key
    && (IdOf(m) in w.tombstones ==>
        exists rid :: rid in w.routes && InMidDelete(w.routes[rid])
          && w.routes[rid].t.tenantId == m.tenantId && w.routes[rid].t.applicationId == m.applicationId)
  }

  ghost predicate CleanCache(w: World) {
    forall key, m :: key in w.cache && m in w.cache[key].value.items ==> CleanItem(w, key, m)
  }

  ghost predicate CleanSearches(w: World) {
    forall sid :: sid in w.searches ==>
      var s := w.searches[sid];
      && (s.Queried? || s.Filtered? ==> Stamped(s.request, s.result))
      && (s.Filtered? ==> forall m :: m in s.result.items ==> IdOf(m) !in w.tombstones)
  }

  lemma SearchesStayClean(cfg: Config, w: World, e: Event)
    requires Enabled(cfg, w, e) && OrderlyStep(w, e) && HonestAdapters(w.adapters) && CleanSearches(w)
    ensures CleanSearches(Apply(cfg, w, e))
  {
    var v := Apply(cfg, w, e);
    forall sid | sid in v.searches
      ensures var s := v.searches[sid];
        && (s.Queried? || s.Filtered? ==> Stamped(s.request, s.result))
        && (s.Filtered? ==> forall m :: m in s.result.items ==> IdOf(m) !in v.tombstones)
    {
      if e == Query(sid) {
        if AnswerOf(ActiveAdapter(w), w.searches[sid].request).Some? {
          AnswersAreStamped(w, w.searches[sid].request);
        }
      } else if e == Filter(sid) {
        forall m | m in v.searches[sid].result.items
          ensures m in w.searches[sid].result.items && IdOf(m) !in v.tombstones
        {
          FilterKeepsTheOthers(w.searches[sid].result.items, w.tombstones, m);
        }
      } else {
        SearchStep(cfg, w, e, sid);
      }
    }
  }

  lemma CacheStaysClean(cfg: Config, w: World, e: Event)
    requires Enabled(cfg, w, e) && OrderlyStep(w, e) && CleanSearches(w) && CleanCache(w)
    ensures CleanCache(Apply(cfg, w, e))
  {
    var v := Apply(cfg, w, e);
    forall key, m | key in v.cache && m in v.cache[key].value.items
      ensures CleanItem(v, key, m)
    {
      if Writes(cfg, w, e, key) {
        assert m in w.searches[e.sid].result.items;
      } else {
        CacheStep(cfg, w, e, key);
        assert CleanItem(w, key, m);
        ItemStaysClean(cfg, w, e, key, m);
      }
    }
  }

  lemma ItemStaysClean(cfg: Config, w: World, e: Event, key: string, m: Memory)
    requires Enabled(cfg, w, e) && OrderlyStep(w, e) && CleanItem(w, key, m) && !Removes(cfg, w, e, key)
    ensures CleanItem(Apply(cfg, w, e), key, m)
  {
    var v := Apply(cfg, w, e);
    if IdOf(m) in w.tombstones && IdOf(m) in v.tombstones {
      var rid :| rid in w.routes && InMidDelete(w.routes[rid])
          && w.routes[rid].t.tenantId == m.tenantId && w.routes[rid].t.applicationId == m.applicationId;
      assert e == Audit(rid, true);
      assert v.routes[rid] == Audited(w.routes[rid].t);
    } else if IdOf(m) in v.tombstones {
      assert e.AddToFilter? && v.routes[e.rid] == Added(IdOf(m));
    }
  }

  lemma {:induction false} OrderlyRunsStayClean(cfg: Config, h: History<Event>)
    requires Schedule(cfg, h) && HonestRun(cfg, h) && Orderly(cfg, h)
    ensures CleanSearches(Now(cfg, h)) && CleanCache(Now(cfg, h))
  {
    match h
    case Start =>
    case Then(past, e) =>
      OrderlyRunsStayClean(cfg, past);
      RunKeepsAdaptersHonest(cfg, past);
      SearchesStayClean(cfg, Now(cfg, past), e);
      CacheStaysClean(cfg, Now(cfg, past), e);
  }

  /** With orderly deletes no answer ever holds a tombstoned memory. */
  lemma OrderlyRunsNeverServeTombstoned(cfg: Config, h: History<Event>, e: Event, m: Memory)
    requires Schedule(cfg, Then(h, e)) && HonestRun(cfg, h) && Orderly(cfg, Then(h, e))
    requires ReplyTo(cfg, Now(cfg, h), e).Some? && m in ReplyTo(cfg, Now(cfg, h), e).value.1.items
    ensures IdOf(m) !in Now(cfg, h).tombstones
  {
    OrderlyRunsStayClean(cfg, h);
    if e.Lookup? {
      assert CleanItem(Now(cfg, h), SearchKey(cfg.digest, e.request), m);
    }
  }

  // ---------------------------------------------------------------- restarts

  /** The row the table holds for an id: whichever delete recorded the id first. */
  function FirstRecorded(h: History<Event>, id: string): Option<Triple> {
    match h
    case Start => None
    case Then(past, e) =>
      var before := FirstRecorded(past, id);
      if before.None? && e.Record? && e.t.entityId == id then Some(e.t) else before
  }

  ghost predicate WrittenAhead(w: World) {
    && (forall t :: t in w.tombstones ==> t.entityId in w.durable)
    && (forall rid :: rid in w.routes && !w.routes[rid].Closed? ==> w.routes[rid].t.entityId in w.durable)
    && (forall id :: id in w.durable ==> w.durable[id].entityId == id)
  }

  lemma StepKeepsRow(cfg: Config, w: World, e: Event, id: string)
    requires Enabled(cfg, w, e)
    ensures id in w.durable ==> id in Apply(cfg, w, e).durable && Apply(cfg, w, e).durable[id] == w.durable[id]
    ensures id in Apply(cfg, w, e).durable && id !in w.durable ==> Apply(cfg, w, e).durable[id].entityId == id
  {
  }

  lemma StepRecordsTombstone(cfg: Config, w: World, e: Event, t: Triple)
    requires Enabled(cfg, w, e) && WrittenAhead(w) && t in Apply(cfg, w, e).tombstones
    ensures t.entityId in w.durable
  {
  }

  lemma RouteStep(cfg: Config, w: World, e: Event, rid: nat)
    requires Enabled(cfg, w, e) && rid in Apply(cfg, w, e).routes && !Apply(cfg, w, e).routes[rid].Closed?
    ensures var t := Apply(cfg, w, e).routes[rid].t;
      if e.Record? && e.rid == rid then e.t == t && t.entityId in Apply(cfg, w, e).durable
      else rid in w.routes && !w.routes[rid].Closed? && w.routes[rid].t == t
  {
  }

  lemma StepWritesAhead(cfg: Config, w: World, e: Event)
    requires Enabled(cfg, w, e) && WrittenAhead(w)
    ensures WrittenAhead(Apply(cfg, w, e))
  {
    var v := Apply(cfg, w, e);
    forall id
      ensures id in w.durable ==> id in v.durable
      ensures id in v.durable ==> v.durable[id].entityId == id
    {
      StepKeepsRow(cfg, w, e, id);
    }
    forall t | t in v.tombstones
      ensures t.entityId in v.durable
    {
      StepRecordsTombstone(cfg, w, e, t);
    }
    forall rid | rid in v.routes && !v.routes[rid].Closed?
      ensures v.routes[rid].t.entityId in v.durable
    {
      RouteStep(cfg, w, e, rid);
    }
  }

  lemma {:induction false} TableHoldsFirstRecorded(cfg: Config, h: History<Event>, id: string)
    requires Schedule(cfg, h)
    ensures WrittenAhead(Now(cfg, h))
    ensures FirstRecorded(h, id) ==
      (if id in Now(cfg, h).durable then Some(Now(cfg, h).durable[id]) else None)
  {
    match h
    case Start =>
    case Then(past, e) =>
      TableHoldsFirstRecorded(cfg, past, id);
      StepWritesAhead(cfg, Now(cfg, past), e);
  }

  /** At every crash point the id of each in-memory tombstone is in the table, and a restart keeps the
      tombstone exactly when no other tenant or application recorded that id first. */
  lemma TombstoneSurvivesRestartIff(cfg: Config, h: History<Event>, t: Triple)
    requires Schedule(cfg, h) && t in Now(cfg, h).tombstones
    ensures t.entityId in Now(cfg, h).durable
    ensures t in Now(cfg, Then(h, Restart)).tombstones <==> FirstRecorded(h, t.entityId) == Some(t)
  {
    TableHoldsFirstRecorded(cfg, h, t.entityId);
    assert t in Reloaded(Now(cfg, h).durable) <==> Now(cfg, h).durable[t.entityId] == t;
  }

  /** Two delete routes for one id in different tenants: the second tombstone is in force until a restart. */
  lemma LaterTombstoneIsLost(cfg: Config, first: Triple, t: Triple) returns (h: History<Event>)
    requires first != t && first.entityId == t.entityId
    ensures Schedule(cfg, h) && t in Now(cfg, h).tombstones
    ensures FirstRecorded(h, t.entityId) == Some(first)
    ensures t !in Now(cfg, Then(h, Restart)).tombstones
  {
    var h0: History<Event> := Start;
    var h1 := Then(h0, Record(0, first));
    var h2 := Then(h1, Record(1, t));
    h := Then(h2, AddToFilter(1));
    assert Now(cfg, h0) == FirstWorld(cfg) && FirstWorld(cfg).durable == map[];
    assert Schedule(cfg, h1);
    assert Now(cfg, h1) == Apply(cfg, Now(cfg, h0), Record(0, first));
    assert first.entityId !in Now(cfg, h0).durable;
    assert Now(cfg, h1).durable == Now(cfg, h0).durable[first.entityId := first];
    assert Schedule(cfg, h2) && Now(cfg, h2).routes[1] == Recorded(t);
    assert Schedule(cfg, h) && Now(cfg, h).durable[t.entityId] == first;
    TableHoldsFirstRecorded(cfg, h, t.entityId);
    TombstoneSurvivesRestartIff(cfg, h, t);
  }
}
