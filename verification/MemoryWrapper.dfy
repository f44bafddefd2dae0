/** The memory wrapper, the tombstone table and the delete route as the objects they are.  What they
    do step by step is what MemoryProtocol's events do; here each runs without interruption. */
module MemoryWrapper {
  import opened Common
  import opened MemoryModel
  import opened TtlCache
  import opened MemoryProtocol

  // ---------------------------------------------------------------- adapters and flags

  datatype AdapterHandle =
    | StubHandle(stub: StubMemoryAdapter)
    | NullHandle
    | RemoteHandle(answer: SearchRequest -> Option<SearchResult>, fetch: Triple -> Fetched,
                   upsert: Memory -> Option<Memory>, remove: Triple -> Option<bool>)

  class FeatureFlags {
    var values: map<string, string>

    constructor (values: map<string, string>)
      ensures this.values == values
    {
      this.values := values;
    }

    function GetString(key: string, byDefault: string): string
      reads this
    {
      if key in values then values[key] else byDefault
    }
  }

  // ---------------------------------------------------------------- shadow reads

  /** A failed shadow read counts as a discrepancy. */
  datatype ShadowEntry =
    | Compared(primary: string, shadow: string, primaryCount: nat, shadowCount: nat, discrepancy: bool)
    | ShadowFailed(primary: string, shadowName: string)

  function Ids(items: seq<Memory>): set<string> {
    set m | m in items :: m.entityId
  }

  function ShadowEntryFor(name: string, primary: SearchResult, shadow: Option<SearchResult>): ShadowEntry {
    match shadow
    case None => ShadowFailed(primary.adapterVersion, name)
    case Some(s) =>
      Compared(primary.adapterVersion, s.adapterVersion, |primary.items|, |s.items|, Ids(primary.items) != Ids(s.items))
  }

  /** The log shows a discrepancy if and only if the shadow failed or an id is in one result only. */
  lemma DiscrepancyIff(name: string, primary: SearchResult, shadow: Option<SearchResult>)
    ensures var entry := ShadowEntryFor(name, primary, shadow);
      if shadow.None? then entry == ShadowFailed(primary.adapterVersion, name)
      else
        && entry == Compared(primary.adapterVersion, shadow.value.adapterVersion, |primary.items|, |shadow.value.items|,
                             entry.discrepancy)
        && (entry.discrepancy <==> exists id :: HasId(primary.items, id) != HasId(shadow.value.items, id))
  {
    if shadow.Some? {
      forall id
        ensures id in Ids(primary.items) <==> HasId(primary.items, id)
        ensures id in Ids(shadow.value.items) <==> HasId(shadow.value.items, id)
      {
      }
      if forall id :: HasId(primary.items, id) == HasId(shadow.value.items, id) {
        assert Ids(primary.items) == Ids(shadow.value.items);
      }
    }
  }

  ghost predicate HasId(items: seq<Memory>, id: string) {
    exists m :: m in items && m.entityId == id
  }

  // ---------------------------------------------------------------- the wrapper

  class MemoryWrapper {
    const flags: FeatureFlags
    const adapters: map<string, AdapterHandle>
    const filter: TombstoneFilter
    const cache: TTLCache?<SearchResult>
    const digest: Digest
    var shadowLog: seq<ShadowEntry>

    constructor (flags: FeatureFlags, adapters: map<string, AdapterHandle>, filter: TombstoneFilter,
      cache: TTLCache?<SearchResult>, digest: Digest)
      ensures this.flags == flags && this.adapters == adapters && this.filter == filter
      ensures this.cache == cache && this.digest == digest && shadowLog == []
    {
      this.flags := flags;
      this.adapters := adapters;
      this.filter := filter;
      this.cache := cache;
      this.digest := digest;
      shadowLog := [];
    }

    /** An unknown adapter name, or no name, falls back on the null adapter. */
    function ActiveHandle(): (handle: AdapterHandle)
      reads this, flags
      ensures "memory.adapter" in flags.values && flags.values["memory.adapter"] in adapters ==>
        handle == adapters[flags.values["memory.adapter"]]
      ensures "memory.adapter" in flags.values && flags.values["memory.adapter"] !in adapters ==> handle == NullHandle
      ensures "memory.adapter" !in flags.values && "null" in adapters ==> handle == adapters["null"]
      ensures "memory.adapter" !in flags.values && "null" !in adapters ==> handle == NullHandle
    {
      var name := flags.GetString("memory.adapter", "null");
      if name in adapters then adapters[name] else NullHandle
    }

    /** What an adapter answers now. */
    ghost function Answer(handle: AdapterHandle, r: SearchRequest): Option<SearchResult>
      reads if handle.StubHandle? then {handle.stub} else {}
    {
      match handle
      case StubHandle(stub) => AnswerOf(Stub(stub.entries), r)
      case NullHandle => AnswerOf(Null, r)
      case RemoteHandle(answer, fetch, _, _) => AnswerOf(Remote(answer, fetch), r)
    }

    method SearchAdapter(handle: AdapterHandle, r: SearchRequest) returns (result: Option<SearchResult>)
      ensures result == Answer(handle, r)
    {
      match handle
      case StubHandle(stub) =>
        var found := stub.Search(r);
        result := Some(found);
      case NullHandle => result := Some(SearchResult([], "null"));
      case RemoteHandle(answer, _, _, _) => result := answer(r);
    }

    method ReadShadow(r: SearchRequest, primary: SearchResult)
      modifies this`shadowLog
      ensures old(shadowLog) <= shadowLog && |shadowLog| <= |old(shadowLog)| + 1
      ensures var name := flags.GetString("memory.shadow_adapter", "");
        shadowLog == if name != "" && name != flags.GetString("memory.adapter", "null") && name in adapters
          then old(shadowLog) + [ShadowEntryFor(name, primary, Answer(adapters[name], r))]
          else old(shadowLog)
    {
      var shadowName := flags.GetString("memory.shadow_adapter", "");
      var activeName := flags.GetString("memory.adapter", "null");
      if shadowName != "" && shadowName != activeName && shadowName in adapters {
        var shadow := SearchAdapter(adapters[shadowName], r);
        shadowLog := shadowLog + [ShadowEntryFor(shadowName, primary, shadow)];
      }
    }

    /** `now` is the clock at the lookup and `later` at the cache write; None stands for an exception.
        The answer and the cache do not depend on the shadow adapter. */
    method Search(r: SearchRequest, now: real, later: real) returns (reply: Option<SearchResult>)
      modifies this`shadowLog, cache
      ensures cache != null && Cached(old(cache.store), SearchKey(digest, r), now).Some? ==>
        && reply == Cached(old(cache.store), SearchKey(digest, r), now)
        && cache.store == old(cache.store) && shadowLog == old(shadowLog)
      ensures cache == null || Cached(old(cache.store), SearchKey(digest, r), now).None? ==>
        var answer := old(Answer(ActiveHandle(), r));
        && (reply == if answer.Some? then Some(Purified(answer.value, filter.tombstones)) else None)
        && (reply.Some? ==> reply.value.adapterVersion == answer.value.adapterVersion)
        && (reply.Some? ==> forall m :: m in reply.value.items <==>
             m in answer.value.items && Triple(m.tenantId, m.applicationId, m.entityId) !in filter.tombstones)
      ensures cache != null && Cached(old(cache.store), SearchKey(digest, r), now).None? ==>
        var key := SearchKey(digest, r);
        cache.store == if reply.Some?
          then Put(AfterLookup(old(cache.store), key, now), key, reply.value, later, cache.ttl)
          else AfterLookup(old(cache.store), key, now)
    {
      var key := SearchKey(digest, r);
      if cache != null {
        var cached := cache.Get(key, now);
        if cached.Some? {
          return cached;
        }
      }
      var primary := SearchAdapter(ActiveHandle(), r);
      if primary.None? {
        return None;
      }
      ReadShadow(r, primary.value);
      var kept := filter.Filter(primary.value.items);
      var result := SearchResult(kept, primary.value.adapterVersion);
      if cache != null {
        cache.Set(key, result, later);
      }
      return Some(result);
    }

    /** A tombstoned memory is never handed out, whatever the adapter holds. */
    method Get(t: Triple) returns (found: Fetched)
      ensures filter.IsTombstoned(t) ==> found == Absent
      ensures ActiveHandle().StubHandle? ==>
        found == if filter.IsTombstoned(t) || GetFrom(ActiveHandle().stub.entries, t).None? then Absent
          else Present(GetFrom(ActiveHandle().stub.entries, t).value)
      ensures ActiveHandle().StubHandle? && found.Present? ==> IdOf(found.m) == t && found.m.status == Active
      ensures ActiveHandle().RemoteHandle? && !filter.IsTombstoned(t) ==> found == ActiveHandle().fetch(t)
      ensures ActiveHandle().NullHandle? ==> found == Absent
    {
      if filter.IsTombstoned(t) {
        return Absent;
      }
      match ActiveHandle()
      case StubHandle(stub) =>
        var entry := stub.Get(t);
        found := if entry.Some? then Present(entry.value) else Absent;
      case NullHandle => found := Absent;
      case RemoteHandle(_, fetch, _, _) => found := fetch(t);
    }

    /** Neither an upsert nor a delete touches the cache or the filter; None stands for an exception. */
    method Upsert(m: Memory) returns (stored: Option<Memory>)
      requires ActiveHandle().StubHandle? ==> ActiveHandle().stub.Valid()
      modifies if ActiveHandle().StubHandle? then {ActiveHandle().stub} else {}
      ensures stored == if old(ActiveHandle().RemoteHandle?) then old(ActiveHandle()).upsert(m) else Some(m)
      ensures old(ActiveHandle().StubHandle?) ==>
        old(ActiveHandle()).stub.entries == UpsertInto(old(ActiveHandle().stub.entries), m)
    {
      match ActiveHandle()
      case StubHandle(stub) =>
        var entry := stub.Upsert(m);
        stored := Some(entry);
      case NullHandle => stored := Some(m);
      case RemoteHandle(_, _, upsert, _) => stored := upsert(m);
    }

    method Delete(t: Triple) returns (deleted: Option<bool>)
      requires ActiveHandle().StubHandle? ==> ActiveHandle().stub.Valid()
      modifies if ActiveHandle().StubHandle? then {ActiveHandle().stub} else {}
      ensures old(ActiveHandle().StubHandle?) ==>
        && old(ActiveHandle()).stub.entries == DeleteFrom(old(ActiveHandle().stub.entries), t)
        && deleted == Some(exists m :: m in old(ActiveHandle().stub.entries) && IdOf(m) == t)
      ensures old(ActiveHandle().NullHandle?) ==> deleted == Some(false)
      ensures old(ActiveHandle().RemoteHandle?) ==> deleted == old(ActiveHandle()).remove(t)
    {
      match ActiveHandle()
      case StubHandle(stub) =>
        var was := stub.Delete(t);
        deleted := Some(was);
      case NullHandle => deleted := Some(false);
      case RemoteHandle(_, _, _, remove) => deleted := remove(t);
    }
  }

  // ---------------------------------------------------------------- the tombstone table

  class TombstoneTable {
    var rows: map<string, Triple>  // memory_id is the primary key

    ghost predicate Valid()
      reads this
    {
      forall id :: id in rows ==> rows[id].entityId == id
    }

    constructor ()
      ensures Valid() && rows == map[]
    {
      rows := map[];
    }

    /** A conflict on the id leaves the row that is there, even one of another tenant. */
    method Add(t: Triple)
      requires Valid()
      modifies this
      ensures Valid()
      ensures rows == if t.entityId in old(rows) then old(rows) else old(rows)[t.entityId := t]
    {
      if t.entityId !in rows {
        rows := rows[t.entityId := t];
      }
    }

    method LoadAll() returns (all: seq<Triple>)
      ensures (set t | t in all) == Reloaded(rows)
      ensures forall t :: t in all <==> exists id :: id in rows && rows[id] == t
    {
      all := [];
      var rest := rows.Keys;
      while rest != {}
        invariant rest <= rows.Keys
        invariant forall t :: t in all <==> exists id :: id in rows.Keys - rest && rows[id] == t
        decreases rest
      {
        var id :| id in rest;
        all := all + [rows[id]];
        rest := rest - {id};
      }
    }
  }

  // ---------------------------------------------------------------- the delete route

  datatype AuditEvent = AuditEvent(tenantId: string, actorId: string, eventType: string, subjectId: string)

  class AuditLog {
    var events: seq<AuditEvent>

    constructor ()
      ensures events == []
    {
      events := [];
    }

    /** `fails` says whether the write raises. */
    method Record(e: AuditEvent, fails: bool) returns (ok: bool)
      modifies this
      ensures ok == !fails
      ensures events == if fails then old(events) else old(events) + [e]
    {
      if !fails {
        events := events + [e];
      }
      return !fails;
    }
  }

  datatype DeleteOutcome = Forbidden | AuditFailed | DeletedAndTombstoned

  /** The handler of the delete route.  A failing audit write ends it before the cache is invalidated. */
  method DeleteMemory(table: TombstoneTable, filter: TombstoneFilter, audit: AuditLog,
    cache: TTLCache?<SearchResult>, permitted: bool, actorId: string, t: Triple, auditFails: bool)
    returns (outcome: DeleteOutcome)
    requires table.Valid()
    modifies table, filter, audit, cache
    ensures table.Valid()
    ensures outcome == if !permitted then Forbidden else if auditFails then AuditFailed else DeletedAndTombstoned
    ensures table.rows == if permitted && t.entityId !in old(table.rows) then old(table.rows)[t.entityId := t]
      else old(table.rows)
    ensures filter.tombstones == if permitted then old(filter.tombstones) + {t} else old(filter.tombstones)
    ensures cache != null && outcome.DeletedAndTombstoned? ==>
      cache.store == old(cache.store) - KeysUnder(old(cache.store), InvalidationPrefix(t.tenantId, t.applicationId))
    ensures cache != null && !outcome.DeletedAndTombstoned? ==> cache.store == old(cache.store)
    ensures audit.events == if outcome.DeletedAndTombstoned?
      then old(audit.events) + [AuditEvent(t.tenantId, actorId, "memory.deleted", t.entityId)]
      else old(audit.events)
  {
    if !permitted {
      return Forbidden;
    }
    table.Add(t);
    filter.Add(t);
    var recorded := audit.Record(AuditEvent(t.tenantId, actorId, "memory.deleted", t.entityId), auditFails);
    if !recorded {
      return AuditFailed;
    }
    if cache != null {
      var _ := cache.InvalidatePrefix(InvalidationPrefix(t.tenantId, t.applicationId));
    }
    return DeletedAndTombstoned;
  }

  /** Startup after a restart: the filter is filled from the table. */
  method PreloadTombstones(table: TombstoneTable) returns (filter: TombstoneFilter)
    ensures fresh(filter) && filter.tombstones == Reloaded(table.rows)
  {
    filter := new TombstoneFilter();
    var rows := table.LoadAll();
    filter.LoadBulk(rows);
  }

  // ---------------------------------------------------------------- the objects against the steps

  /** The world after these events in a row, if each is enabled in its turn. */
  function Play(cfg: Config, w: World, es: seq<Event>): Option<World>
    decreases |es|
  {
    if es == [] then Some(w)
    else if Enabled(cfg, w, es[0]) then Play(cfg, Apply(cfg, w, es[0]), es[1..])
    else None
  }

  lemma PlayFirst(cfg: Config, w: World, es: seq<Event>, rest: seq<Event>, next: World)
    requires es != [] && es[1..] == rest && Enabled(cfg, w, es[0]) && Apply(cfg, w, es[0]) == next
    ensures Play(cfg, w, es) == Play(cfg, next, rest)
  {
  }

  /** An uninterrupted search is its steps: on a hit the lookup alone, when the adapter fails the query as
      well, and else all of them.  Reply and cache are those of the method, and nothing else changes. */
  lemma SearchIsItsSteps(cfg: Config, w: World, sid: nat, r: SearchRequest, seconds: real)
    requires seconds >= 0.0 && sid !in w.searches
    ensures var key := SearchKey(cfg.digest, r);
      var hit, answer := Cached(w.cache, key, w.clock), AnswerOf(ActiveAdapter(w), r);
      var done, missed := w.searches[sid := Finished], AfterLookup(w.cache, key, w.clock);
      if hit.Some? then
        && Play(cfg, w, [Event.Lookup(sid, r)]) == Some(w.(searches := done))
        && ReplyTo(cfg, w, Event.Lookup(sid, r)) == Some((r, hit.value))
      else if answer.None? then
        && Play(cfg, w, [Event.Lookup(sid, r), Query(sid)]) == Some(w.(cache := missed, searches := done))
        && ReplyTo(cfg, w, Event.Lookup(sid, r)) == None
      else
        var result := Purified(answer.value, w.tombstones);
        var v := w.(clock := w.clock + seconds, cache := missed, searches := w.searches[sid := Filtered(r, result)]);
        && Play(cfg, w, [Event.Lookup(sid, r), Query(sid), Filter(sid), Tick(seconds)]) == Some(v)
        && Play(cfg, v, [Write(sid)]) ==
            Some(v.(cache := Put(missed, key, result, v.clock, cfg.ttl), searches := done))
        && ReplyTo(cfg, v, Write(sid)) == Some((r, result))
  {
    var key := SearchKey(cfg.digest, r);
    var answer, missed := AnswerOf(ActiveAdapter(w), r), AfterLookup(w.cache, key, w.clock);
    if Cached(w.cache, key, w.clock).Some? {
      HitStep(cfg, w, sid, r);
      PlayFirst(cfg, w, [Event.Lookup(sid, r)], [], w.(searches := w.searches[sid := Finished]));
    } else {
      var w1 := w.(cache := missed, searches := w.searches[sid := Missed(r)]);
      MissStep(cfg, w, sid, r);
      if answer.None? {
        FailedSearch(cfg, w1, sid, r);
        OverwriteTwice(w.searches, sid, Missed(r), Finished);
        PlayFirst(cfg, w, [Event.Lookup(sid, r), Query(sid)], [Query(sid)], w1);
      } else {
        var result := Purified(answer.value, w.tombstones);
        AnsweredSearch(cfg, w1, sid, r, answer.value, seconds);
        OverwriteTwice(w.searches, sid, Missed(r), Filtered(r, result));
        PlayFirst(cfg, w, [Event.Lookup(sid, r), Query(sid), Filter(sid), Tick(seconds)],
                  [Query(sid), Filter(sid), Tick(seconds)], w1);
        var v := w1.(clock := w.clock + seconds, searches := w.searches[sid := Filtered(r, result)]);
        WriteStep(cfg, v, sid, r, result);
        OverwriteTwice(w.searches, sid, Filtered(r, result), Finished);
      }
    }
  }

  lemma OverwriteTwice(m: map<nat, Search>, sid: nat, a: Search, b: Search)
    ensures m[sid := a][sid := b] == m[sid := b]
  {
  }

  lemma QueryStep(cfg: Config, w: World, sid: nat, r: SearchRequest)
    requires sid in w.searches && w.searches[sid] == Missed(r)
    ensures var answer := AnswerOf(ActiveAdapter(w), r);
      Apply(cfg, w, Query(sid)) ==
        w.(searches := w.searches[sid := if answer.Some? then Queried(r, answer.value) else Finished])
  {
  }

  lemma FilterStep(cfg: Config, w: World, sid: nat, r: SearchRequest, answer: SearchResult)
    requires sid in w.searches && w.searches[sid] == Queried(r, answer)
    ensures Apply(cfg, w, Filter(sid)) ==
      w.(searches := w.searches[sid := Filtered(r, Purified(answer, w.tombstones))])
  {
  }

  lemma FailedSearch(cfg: Config, w: World, sid: nat, r: SearchRequest)
    requires sid in w.searches && w.searches[sid] == Missed(r) && AnswerOf(ActiveAdapter(w), r).None?
    ensures Play(cfg, w, [Query(sid)]) == Some(w.(searches := w.searches[sid := Finished]))
  {
    QueryStep(cfg, w, sid, r);
    PlayFirst(cfg, w, [Query(sid)], [], w.(searches := w.searches[sid := Finished]));
  }

  /** From the query on. */
  lemma AnsweredSearch(cfg: Config, w: World, sid: nat, r: SearchRequest, answer: SearchResult, seconds: real)
    requires seconds >= 0.0 && sid in w.searches && w.searches[sid] == Missed(r)
    requires AnswerOf(ActiveAdapter(w), r) == Some(answer)
    ensures var result := Purified(answer, w.tombstones);
      var v := w.(clock := w.clock + seconds, searches := w.searches[sid := Filtered(r, result)]);
      Play(cfg, w, [Query(sid), Filter(sid), Tick(seconds)]) == Some(v)
  {
    var result := Purified(answer, w.tombstones);
    var w2 := w.(searches := w.searches[sid := Queried(r, answer)]);
    var w3 := w.(searches := w.searches[sid := Filtered(r, result)]);
    QueryStep(cfg, w, sid, r);
    FilterStep(cfg, w2, sid, r, answer);
    OverwriteTwice(w.searches, sid, Queried(r, answer), Filtered(r, result));
    PlayFirst(cfg, w, [Query(sid), Filter(sid), Tick(seconds)], [Filter(sid), Tick(seconds)], w2);
    PlayFirst(cfg, w2, [Filter(sid), Tick(seconds)], [Tick(seconds)], w3);
    PlayFirst(cfg, w3, [Tick(seconds)], [], w3.(clock := w.clock + seconds));
  }

  lemma WriteStep(cfg: Config, v: World, sid: nat, r: SearchRequest, result: SearchResult)
    requires sid in v.searches && v.searches[sid] == Filtered(r, result)
    ensures Play(cfg, v, [Write(sid)]) == Some(v.(
      cache := Put(v.cache, SearchKey(cfg.digest, r), result, v.clock, cfg.ttl),
      searches := v.searches[sid := Finished]))
    ensures ReplyTo(cfg, v, Write(sid)) == Some((r, result))
  {
    PlayFirst(cfg, v, [Write(sid)], [], Apply(cfg, v, Write(sid)));
  }

  lemma MissStep(cfg: Config, w: World, sid: nat, r: SearchRequest)
    requires sid !in w.searches && Cached(w.cache, SearchKey(cfg.digest, r), w.clock).None?
    ensures Apply(cfg, w, Event.Lookup(sid, r)) == w.(
      cache := AfterLookup(w.cache, SearchKey(cfg.digest, r), w.clock), searches := w.searches[sid := Missed(r)])
    ensures ReplyTo(cfg, w, Event.Lookup(sid, r)) == None
  {
  }

  lemma HitStep(cfg: Config, w: World, sid: nat, r: SearchRequest)
    requires sid !in w.searches && Cached(w.cache, SearchKey(cfg.digest, r), w.clock).Some?
    ensures Apply(cfg, w, Event.Lookup(sid, r)) == w.(searches := w.searches[sid := Finished])
    ensures ReplyTo(cfg, w, Event.Lookup(sid, r)) ==
      Some((r, Cached(w.cache, SearchKey(cfg.digest, r), w.clock).value))
  {
  }

  /** An uninterrupted delete route is its steps, and changes nothing but table, filter, cache and itself,
      as the method does, whether or not the audit write raises. */
  lemma DeleteIsItsSteps(cfg: Config, w: World, rid: nat, t: Triple)
    requires rid !in w.routes
    ensures var v := w.(
        durable := if t.entityId in w.durable then w.durable else w.durable[t.entityId := t],
        tombstones := w.tombstones + {t}, routes := w.routes[rid := Closed]);
      && Play(cfg, w, [Record(rid, t), AddToFilter(rid), Audit(rid, false)]) == Some(v)
      && Play(cfg, w, [Record(rid, t), AddToFilter(rid), Audit(rid, true), InvalidateCache(rid)]) ==
          Some(v.(cache := w.cache - KeysUnder(w.cache, InvalidationPrefix(t.tenantId, t.applicationId))))
  {
    var w1 := w.(durable := if t.entityId in w.durable then w.durable else w.durable[t.entityId := t],
                 routes := w.routes[rid := Recorded(t)]);
    var w2 := w1.(tombstones := w.tombstones + {t}, routes := w.routes[rid := Added(t)]);
    AddStep(cfg, w1, rid, t);
    assert w1.routes[rid := Added(t)] == w.routes[rid := Added(t)];
    PlayFirst(cfg, w, [Record(rid, t), AddToFilter(rid), Audit(rid, false)],
              [AddToFilter(rid), Audit(rid, false)], w1);
    PlayFirst(cfg, w1, [AddToFilter(rid), Audit(rid, false)], [Audit(rid, false)], w2);
    PlayFirst(cfg, w, [Record(rid, t), AddToFilter(rid), Audit(rid, true), InvalidateCache(rid)],
              [AddToFilter(rid), Audit(rid, true), InvalidateCache(rid)], w1);
    PlayFirst(cfg, w1, [AddToFilter(rid), Audit(rid, true), InvalidateCache(rid)],
              [Audit(rid, true), InvalidateCache(rid)], w2);
    RouteEndings(cfg, w2, rid, t);
    assert w2.routes[rid := Closed] == w.routes[rid := Closed];
  }

  lemma AddStep(cfg: Config, w: World, rid: nat, t: Triple)
    requires rid in w.routes && w.routes[rid] == Recorded(t)
    ensures Apply(cfg, w, AddToFilter(rid)) ==
      w.(tombstones := w.tombstones + {t}, routes := w.routes[rid := Added(t)])
  {
  }

  lemma RouteEndings(cfg: Config, w: World, rid: nat, t: Triple)
    requires rid in w.routes && w.routes[rid] == Added(t)
    ensures var v := w.(routes := w.routes[rid := Closed]);
      && Play(cfg, w, [Audit(rid, false)]) == Some(v)
      && Play(cfg, w, [Audit(rid, true), InvalidateCache(rid)]) ==
          Some(v.(cache := w.cache - KeysUnder(w.cache, InvalidationPrefix(t.tenantId, t.applicationId))))
  {
    var audited := w.(routes := w.routes[rid := Audited(t)]);
    var swept := w.cache - KeysUnder(w.cache, InvalidationPrefix(t.tenantId, t.applicationId));
    assert audited.routes[rid := Closed] == w.routes[rid := Closed];
    PlayFirst(cfg, w, [Audit(rid, false)], [], w.(routes := w.routes[rid := Closed]));
    PlayFirst(cfg, w, [Audit(rid, true), InvalidateCache(rid)], [InvalidateCache(rid)], audited);
    PlayFirst(cfg, audited, [InvalidateCache(rid)], [], w.(routes := w.routes[rid := Closed], cache := swept));
  }
}
